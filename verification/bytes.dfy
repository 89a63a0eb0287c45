/**
 * Big-endian unsigned integers in a byte buffer: the value of `parseBytesToNumber`
 * in src/background/dns.js, and the inverse encoding used to lay numbers out on the wire.
 */
module Bytes {

  /** One element of a `Uint8Array`. */
  type byte = x: int | 0 <= x < 256

  /** 256 to the power `n`: the first value that does not fit in `n` bytes. */
  function Pow256(n: nat): (p: nat)
    ensures p >= 1
  {
    if n == 0 then 1 else 256 * Pow256(n - 1)
  }

  /** The unsigned big-endian value of `s`, read most significant byte first. */
  function BigEndian(s: seq<byte>): nat
  {
    if s == [] then 0 else BigEndian(s[..|s| - 1]) * 256 + s[|s| - 1]
  }

  /** The `width` low-order bytes of `n`, most significant first. */
  function ToBigEndian(n: nat, width: nat): (s: seq<byte>)
    ensures |s| == width
  {
    if width == 0 then [] else ToBigEndian(n / 256, width - 1) + [n % 256]
  }

  /** A value read from `n` bytes always fits in `n` bytes. */
  lemma {:induction false} BigEndianBound(s: seq<byte>)
    ensures BigEndian(s) < Pow256(|s|)
  {
    if s != [] {
      BigEndianBound(s[..|s| - 1]);
    }
  }

  /** Reading back a number written in `width` bytes gives the number, when it fits. */
  lemma {:induction false} BigEndianOfToBigEndian(n: nat, width: nat)
    requires n < Pow256(width)
    ensures BigEndian(ToBigEndian(n, width)) == n
  {
    if width != 0 {
      var s := ToBigEndian(n, width);
      assert s[..|s| - 1] == ToBigEndian(n / 256, width - 1);
      BigEndianOfToBigEndian(n / 256, width - 1);
    }
  }

  /** Writing back the value of `s` in `|s|` bytes gives `s`: the reading loses nothing. */
  lemma {:induction false} ToBigEndianOfBigEndian(s: seq<byte>)
    ensures ToBigEndian(BigEndian(s), |s|) == s
  {
    if s != [] {
      var init, last := s[..|s| - 1], s[|s| - 1];
      var n := BigEndian(s);
      assert n / 256 == BigEndian(init) && n % 256 == last;
      ToBigEndianOfBigEndian(init);
      assert s == init + [last];
    }
  }

  /** Two byte strings of the same width with the same value are equal. */
  lemma BigEndianInjective(s: seq<byte>, t: seq<byte>)
    requires |s| == |t| && BigEndian(s) == BigEndian(t)
    ensures s == t
  {
    ToBigEndianOfBigEndian(s);
    ToBigEndianOfBigEndian(t);
  }

  /**
   * `parseBytesToNumber(bytes, start, length)`: folds `result * 256 + byte` over
   * `bytes[start .. start + length)`. The source reads past the end of the buffer
   * without complaint (the missing bytes make the result NaN); the model asks its
   * callers to stay inside the buffer, and the decoder checks this before each read.
   */
  method ParseBytesToNumber(bytes: seq<byte>, start: nat, length: nat) returns (result: nat)
    requires start + length <= |bytes|
    ensures result == BigEndian(bytes[start..start + length])
    ensures result < Pow256(length)
  {
    result := 0;
    var end := start + length;
    for i := start to end
      invariant result == BigEndian(bytes[start..i])
    {
      assert bytes[start..i + 1][..i - start] == bytes[start..i];
      result := result * 256 + bytes[i];
    }
    BigEndianBound(bytes[start..end]);
  }

  /** The three vectors of the source's unit tests: [0,33], [128,1] and [0,1]. */
  lemma BigEndianSamples()
    ensures BigEndian([0, 33]) == 33
    ensures BigEndian([128, 1]) == 32769
    ensures BigEndian([0, 1]) == 1
  {
    assert [0, 33][..1] == [0];
    assert [128, 1][..1] == [128];
    assert [0, 1][..1] == [0];
  }

  /** A slice of a slice is a slice of the whole. */
  lemma SliceOfSlice<T>(s: seq<T>, i: nat, j: nat, k: nat, m: nat)
    requires i <= j <= |s| && k <= m <= j - i
    ensures s[i..j][k..m] == s[i + k..i + m]
  {
    forall t | 0 <= t < m - k
      ensures s[i..j][k..m][t] == s[i + k..i + m][t]
    {
    }
  }

  /** A suffix that starts with `p`: the slice where `p` lies, and what follows it. */
  lemma SuffixParts<T>(s: seq<T>, at: nat, p: seq<T>, rest: seq<T>)
    requires at <= |s| && s[at..] == p + rest
    ensures at + |p| <= |s| && s[at..at + |p|] == p && s[at + |p|..] == rest
  {
    assert s[at..at + |p|] == s[at..][..|p|];
    assert s[at + |p|..] == s[at..][|p|..];
  }
}
