/**
 * `btoa` on a string whose characters are all below 256: base 64 with the standard
 * alphabet and `=` padding (section 4 of RFC 4648), one byte per character. A decoder
 * of the unpadded form serves as the encoder's partner.
 */
module Base64 {

  import opened Wrappers
  import opened Bytes

  /** The character for a six-bit value: `A`-`Z`, `a`-`z`, `0`-`9`, `+`, `/`. */
  function Digit(v: nat): (c: char)
    requires v < 64
    ensures c != '='
    ensures Sextet(c) == Some(v)
  {
    if v < 26 then ('A' as int + v) as char
    else if v < 52 then ('a' as int + (v - 26)) as char
    else if v < 62 then ('0' as int + (v - 52)) as char
    else if v == 62 then '+'
    else '/'
  }

  /** The six-bit value of an alphabet character; `None` for any other character. */
  function Sextet(c: char): (r: Option<nat>)
    ensures r.Some? ==> r.value < 64
  {
    if 'A' <= c <= 'Z' then Some(c as int - 'A' as int)
    else if 'a' <= c <= 'z' then Some(c as int - 'a' as int + 26)
    else if '0' <= c <= '9' then Some(c as int - '0' as int + 52)
    else if c == '+' then Some(62)
    else if c == '/' then Some(63)
    else None
  }

  /** Three bytes as four characters. */
  function Quad(a: byte, b: byte, c: byte): string
  {
    [Digit(a / 4), Digit((a % 4) * 16 + b / 16), Digit((b % 16) * 4 + c / 64), Digit(c % 64)]
  }

  /** The unpadded encoding: a last group of one byte gives two characters, of two bytes three. */
  function Unpadded(b: seq<byte>): string
  {
    if |b| == 0 then []
    else if |b| == 1 then [Digit(b[0] / 4), Digit((b[0] % 4) * 16)]
    else if |b| == 2 then [Digit(b[0] / 4), Digit((b[0] % 4) * 16 + b[1] / 16), Digit((b[1] % 16) * 4)]
    else Quad(b[0], b[1], b[2]) + Unpadded(b[3..])
  }

  /** The `=` characters that fill the last group up to four. */
  function Padding(n: nat): string
  {
    if n % 3 == 1 then "==" else if n % 3 == 2 then "=" else ""
  }

  /** `btoa`: the unpadded encoding, then padding. */
  function Encode(b: seq<byte>): string
  {
    Unpadded(b) + Padding(|b|)
  }

  /**
   * The unpadded decoding: each group of four alphabet characters is three bytes, a last
   * group of two or three characters is one or two bytes; a single character left over,
   * or a character outside the alphabet, is `None`.
   */
  function Decode(s: string): Option<seq<byte>>
  {
    if |s| == 0 then Some([])
    else if |s| == 1 then None
    else
      var v0 :- Sextet(s[0]);
      var v1 :- Sextet(s[1]);
      if |s| == 2 then Some(Triple(v0, v1, 0, 0)[..1])
      else
        var v2 :- Sextet(s[2]);
        if |s| == 3 then Some(Triple(v0, v1, v2, 0)[..2])
        else
          var v3 :- Sextet(s[3]);
          var rest :- Decode(s[4..]);
          Some(Triple(v0, v1, v2, v3) + rest)
  }

  /** Four six-bit values as three bytes: the same 24 bits regrouped by eight. */
  function Triple(v0: nat, v1: nat, v2: nat, v3: nat): seq<byte>
    requires v0 < 64 && v1 < 64 && v2 < 64 && v3 < 64
  {
    [v0 * 4 + v1 / 16, (v1 % 16) * 16 + v2 / 4, (v2 % 4) * 64 + v3]
  }

  /** Splitting three bytes into six-bit values and regrouping them gives the bytes back. */
  lemma TripleOfQuad(x: byte, y: byte, z: byte)
    ensures Triple(x / 4, (x % 4) * 16 + y / 16, (y % 16) * 4 + z / 64, z % 64) == [x, y, z]
  {
  }

  /** Decoding the unpadded encoding gives the bytes back. */
  lemma {:induction false} DecodeUnpadded(b: seq<byte>)
    ensures Decode(Unpadded(b)) == Some(b)
    decreases |b|, 1
  {
    if |b| >= 3 {
      DecodeGroup(b);
    } else if |b| == 2 {
      DecodeTwo(b[0], b[1]);
      assert b == [b[0], b[1]];
    } else if |b| == 1 {
      DecodeOne(b[0]);
      assert b == [b[0]];
    }
  }

  /** A full group of three bytes decodes back, followed by the decoding of the rest. */
  lemma {:induction false} DecodeGroup(b: seq<byte>)
    requires |b| >= 3
    ensures Decode(Unpadded(b)) == Some(b)
    decreases |b|, 0
  {
    DecodeUnpadded(b[3..]);
    DecodeQuad(b[0], b[1], b[2], Unpadded(b[3..]));
    assert [b[0], b[1], b[2]] + b[3..] == b;
  }

  /** Four characters of one group, then more: the group's three bytes, then what the rest decodes to. */
  lemma DecodeQuad(x: byte, y: byte, z: byte, t: string)
    requires Decode(t).Some?
    ensures Decode(Quad(x, y, z) + t) == Some([x, y, z] + Decode(t).value)
  {
    TripleOfQuad(x, y, z);
    var s := Quad(x, y, z) + t;
    var v0, v1, v2, v3 := x / 4, (x % 4) * 16 + y / 16, (y % 16) * 4 + z / 64, z % 64;
    assert s[0] == Digit(v0) && s[1] == Digit(v1) && s[2] == Digit(v2) && s[3] == Digit(v3);
    assert s[4..] == t;
  }

  /** A last group of two bytes: three characters decode back to both. */
  lemma DecodeTwo(x: byte, y: byte)
    ensures Decode(Unpadded([x, y])) == Some([x, y])
  {
    TripleOfQuad(x, y, 0);
    var v0, v1, v2 := x / 4, (x % 4) * 16 + y / 16, (y % 16) * 4;
    assert Unpadded([x, y]) == [Digit(v0), Digit(v1), Digit(v2)];
    assert Sextet(Digit(v0)) == Some(v0) && Sextet(Digit(v1)) == Some(v1) && Sextet(Digit(v2)) == Some(v2);
    assert Triple(v0, v1, v2, 0)[..2] == [x, y];
  }

  /** A last group of one byte: two characters decode back to it. */
  lemma DecodeOne(x: byte)
    ensures Decode(Unpadded([x])) == Some([x])
  {
    TripleOfQuad(x, 0, 0);
    var v0, v1 := x / 4, (x % 4) * 16;
    assert Unpadded([x]) == [Digit(v0), Digit(v1)];
    assert Sextet(Digit(v0)) == Some(v0) && Sextet(Digit(v1)) == Some(v1);
    assert Triple(v0, v1, 0, 0)[..1] == [x];
  }

  /** Every group of three bytes is four characters; a shorter last group is one more than its length. */
  lemma {:induction false} UnpaddedLength(b: seq<byte>)
    ensures |Unpadded(b)| == (4 * |b| + 2) / 3
  {
    if |b| >= 3 {
      UnpaddedLength(b[3..]);
    }
  }

  /** `btoa` output comes in groups of four characters. */
  lemma EncodeLength(b: seq<byte>)
    ensures |Encode(b)| == 4 * ((|b| + 2) / 3)
  {
    UnpaddedLength(b);
    GroupArithmetic(|b|);
  }

  /** The unpadded length plus the padding is a whole number of groups. */
  lemma GroupArithmetic(n: nat)
    ensures (4 * n + 2) / 3 + |Padding(n)| == 4 * ((n + 2) / 3)
  {
    var q := n / 3;
    if n % 3 == 0 {
      assert n == 3 * q && 4 * n + 2 == 3 * (4 * q) + 2;
    } else if n % 3 == 1 {
      assert n == 3 * q + 1 && 4 * n + 2 == 3 * (4 * q + 2) && n + 2 == 3 * (q + 1);
    } else {
      assert n == 3 * q + 2 && 4 * n + 2 == 3 * (4 * q + 3) + 1 && n + 2 == 3 * (q + 1) + 1;
    }
  }

  /** The unpadded encoding uses the alphabet only, so it has no `=` in it. */
  lemma {:induction false} UnpaddedAlphabet(b: seq<byte>)
    ensures forall k | 0 <= k < |Unpadded(b)| :: Sextet(Unpadded(b)[k]).Some?
  {
    if |b| >= 3 {
      UnpaddedAlphabet(b[3..]);
      var s := Unpadded(b);
      forall k | 4 <= k < |s| ensures Sextet(s[k]).Some? {
        assert s[k] == Unpadded(b[3..])[k - 4];
      }
    }
  }
}
