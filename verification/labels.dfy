/**
 * Domain names as label sequences: `domain.split('.')`, `segments.join('.')`,
 * and the length-prefixed wire form of a label sequence (section 3.1 of RFC 1035),
 * which the query encoder writes and the name parser reads.
 */
module Labels {

  import opened Bytes

  /** The separator `'.'` as a character and as a byte. */
  const DotChar: char := '.'
  const Dot: byte := 46

  /** JavaScript's `s.split('.')`: never empty; empty parts survive ("a..b" has three parts). */
  function Split(s: string): (parts: seq<string>)
    ensures |parts| >= 1
  {
    if s == [] then [[]]
    else
      var rest := Split(s[1..]);
      if s[0] == DotChar then [[]] + rest
      else [[s[0]] + rest[0]] + rest[1..]
  }

  /** JavaScript's `parts.join(sep)`: the empty list joins to the empty sequence. */
  function Join<T>(parts: seq<seq<T>>, sep: T): seq<T>
  {
    if |parts| == 0 then []
    else if |parts| == 1 then parts[0]
    else parts[0] + [sep] + Join(parts[1..], sep)
  }

  /** Joining byte labels gives the same values whether read as bytes or as integers. */
  lemma {:induction false} JoinBytes(parts: seq<seq<byte>>, sep: byte)
    ensures Join<byte>(parts, sep) == Join<int>(parts, sep)
  {
    if |parts| > 1 {
      JoinBytes(parts[1..], sep);
    }
  }

  /** No part of `parts` contains `sep`. */
  predicate Unseparated<T(==)>(parts: seq<seq<T>>, sep: T)
  {
    forall k :: 0 <= k < |parts| ==> sep !in parts[k]
  }

  /** Splitting at every dot loses nothing: joining the parts gives the string back. */
  lemma {:induction false} JoinSplit(s: string)
    ensures Join(Split(s), DotChar) == s
    ensures Unseparated(Split(s), DotChar)
  {
    if s != [] {
      var rest := Split(s[1..]);
      JoinSplit(s[1..]);
      if s[0] == DotChar {
        assert Split(s) == [[]] + rest;
        assert Split(s)[1..] == rest;
        assert Join(Split(s), DotChar) == [] + [DotChar] + Join(rest, DotChar);
      } else {
        var parts := Split(s);
        assert parts == [[s[0]] + rest[0]] + rest[1..];
        if |rest| == 1 {
          assert Join(parts, DotChar) == [s[0]] + rest[0];
        } else {
          assert parts[1..] == rest[1..];
          assert Join(rest, DotChar) == rest[0] + [DotChar] + Join(rest[1..], DotChar);
        }
        forall k | 0 <= k < |parts| ensures DotChar !in parts[k] {
          if k > 0 { assert parts[k] == rest[k]; }
        }
      }
    }
  }

  /** Joining dot-free parts and splitting again gives the parts back. */
  lemma {:induction false} SplitJoin(parts: seq<string>)
    requires |parts| >= 1 && Unseparated(parts, DotChar)
    ensures Split(Join(parts, DotChar)) == parts
  {
    if |parts| == 1 {
      SplitDotFree(parts[0]);
    } else {
      var tail := Join(parts[1..], DotChar);
      assert Unseparated(parts[1..], DotChar) by {
        forall k | 0 <= k < |parts| - 1 ensures DotChar !in parts[1..][k] {
          assert parts[1..][k] == parts[k + 1];
        }
      }
      SplitJoin(parts[1..]);
      assert DotChar !in parts[0] by { assert parts[0] == parts[0]; }
      SplitPrefix(parts[0], tail);
      assert [parts[0]] + parts[1..] == parts;
    }
  }

  /** A dot-free string splits into itself. */
  lemma {:induction false} SplitDotFree(w: string)
    requires DotChar !in w
    ensures Split(w) == [w]
  {
    if w != [] {
      assert DotChar !in w[1..] by {
        forall k | 0 <= k < |w| - 1 ensures w[1..][k] != DotChar { assert w[1..][k] == w[k + 1]; }
      }
      SplitDotFree(w[1..]);
      assert w[0] != DotChar && [w[0]] + w[1..] == w;
    }
  }

  /** Splitting `w + "." + t` for dot-free `w` gives `w` followed by the parts of `t`. */
  lemma {:induction false} SplitPrefix(w: string, t: string)
    requires DotChar !in w
    ensures Split(w + [DotChar] + t) == [w] + Split(t)
  {
    if w == [] {
      assert [] + [DotChar] + t == [DotChar] + t;
      assert ([DotChar] + t)[1..] == t;
    } else {
      assert DotChar !in w[1..] by {
        forall k | 0 <= k < |w| - 1 ensures w[1..][k] != DotChar { assert w[1..][k] == w[k + 1]; }
      }
      var s := w + [DotChar] + t;
      SplitPrefix(w[1..], t);
      assert s[1..] == w[1..] + [DotChar] + t;
      assert s[0] == w[0] != DotChar;
      var rest := Split(s[1..]);
      assert rest == [w[1..]] + Split(t);
      assert Split(s) == [[w[0]] + w[1..]] + Split(t);
      assert [w[0]] + w[1..] == w;
    }
  }

  /** The wire form of a label sequence: each label as its length byte followed by its bytes. */
  function Wire(labels: seq<seq<int>>): seq<int>
  {
    if labels == [] then [] else [|labels[0]|] + labels[0] + Wire(labels[1..])
  }

  /** Appending one label to the sequence appends its wire form: the encoder's loop step. */
  lemma {:induction false} WireSnoc(labels: seq<seq<int>>, l: seq<int>)
    ensures Wire(labels + [l]) == Wire(labels) + [|l|] + l
  {
    if labels == [] {
      assert [] + [l] == [l];
    } else {
      assert (labels + [l])[1..] == labels[1..] + [l];
      WireSnoc(labels[1..], l);
    }
  }

  /** The wire form of two label sequences one after the other. */
  lemma {:induction false} WireAppend(a: seq<seq<int>>, b: seq<seq<int>>)
    ensures Wire(a + b) == Wire(a) + Wire(b)
  {
    if a == [] {
      assert [] + b == b;
    } else {
      assert (a + b)[1..] == a[1..] + b;
      WireAppend(a[1..], b);
    }
  }

  /** Labels of fewer than 256 values, each in `0..255`, have a wire form of bytes only. */
  lemma {:induction false} WireRange(labels: seq<seq<int>>)
    requires forall k | 0 <= k < |labels| :: |labels[k]| < 256
    requires forall k, j | 0 <= k < |labels| && 0 <= j < |labels[k]| :: 0 <= labels[k][j] < 256
    ensures forall k | 0 <= k < |Wire(labels)| :: 0 <= Wire(labels)[k] < 256
  {
    if labels != [] {
      WireRange(labels[1..]);
      var w := Wire(labels);
      var l := labels[0];
      var rest := Wire(labels[1..]);
      assert w == [|l|] + l + rest;
      forall k | 0 <= k < |w| ensures 0 <= w[k] < 256 {
        if k == 0 {
        } else if k <= |l| {
          assert w[k] == l[k - 1];
        } else {
          assert w[k] == rest[k - 1 - |l|];
        }
      }
    }
  }

  /** The wire form of `labels` is one byte longer per label than the labels themselves. */
  lemma {:induction false} WireLength(labels: seq<seq<int>>)
    ensures |Wire(labels)| == |labels| + TotalLength(labels)
  {
    if labels != [] { WireLength(labels[1..]); }
  }

  /** The summed lengths of the labels. */
  function TotalLength(labels: seq<seq<int>>): nat
  {
    if labels == [] then 0 else |labels[0]| + TotalLength(labels[1..])
  }

  /** The character codes of a string, as `c.charCodeAt(0)` gives them. */
  function Codes(s: string): (r: seq<int>)
    ensures |r| == |s|
  {
    seq(|s|, k requires 0 <= k < |s| => s[k] as int)
  }

  /** The character codes of each label. */
  function CodesOf(parts: seq<string>): (r: seq<seq<int>>)
    ensures |r| == |parts|
  {
    seq(|parts|, k requires 0 <= k < |parts| => Codes(parts[k]))
  }

  /** Taking codes commutes with joining at dots. */
  lemma {:induction false} CodesJoin(parts: seq<string>)
    ensures Codes(Join(parts, DotChar)) == Join(CodesOf(parts), Dot)
  {
    if |parts| > 1 {
      CodesJoin(parts[1..]);
      assert CodesOf(parts)[1..] == CodesOf(parts[1..]);
      var j := Join(parts[1..], DotChar);
      assert Codes(parts[0] + [DotChar] + j) == Codes(parts[0]) + [Dot] + Codes(j);
    }
  }

  /** A split string's labels together are as long as the string less its dots. */
  lemma {:induction false} SplitLength(s: string)
    ensures |Split(s)| + TotalLength(CodesOf(Split(s))) == |s| + 1
  {
    if s != [] {
      SplitLength(s[1..]);
      var rest := Split(s[1..]);
      if s[0] == DotChar {
        CodesOfCons([], rest);
      } else {
        assert rest == [rest[0]] + rest[1..];
        CodesOfCons([s[0]] + rest[0], rest[1..]);
        CodesOfCons(rest[0], rest[1..]);
      }
    }
  }

  /** Codes and lengths of a list with one more part in front. */
  lemma CodesOfCons(p: string, parts: seq<string>)
    ensures CodesOf([p] + parts) == [Codes(p)] + CodesOf(parts)
    ensures TotalLength([Codes(p)] + CodesOf(parts)) == |p| + TotalLength(CodesOf(parts))
  {
    assert ([Codes(p)] + CodesOf(parts))[1..] == CodesOf(parts);
  }
}
