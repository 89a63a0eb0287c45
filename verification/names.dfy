/**
 * `parseName` of src/background/dns.js: one domain name read from a response buffer,
 * either a run of length-prefixed labels ended by a zero byte, or a single compression
 * pointer (section 4.1.4 of RFC 1035) resolved through a memo of the names read so far
 * in the same message.
 */
module Names {

  import opened Wrappers
  import opened Bytes
  import opened Labels

  /** A name as the bytes of its labels joined with dots (before any text decoding). */
  type Name = seq<byte>

  /** The per-message memo: buffer offset of a literal name to that name. */
  type Memo = map<nat, Name>

  /**
   * Malformed: the source's 'Malformed DNS record' error. Truncated: the walk ran off the
   * end of the buffer, where the source keeps reading `undefined` and never stops.
   */
  datatype DecodeError = Malformed | Truncated

  /** The labels of a literal name and the offset just past its zero byte. */
  datatype Walk = Walk(labels: seq<seq<byte>>, loc: nat)

  /** What `parseName` returns: `{ name, loc }`. */
  datatype Parsed = Parsed(name: Name, loc: nat)

  /** What `parseName` returns together with the memo it leaves behind. */
  datatype NameRead = NameRead(name: Name, loc: nat, memo: Memo)

  /** The memo object shared by the `parseName` calls of one decode. */
  class NameMemo {
    var entries: Memo

    constructor ()
      ensures entries == map[]
    {
      entries := map[];
    }
  }

  /** `bytes[i] & 192`: either of the two top bits marks a pointer (so 0x40 and 0x80 do too). */
  predicate IsPointer(b: byte)
  {
    (b as bv8) & 0xC0 != 0
  }

  /** The low six bits of the first pointer byte. */
  function PointerHigh(b: byte): byte
  {
    ((b as bv8) & 0x3F) as int
  }

  /**
   * The offset a pointer at `i` refers to. A pointer in the last byte of the buffer
   * reads its missing second byte as 0, as `new Uint8Array([x, undefined])` does.
   */
  function PointerOffset(bytes: seq<byte>, i: nat): nat
    requires i < |bytes|
  {
    BigEndian([PointerHigh(bytes[i]), if i + 1 < |bytes| then bytes[i + 1] else 0])
  }

  /** Labels the name parser can produce: 1 to 255 bytes each. */
  predicate ValidLabels(labels: seq<seq<byte>>)
  {
    forall k :: 0 <= k < |labels| ==> 1 <= |labels[k]| < 256
  }

  /**
   * The literal walk from offset `i`: a zero byte ends the name, any other byte `n`
   * is followed by a label of `n` bytes. Running off the end is `Truncated`.
   */
  function LabelsAt(bytes: seq<byte>, i: nat): Result<Walk, DecodeError>
    decreases |bytes| - i
  {
    if i >= |bytes| then Err(Truncated)
    else if bytes[i] == 0 then Ok(Walk([], i + 1))
    else
      var next := i + 1 + bytes[i];
      if next > |bytes| then Err(Truncated)
      else
        var rest :- LabelsAt(bytes, next);
        Ok(Walk([bytes[i + 1..next]] + rest.labels, rest.loc))
  }

  /** `parseName(bytes, i, memo)` as a value: the name, the next offset and the new memo. */
  function NameAt(bytes: seq<byte>, i: nat, memo: Memo): Result<NameRead, DecodeError>
  {
    if i < |bytes| && IsPointer(bytes[i]) then
      var p := PointerOffset(bytes, i);
      if p in memo && memo[p] != [] then Ok(NameRead(memo[p], i + 2, memo))
      else Err(Malformed)
    else
      var w :- LabelsAt(bytes, i);
      var name := Join(w.labels, Dot);
      Ok(NameRead(name, w.loc, memo[i := name]))
  }

  /** The memo `parseName` leaves behind, whether it succeeds or fails. */
  function MemoAfter(bytes: seq<byte>, i: nat, memo: Memo): Memo
  {
    match NameAt(bytes, i, memo)
    case Ok(n) => n.memo
    case Err(_) => memo
  }

  /** The labels found before reaching `r`, prepended to what `r` finds. */
  function Prepend(segments: seq<seq<byte>>, r: Result<Walk, DecodeError>): Result<Walk, DecodeError>
  {
    match r
    case Ok(w) => Ok(Walk(segments + w.labels, w.loc))
    case Err(e) => Err(e)
  }

  /**
   * `parseName`: a pointer is looked up in the memo (an absent or empty entry is
   * `Malformed`) and leaves the memo alone; a literal name is read label by label and
   * recorded in the memo under its starting offset.
   */
  method ParseName(bytes: seq<byte>, i: nat, memo: NameMemo) returns (r: Result<Parsed, DecodeError>)
    modifies memo
    ensures match NameAt(bytes, i, old(memo.entries))
            case Ok(n) => r == Ok(Parsed(n.name, n.loc)) && memo.entries == n.memo
            case Err(e) => r == Err(e) && memo.entries == old(memo.entries)
  {
    if i < |bytes| && IsPointer(bytes[i]) {
      var second := if i + 1 < |bytes| then bytes[i + 1] else 0;
      var pointer := ParseBytesToNumber([PointerHigh(bytes[i]), second], 0, 2);
      assert [PointerHigh(bytes[i]), second][0..2] == [PointerHigh(bytes[i]), second];
      if pointer !in memo.entries || memo.entries[pointer] == [] {
        return Err(Malformed);
      }
      return Ok(Parsed(memo.entries[pointer], i + 2));
    }
    var start := i;
    var segments: seq<seq<byte>> := [];
    var j := i;
    assert Prepend(segments, LabelsAt(bytes, j)) == LabelsAt(bytes, j) by {
      if LabelsAt(bytes, j).Ok? { assert [] + LabelsAt(bytes, j).value.labels == LabelsAt(bytes, j).value.labels; }
    }
    while j >= |bytes| || bytes[j] != 0
      invariant start <= j && memo.entries == old(memo.entries)
      invariant LabelsAt(bytes, start) == Prepend(segments, LabelsAt(bytes, j))
      decreases |bytes| - j
    {
      if j >= |bytes| {
        // the source keeps reading past the end here and never returns
        return Err(Truncated);
      }
      var length := bytes[j];
      j := j + 1;
      if j + length > |bytes| {
        assert LabelsAt(bytes, j - 1) == Err(Truncated);
        return Err(Truncated);
      }
      PrependLabel(bytes, j - 1, segments);
      segments := segments + [bytes[j..j + length]];
      j := j + length;
    }
    assert LabelsAt(bytes, j) == Ok(Walk([], j + 1));
    assert segments + [] == segments;
    var name := Join(segments, Dot);
    memo.entries := memo.entries[start := name];
    return Ok(Parsed(name, j + 1));
  }

  /** One step of the literal walk: the label at `i` joins the labels found so far. */
  lemma PrependLabel(bytes: seq<byte>, i: nat, segments: seq<seq<byte>>)
    requires i < |bytes| && bytes[i] != 0 && i + 1 + bytes[i] <= |bytes|
    ensures var next := i + 1 + bytes[i];
      Prepend(segments, LabelsAt(bytes, i)) == Prepend(segments + [bytes[i + 1..next]], LabelsAt(bytes, next))
  {
    var next := i + 1 + bytes[i];
    var rest := LabelsAt(bytes, next);
    if rest.Ok? {
      assert segments + ([bytes[i + 1..next]] + rest.value.labels)
          == (segments + [bytes[i + 1..next]]) + rest.value.labels;
    }
  }

  /** The mask test is the same as asking whether the byte is at least 64. */
  lemma PointerByte(b: byte)
    ensures IsPointer(b) <==> b >= 64
    ensures PointerHigh(b) == b % 64
  {
  }

  /**
   * A successful literal walk covers exactly the wire form of its labels and a zero
   * byte, every label having the 1 to 255 bytes its length byte announced.
   */
  lemma {:induction false} LabelsAtSound(bytes: seq<byte>, i: nat)
    requires LabelsAt(bytes, i).Ok?
    ensures var w := LabelsAt(bytes, i).value;
      && i < w.loc <= |bytes|
      && bytes[i..w.loc] == Wire(w.labels) + [0]
      && ValidLabels(w.labels)
    decreases |bytes| - i
  {
    if bytes[i] != 0 {
      var next := i + 1 + bytes[i];
      LabelsAtSound(bytes, next);
      var rest := LabelsAt(bytes, next).value;
      var w := LabelsAt(bytes, i).value;
      var l := bytes[i + 1..next];
      assert w.labels == [l] + rest.labels;
      assert w.labels[1..] == rest.labels;
      assert bytes[i..w.loc] == [bytes[i]] + l + bytes[next..w.loc];
    }
  }

  /**
   * Conversely, the wire form of valid labels and a zero byte is walked back to exactly
   * those labels, ending just past the zero byte, whatever surrounds it.
   */
  lemma {:induction false} LabelsAtComplete(bytes: seq<byte>, i: nat, labels: seq<seq<byte>>)
    requires ValidLabels(labels)
    requires i + |Wire(labels)| + 1 <= |bytes|
    requires bytes[i..i + |Wire(labels)| + 1] == Wire(labels) + [0]
    ensures LabelsAt(bytes, i) == Ok(Walk(labels, i + |Wire(labels)| + 1))
    decreases labels
  {
    var wire := Wire(labels);
    var seg := bytes[i..i + |wire| + 1];
    assert bytes[i] == seg[0];
    if labels != [] {
      var l := labels[0];
      WireFront(bytes, i, labels);
      assert ValidLabels(labels[1..]) by {
        forall k | 0 <= k < |labels| - 1 ensures 1 <= |labels[1..][k]| < 256 {
          assert labels[1..][k] == labels[k + 1];
        }
      }
      LabelsAtComplete(bytes, i + 1 + |l|, labels[1..]);
      assert [l] + labels[1..] == labels;
    }
  }

  /** The first label of a wire form in the buffer: its length byte, its bytes, then the rest. */
  lemma WireFront(bytes: seq<byte>, i: nat, labels: seq<seq<byte>>)
    requires labels != []
    requires i + |Wire(labels)| + 1 <= |bytes|
    requires bytes[i..i + |Wire(labels)| + 1] == Wire(labels) + [0]
    ensures |Wire(labels)| == 1 + |labels[0]| + |Wire(labels[1..])|
    ensures bytes[i] == |labels[0]| && bytes[i + 1..i + 1 + |labels[0]|] == labels[0]
    ensures bytes[i + 1 + |labels[0]|..i + |Wire(labels)| + 1] == Wire(labels[1..]) + [0]
  {
    var l, tail := labels[0], Wire(labels[1..]);
    assert Wire(labels) == [|l|] + l + tail;
    FrontSlices(bytes, i, l, tail);
  }

  /** A length byte, a label, more and a zero byte at `i`, taken apart. */
  lemma FrontSlices(bytes: seq<int>, i: nat, l: seq<int>, tail: seq<int>)
    requires i + |l| + |tail| + 2 <= |bytes|
    requires bytes[i..i + |l| + |tail| + 2] == [|l|] + l + tail + [0]
    ensures bytes[i] == |l| && bytes[i + 1..i + 1 + |l|] == l
    ensures bytes[i + 1 + |l|..i + |l| + |tail| + 2] == tail + [0]
  {
    var seg := bytes[i..i + |l| + |tail| + 2];
    assert seg[1..1 + |l|] == l;
    assert seg[1 + |l|..] == tail + [0];
    SliceOfSlice(bytes, i, i + |l| + |tail| + 2, 1, 1 + |l|);
    SliceOfSlice(bytes, i, i + |l| + |tail| + 2, 1 + |l|, |l| + |tail| + 2);
  }

  /**
   * A literal name at `i` (its first byte not a pointer) is the dot-join of its labels;
   * it ends just past its zero byte and is recorded in the memo at `i`, every other
   * memo entry staying as it was.
   */
  lemma LiteralName(bytes: seq<byte>, i: nat, memo: Memo, labels: seq<seq<byte>>)
    requires ValidLabels(labels)
    requires labels != [] ==> |labels[0]| < 64
    requires i + |Wire(labels)| + 1 <= |bytes|
    requires bytes[i..i + |Wire(labels)| + 1] == Wire(labels) + [0]
    ensures NameAt(bytes, i, memo)
            == Ok(NameRead(Join(labels, Dot), i + |Wire(labels)| + 1, memo[i := Join(labels, Dot)]))
    ensures forall k :: k != i ==> (k in NameAt(bytes, i, memo).value.memo <==> k in memo)
    ensures forall k :: k != i && k in memo ==> NameAt(bytes, i, memo).value.memo[k] == memo[k]
  {
    assert bytes[i] == bytes[i..i + |Wire(labels)| + 1][0];
    if labels != [] {
      assert Wire(labels)[0] == |labels[0]|;
    }
    PointerByte(bytes[i]);
    LabelsAtComplete(bytes, i, labels);
  }

  /**
   * Any successful literal read is of that shape: the bytes from `i` to the returned
   * location are labels in wire form and a zero byte, and the name is their dot-join.
   */
  lemma LiteralNameSound(bytes: seq<byte>, i: nat, memo: Memo)
    requires !(i < |bytes| && IsPointer(bytes[i]))
    requires NameAt(bytes, i, memo).Ok?
    ensures var n := NameAt(bytes, i, memo).value;
      var w := LabelsAt(bytes, i).value;
      && i < n.loc <= |bytes|
      && bytes[i..n.loc] == Wire(w.labels) + [0]
      && n.name == Join(w.labels, Dot)
      && n.memo == memo[i := n.name]
  {
    LabelsAtSound(bytes, i);
  }

  /**
   * A pointer at `i` resolves to the memo entry at `(bytes[i] & 63) * 256 + bytes[i+1]`
   * without touching the memo, and ends two bytes on; an absent or empty entry is
   * `Malformed`.
   */
  lemma PointerName(bytes: seq<byte>, i: nat, memo: Memo)
    requires i + 1 < |bytes| && bytes[i] >= 64
    ensures var p: int := (bytes[i] as int % 64) * 256 + bytes[i + 1] as int;
      NameAt(bytes, i, memo)
      == if p in memo && memo[p] != [] then Ok(NameRead(memo[p], i + 2, memo)) else Err(Malformed)
  {
    PointerByte(bytes[i]);
    var s := [PointerHigh(bytes[i]), bytes[i + 1]];
    assert s[..1] == [PointerHigh(bytes[i])] && [PointerHigh(bytes[i])][..0] == [];
    assert BigEndian(s[..1]) == PointerHigh(bytes[i]);
    assert BigEndian(s) == PointerHigh(bytes[i]) as int * 256 + bytes[i + 1] as int;
  }
}
