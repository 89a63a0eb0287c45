/**
 * `decode` of src/background/dns.js: the header (section 4.1.1 of RFC 1035), the first
 * question (section 4.1.2) and, when the header announces answers, the first resource
 * record (section 4.1.3) with SRV data laid out as in RFC 2782. Further sections are
 * counted in the header but never read.
 */
module Message {

  import opened Wrappers
  import opened Bytes
  import opened Labels
  import opened Names

  datatype Header = Header(
    id: nat, flags: nat, questionCount: nat, answerCount: nat,
    authoritiesCount: nat, additionalsCount: nat)

  datatype Question = Question(name: Name, qtype: nat, qclass: nat)

  datatype ResourceRecord = ResourceRecord(name: Name, rtype: nat, rclass: nat, ttl: nat, dataLength: nat)

  /** The SRV data the source exposes: priority and weight are skipped. */
  datatype SrvData = SrvData(port: nat, target: Name)

  /** The decoded response; `record` and `data` are absent (`data: null`) with no answers. */
  datatype Message = Message(header: Header, question: Question, record: Option<ResourceRecord>, data: Option<SrvData>)

  /** A `width`-byte big-endian field at `at`; past the end of the buffer it is `Truncated`. */
  function Field(bytes: seq<byte>, at: nat, width: nat): Result<nat, DecodeError>
  {
    if at + width <= |bytes| then Ok(BigEndian(bytes[at..at + width])) else Err(Truncated)
  }

  /** A value read from the buffer, the offset after it, and the memo after reading it. */
  datatype Read<T> = Read(value: T, loc: nat, memo: Memo)

  /** Lines 94-101: the six 16-bit header fields at offsets 0, 2, 4, 6, 8 and 10. */
  function HeaderOf(bytes: seq<byte>): Result<Header, DecodeError>
  {
    var id :- Field(bytes, 0, 2);
    var flags :- Field(bytes, 2, 2);
    var questionCount :- Field(bytes, 4, 2);
    var answerCount :- Field(bytes, 6, 2);
    var authoritiesCount :- Field(bytes, 8, 2);
    var additionalsCount :- Field(bytes, 10, 2);
    Ok(Header(id, flags, questionCount, answerCount, authoritiesCount, additionalsCount))
  }

  /** Lines 103-112: the question name at 12, then its type and class; `loc` is past both. */
  function QuestionOf(bytes: seq<byte>, memo: Memo): Result<Read<Question>, DecodeError>
  {
    var q :- NameAt(bytes, 12, memo);
    var qtype :- Field(bytes, q.loc, 2);
    var qclass :- Field(bytes, q.loc + 2, 2);
    Ok(Read(Question(q.name, qtype, qclass), q.loc + 4, q.memo))
  }

  /** Lines 122-131: the record's name at `i`, then type, class, ttl and data length. */
  function RecordOf(bytes: seq<byte>, i: nat, memo: Memo): Result<Read<ResourceRecord>, DecodeError>
  {
    var a :- NameAt(bytes, i, memo);
    var rtype :- Field(bytes, a.loc, 2);
    var rclass :- Field(bytes, a.loc + 2, 2);
    var ttl :- Field(bytes, a.loc + 4, 4);
    var dataLength :- Field(bytes, a.loc + 8, 2);
    Ok(Read(ResourceRecord(a.name, rtype, rclass, ttl, dataLength), a.loc + 10, a.memo))
  }

  /** Lines 133-136: priority and weight skipped, the port at `i + 4`, the target at `i + 6`. */
  function SrvOf(bytes: seq<byte>, i: nat, memo: Memo): Result<SrvData, DecodeError>
  {
    var port :- Field(bytes, i + 4, 2);
    var target :- NameAt(bytes, i + 6, memo);
    Ok(SrvData(port, target.name))
  }

  /** What `decode(bytes)` returns, or the error that stops it. */
  function MessageOf(bytes: seq<byte>): Result<Message, DecodeError>
  {
    var header :- HeaderOf(bytes);
    var q :- QuestionOf(bytes, map[]);
    if header.answerCount == 0 then
      Ok(Message(header, q.value, None, None))
    else
      var record :- RecordOf(bytes, q.loc, q.memo);
      var data :- SrvOf(bytes, record.loc, record.memo);
      Ok(Message(header, q.value, Some(record.value), Some(data)))
  }

  /**
   * `decode`: reads the six header fields, the question and, unless `answerCount` is 0,
   * one answer record and its SRV port and target, all through one fresh name memo.
   */
  method Decode(bytes: seq<byte>) returns (r: Result<Message, DecodeError>)
    ensures r == MessageOf(bytes)
  {
    var header := ReadHeader(bytes);
    if header.Err? {
      return Err(header.error);
    }
    var nameMemo := new NameMemo();
    var question := ReadQuestion(bytes, nameMemo);
    if question.Err? {
      return Err(question.error);
    }
    var i := question.value.loc;
    if header.value.answerCount == 0 {
      return Ok(Message(header.value, question.value.value, None, None));
    }
    var record := ReadRecord(bytes, i, nameMemo);
    if record.Err? {
      return Err(record.error);
    }
    i := record.value.loc;
    var data := ReadSrv(bytes, i, nameMemo);
    if data.Err? {
      return Err(data.error);
    }
    return Ok(Message(header.value, question.value.value, Some(record.value.value), Some(data.value)));
  }

  /** The header block of `decode`. */
  method ReadHeader(bytes: seq<byte>) returns (r: Result<Header, DecodeError>)
    ensures r == HeaderOf(bytes)
  {
    if |bytes| < 12 {
      return Err(Truncated);
    }
    var id := ParseBytesToNumber(bytes, 0, 2);
    var flags := ParseBytesToNumber(bytes, 2, 2);
    var questionCount := ParseBytesToNumber(bytes, 4, 2);
    var answerCount := ParseBytesToNumber(bytes, 6, 2);
    var authoritiesCount := ParseBytesToNumber(bytes, 8, 2);
    var additionalsCount := ParseBytesToNumber(bytes, 10, 2);
    return Ok(Header(id, flags, questionCount, answerCount, authoritiesCount, additionalsCount));
  }

  /**
   * The question block of `decode`; the memo gains the question name, even when the
   * type and class then run off the buffer.
   */
  method ReadQuestion(bytes: seq<byte>, memo: NameMemo) returns (r: Result<Read<Question>, DecodeError>)
    modifies memo
    ensures QuestionOf(bytes, old(memo.entries)).Ok? ==> r.Ok? && r.value.memo == memo.entries
    ensures memo.entries == MemoAfter(bytes, 12, old(memo.entries))
    ensures r == QuestionOf(bytes, old(memo.entries))
  {
    var q := ParseName(bytes, 12, memo);
    if q.Err? {
      return Err(q.error);
    }
    var i := q.value.loc;
    if i + 4 > |bytes| {
      return Err(Truncated);
    }
    var qtype := ParseBytesToNumber(bytes, i, 2);
    var qclass := ParseBytesToNumber(bytes, i + 2, 2);
    return Ok(Read(Question(q.value.name, qtype, qclass), i + 4, memo.entries));
  }

  /** The answer record block of `decode`. */
  method ReadRecord(bytes: seq<byte>, i: nat, memo: NameMemo) returns (r: Result<Read<ResourceRecord>, DecodeError>)
    modifies memo
    ensures RecordOf(bytes, i, old(memo.entries)).Ok? ==> r.Ok? && r.value.memo == memo.entries
    ensures memo.entries == MemoAfter(bytes, i, old(memo.entries))
    ensures r == RecordOf(bytes, i, old(memo.entries))
  {
    var a := ParseName(bytes, i, memo);
    if a.Err? {
      return Err(a.error);
    }
    var j := a.value.loc;
    if j + 10 > |bytes| {
      return Err(Truncated);
    }
    var rtype := ParseBytesToNumber(bytes, j, 2);
    var rclass := ParseBytesToNumber(bytes, j + 2, 2);
    var ttl := ParseBytesToNumber(bytes, j + 4, 4);
    var dataLength := ParseBytesToNumber(bytes, j + 8, 2);
    return Ok(Read(ResourceRecord(a.value.name, rtype, rclass, ttl, dataLength), j + 10, memo.entries));
  }

  /** The SRV data block of `decode`; a literal target name is added to the memo. */
  method ReadSrv(bytes: seq<byte>, i: nat, memo: NameMemo) returns (r: Result<SrvData, DecodeError>)
    modifies memo
    ensures r == SrvOf(bytes, i, old(memo.entries))
    ensures memo.entries == if i + 6 <= |bytes| then MemoAfter(bytes, i + 6, old(memo.entries)) else old(memo.entries)
  {
    if i + 6 > |bytes| {
      return Err(Truncated);
    }
    var port := ParseBytesToNumber(bytes, i + 4, 2);
    var target := ParseName(bytes, i + 6, memo);
    if target.Err? {
      return Err(target.error);
    }
    return Ok(SrvData(port, target.value.name));
  }

  /**
   * A decoded message has a record and SRV data exactly when the header announces
   * answers, and every field fits its width on the wire.
   */
  lemma DecodeShape(bytes: seq<byte>)
    requires MessageOf(bytes).Ok?
    ensures var m := MessageOf(bytes).value;
      && (m.record.Some? <==> m.header.answerCount != 0)
      && (m.data.Some? <==> m.record.Some?)
      && m.header.id < 0x1_0000 && m.header.flags < 0x1_0000
      && m.header.questionCount < 0x1_0000 && m.header.answerCount < 0x1_0000
      && m.header.authoritiesCount < 0x1_0000 && m.header.additionalsCount < 0x1_0000
      && m.question.qtype < 0x1_0000 && m.question.qclass < 0x1_0000
      && (m.record.Some? ==> m.record.value.ttl < 0x1_0000_0000 && m.record.value.dataLength < 0x1_0000)
      && (m.data.Some? ==> m.data.value.port < 0x1_0000)
  {
    forall at: nat, width: nat | Field(bytes, at, width).Ok?
      ensures Field(bytes, at, width).value < Pow256(width)
    {
      BigEndianBound(bytes[at..at + width]);
    }
    assert Pow256(2) == 0x1_0000 && Pow256(4) == 0x1_0000_0000;
  }

  /** Header fields that fit in 16 bits each. */
  predicate HeaderFits(h: Header)
  {
    h.id < 0x1_0000 && h.flags < 0x1_0000 && h.questionCount < 0x1_0000 &&
    h.answerCount < 0x1_0000 && h.authoritiesCount < 0x1_0000 && h.additionalsCount < 0x1_0000
  }

  /** The 12-byte wire form of a header. */
  function HeaderWire(h: Header): (w: seq<int>)
    ensures |w| == 12
  {
    ToBigEndian(h.id, 2) + ToBigEndian(h.flags, 2) + ToBigEndian(h.questionCount, 2) +
    ToBigEndian(h.answerCount, 2) + ToBigEndian(h.authoritiesCount, 2) + ToBigEndian(h.additionalsCount, 2)
  }

  /** A question in wire form: its name as literal labels, then type and class. */
  function QuestionWire(labels: seq<seq<int>>, qtype: nat, qclass: nat): seq<int>
  {
    Wire(labels) + [0] + ToBigEndian(qtype, 2) + ToBigEndian(qclass, 2)
  }

  /** The fields of an SRV answer as a server lays them out. */
  datatype SrvAnswer = SrvAnswer(
    rtype: nat, rclass: nat, ttl: nat, dataLength: nat,
    priority: nat, weight: nat, port: nat, target: seq<seq<byte>>)

  predicate AnswerFits(a: SrvAnswer)
  {
    a.rtype < 0x1_0000 && a.rclass < 0x1_0000 && a.ttl < 0x1_0000_0000 && a.dataLength < 0x1_0000 &&
    a.priority < 0x1_0000 && a.weight < 0x1_0000 && a.port < 0x1_0000 &&
    ValidLabels(a.target) && (a.target != [] ==> |a.target[0]| < 64)
  }

  /**
   * An SRV answer in wire form whose owner name is compressed into the pointer
   * 0xC0 0x0C to the question name at offset 12, as resolvers send it.
   */
  function AnswerWire(a: SrvAnswer): seq<int>
  {
    [0xC0, 0x0C] + FixedWire(a)
  }

  /** Type, class, ttl, data length, priority, weight and port, then the target name. */
  function FixedWire(a: SrvAnswer): seq<int>
  {
    ToBigEndian(a.rtype, 2) + (ToBigEndian(a.rclass, 2) + (ToBigEndian(a.ttl, 4) + (ToBigEndian(a.dataLength, 2) +
    (ToBigEndian(a.priority, 2) + (ToBigEndian(a.weight, 2) + (ToBigEndian(a.port, 2) + (Wire(a.target) + [0])))))))
  }

  /** Question labels that a message can start with: the first label is not read as a pointer. */
  predicate QuestionFits(labels: seq<seq<byte>>, qtype: nat, qclass: nat)
  {
    ValidLabels(labels) && (labels != [] ==> |labels[0]| < 64) && qtype < 0x1_0000 && qclass < 0x1_0000
  }

  /** Reading a field where its wire form was written gives the field back. */
  lemma FieldAt(bytes: seq<byte>, at: nat, n: nat, width: nat)
    requires n < Pow256(width)
    requires at + width <= |bytes| && bytes[at..at + width] == ToBigEndian(n, width)
    ensures Field(bytes, at, width) == Ok(n)
  {
    BigEndianOfToBigEndian(n, width);
  }

  /** The header written by `HeaderWire` at the front of a buffer reads back unchanged. */
  lemma HeaderAt(bytes: seq<byte>, h: Header)
    requires HeaderFits(h) && |bytes| >= 12 && bytes[..12] == HeaderWire(h)
    ensures HeaderOf(bytes) == Ok(h)
  {
    assert Pow256(2) == 0x1_0000;
    var w := HeaderWire(h);
    assert bytes[0..2] == w[0..2] == ToBigEndian(h.id, 2);
    assert bytes[2..4] == w[2..4] == ToBigEndian(h.flags, 2);
    assert bytes[4..6] == w[4..6] == ToBigEndian(h.questionCount, 2);
    assert bytes[6..8] == w[6..8] == ToBigEndian(h.answerCount, 2);
    assert bytes[8..10] == w[8..10] == ToBigEndian(h.authoritiesCount, 2);
    assert bytes[10..12] == w[10..12] == ToBigEndian(h.additionalsCount, 2);
    FieldAt(bytes, 0, h.id, 2);
    FieldAt(bytes, 2, h.flags, 2);
    FieldAt(bytes, 4, h.questionCount, 2);
    FieldAt(bytes, 6, h.answerCount, 2);
    FieldAt(bytes, 8, h.authoritiesCount, 2);
    FieldAt(bytes, 10, h.additionalsCount, 2);
  }

  /** The question written at offset 12 reads back, memoised at 12. */
  lemma QuestionAt(bytes: seq<byte>, labels: seq<seq<byte>>, qtype: nat, qclass: nat, rest: seq<int>)
    requires QuestionFits(labels, qtype, qclass)
    requires |bytes| >= 12 && bytes[12..] == QuestionWire(labels, qtype, qclass) + rest
    ensures var name := Join(labels, Dot);
      QuestionOf(bytes, map[])
      == Ok(Read(Question(name, qtype, qclass), 12 + |QuestionWire(labels, qtype, qclass)|, map[12 := name]))
    ensures bytes[12 + |QuestionWire(labels, qtype, qclass)|..] == rest
  {
    assert Pow256(2) == 0x1_0000;
    var wire := Wire(labels);
    var loc := 12 + |wire| + 1;
    var n1, n2 := ToBigEndian(qtype, 2), ToBigEndian(qclass, 2);
    assert QuestionWire(labels, qtype, qclass) + rest == (wire + [0]) + (n1 + (n2 + rest));
    SuffixParts(bytes, 12, wire + [0], n1 + (n2 + rest));
    LiteralName(bytes, 12, map[], labels);
    assert map[][12 := Join(labels, Dot)] == map[12 := Join(labels, Dot)];
    FieldThen(bytes, loc, qtype, 2, n2 + rest);
    FieldThen(bytes, loc + 2, qclass, 2, rest);
  }

  /** Reading a field at `at` where its wire form starts the rest of the buffer. */
  lemma FieldThen(bytes: seq<byte>, at: nat, n: nat, width: nat, tail: seq<int>)
    requires n < Pow256(width)
    requires at <= |bytes| && bytes[at..] == ToBigEndian(n, width) + tail
    ensures Field(bytes, at, width) == Ok(n)
    ensures bytes[at + width..] == tail
  {
    assert bytes[at..at + width] == bytes[at..][..width];
    FieldAt(bytes, at, n, width);
    assert bytes[at + width..] == bytes[at..][width..];
  }

  /** An answer written at `at` reads back as a record named after the memo entry at 12. */
  lemma RecordAt(bytes: seq<byte>, at: nat, a: SrvAnswer, memo: Memo, rest: seq<int>)
    requires AnswerFits(a) && 12 in memo && memo[12] != []
    requires at <= |bytes| && bytes[at..] == AnswerWire(a) + rest
    ensures RecordOf(bytes, at, memo)
            == Ok(Read(ResourceRecord(memo[12], a.rtype, a.rclass, a.ttl, a.dataLength), at + 12, memo))
    ensures bytes[at + 12..] == ToBigEndian(a.priority, 2) + (ToBigEndian(a.weight, 2) + (ToBigEndian(a.port, 2) + (Wire(a.target) + [0]))) + rest
  {
    SuffixParts(bytes, at, [0xC0, 0x0C], FixedWire(a) + rest);
    assert bytes[at] == bytes[at..at + 2][0] && bytes[at + 1] == bytes[at..at + 2][1];
    PointerName(bytes, at, memo);
    RecordFields(bytes, at + 2, a, rest);
  }

  /** The type, class, ttl and data length of an answer, read from where `FixedWire` starts. */
  lemma RecordFields(bytes: seq<byte>, i: nat, a: SrvAnswer, rest: seq<int>)
    requires AnswerFits(a)
    requires i <= |bytes| && bytes[i..] == FixedWire(a) + rest
    ensures Field(bytes, i, 2) == Ok(a.rtype) && Field(bytes, i + 2, 2) == Ok(a.rclass)
    ensures Field(bytes, i + 4, 4) == Ok(a.ttl) && Field(bytes, i + 8, 2) == Ok(a.dataLength)
    ensures bytes[i + 10..] == ToBigEndian(a.priority, 2) + (ToBigEndian(a.weight, 2) + (ToBigEndian(a.port, 2) + (Wire(a.target) + [0]))) + rest
  {
    assert Pow256(2) == 0x1_0000 && Pow256(4) == 0x1_0000_0000;
    var t4 := ToBigEndian(a.priority, 2) + (ToBigEndian(a.weight, 2) + (ToBigEndian(a.port, 2) + (Wire(a.target) + [0])));
    var t3 := ToBigEndian(a.dataLength, 2) + t4;
    var t2 := ToBigEndian(a.ttl, 4) + t3;
    var t1 := ToBigEndian(a.rclass, 2) + t2;
    assert FixedWire(a) == ToBigEndian(a.rtype, 2) + t1;
    assert bytes[i..] == ToBigEndian(a.rtype, 2) + (t1 + rest);
    FieldThen(bytes, i, a.rtype, 2, t1 + rest);
    assert t1 + rest == ToBigEndian(a.rclass, 2) + (t2 + rest);
    FieldThen(bytes, i + 2, a.rclass, 2, t2 + rest);
    assert t2 + rest == ToBigEndian(a.ttl, 4) + (t3 + rest);
    FieldThen(bytes, i + 4, a.ttl, 4, t3 + rest);
    assert t3 + rest == ToBigEndian(a.dataLength, 2) + (t4 + rest);
    FieldThen(bytes, i + 8, a.dataLength, 2, t4 + rest);
  }

  /** The SRV data after a record read at `at` is its port and target. */
  lemma SrvAt(bytes: seq<byte>, at: nat, a: SrvAnswer, memo: Memo, rest: seq<int>)
    requires AnswerFits(a)
    requires at + 12 <= |bytes|
    requires bytes[at + 12..] == ToBigEndian(a.priority, 2) + (ToBigEndian(a.weight, 2) + (ToBigEndian(a.port, 2) + (Wire(a.target) + [0]))) + rest
    ensures SrvOf(bytes, at + 12, memo) == Ok(SrvData(a.port, Join(a.target, Dot)))
  {
    var i := at + 12;
    var tw := Wire(a.target) + [0];
    SrvFields(bytes, i, a, rest);
    SuffixParts(bytes, i + 6, tw, rest);
    LiteralName(bytes, i + 6, memo, a.target);
  }

  /** Priority and weight are passed over; the port follows them and the target name the port. */
  lemma SrvFields(bytes: seq<byte>, i: nat, a: SrvAnswer, rest: seq<int>)
    requires AnswerFits(a)
    requires i <= |bytes|
    requires bytes[i..] == ToBigEndian(a.priority, 2) + (ToBigEndian(a.weight, 2) + (ToBigEndian(a.port, 2) + (Wire(a.target) + [0]))) + rest
    ensures i + 6 <= |bytes| && Field(bytes, i + 4, 2) == Ok(a.port)
    ensures bytes[i + 6..] == (Wire(a.target) + [0]) + rest
  {
    assert Pow256(2) == 0x1_0000;
    var tw := Wire(a.target) + [0];
    var skipped := ToBigEndian(a.priority, 2) + ToBigEndian(a.weight, 2);
    assert bytes[i..] == skipped + (ToBigEndian(a.port, 2) + (tw + rest));
    SuffixParts(bytes, i, skipped, ToBigEndian(a.port, 2) + (tw + rest));
    FieldThen(bytes, i + 4, a.port, 2, tw + rest);
  }

  /**
   * With `answerCount == 0` the decoder stops after the question: whatever follows
   * (authority or additional records included) the result has no record and no data.
   */
  lemma DecodeWithoutAnswer(
    bytes: seq<byte>, h: Header, labels: seq<seq<byte>>, qtype: nat, qclass: nat, rest: seq<int>)
    requires HeaderFits(h) && h.answerCount == 0 && QuestionFits(labels, qtype, qclass)
    requires bytes == HeaderWire(h) + QuestionWire(labels, qtype, qclass) + rest
    ensures MessageOf(bytes) == Ok(Message(h, Question(Join(labels, Dot), qtype, qclass), None, None))
  {
    assert bytes[..12] == HeaderWire(h);
    assert bytes[12..] == QuestionWire(labels, qtype, qclass) + rest;
    HeaderAt(bytes, h);
    QuestionAt(bytes, labels, qtype, qclass, rest);
  }

  /**
   * A response with an SRV answer whose name points back at the question decodes to the
   * header, the question, a record named like the question, and the port and target.
   */
  lemma {:induction false} DecodeWithAnswer(
    bytes: seq<byte>, h: Header, labels: seq<seq<byte>>, qtype: nat, qclass: nat,
    a: SrvAnswer, rest: seq<int>)
    requires HeaderFits(h) && h.answerCount != 0 && QuestionFits(labels, qtype, qclass) && labels != []
    requires AnswerFits(a)
    requires bytes == HeaderWire(h) + QuestionWire(labels, qtype, qclass) + AnswerWire(a) + rest
    ensures var name := Join(labels, Dot);
      MessageOf(bytes) == Ok(Message(
        h, Question(name, qtype, qclass),
        Some(ResourceRecord(name, a.rtype, a.rclass, a.ttl, a.dataLength)),
        Some(SrvData(a.port, Join(a.target, Dot)))))
  {
    var qw := QuestionWire(labels, qtype, qclass);
    var aw := AnswerWire(a);
    Layout(bytes, HeaderWire(h), qw, aw, rest);
    HeaderAt(bytes, h);
    QuestionAt(bytes, labels, qtype, qclass, aw + rest);
    var name := Join(labels, Dot);
    var memo := map[12 := name];
    var at := 12 + |qw|;
    JoinNonEmpty(labels);
    var q := Read(Question(name, qtype, qclass), at, memo);
    var record := Read(ResourceRecord(name, a.rtype, a.rclass, a.ttl, a.dataLength), at + 12, memo);
    AnswerAt(bytes, at, a, memo, rest);
    MessageSteps(bytes, h, q, record, SrvData(a.port, Join(a.target, Dot)));
  }

  /** Splitting a buffer laid out as a 12-byte header, a question, an answer and the rest. */
  lemma Layout(bytes: seq<byte>, hw: seq<int>, qw: seq<int>, aw: seq<int>, rest: seq<int>)
    requires |hw| == 12 && bytes == hw + qw + aw + rest
    ensures |bytes| >= 12 && bytes[..12] == hw && bytes[12..] == qw + (aw + rest)
  {
    assert bytes == hw + (qw + (aw + rest));
  }

  /** The record and its SRV data, for an answer written at `at`. */
  lemma AnswerAt(bytes: seq<byte>, at: nat, a: SrvAnswer, memo: Memo, rest: seq<int>)
    requires AnswerFits(a) && 12 in memo && memo[12] != []
    requires at <= |bytes| && bytes[at..] == AnswerWire(a) + rest
    ensures RecordOf(bytes, at, memo)
            == Ok(Read(ResourceRecord(memo[12], a.rtype, a.rclass, a.ttl, a.dataLength), at + 12, memo))
    ensures SrvOf(bytes, at + 12, memo) == Ok(SrvData(a.port, Join(a.target, Dot)))
  {
    RecordAt(bytes, at, a, memo, rest);
    SrvAt(bytes, at, a, memo, rest);
  }

  /** `decode` with answers is the header, question, record and SRV steps in turn. */
  lemma MessageSteps(bytes: seq<byte>, h: Header, q: Read<Question>, record: Read<ResourceRecord>, data: SrvData)
    requires HeaderOf(bytes) == Ok(h) && h.answerCount != 0
    requires QuestionOf(bytes, map[]) == Ok(q)
    requires RecordOf(bytes, q.loc, q.memo) == Ok(record)
    requires SrvOf(bytes, record.loc, record.memo) == Ok(data)
    ensures MessageOf(bytes) == Ok(Message(h, q.value, Some(record.value), Some(data)))
  {
  }

  /** Joining a non-empty list of non-empty labels gives a non-empty name. */
  lemma JoinNonEmpty(labels: seq<seq<byte>>)
    requires labels != [] && |labels[0]| >= 1
    ensures Join(labels, Dot) != []
  {
    if |labels| > 1 {
      assert |Join(labels, Dot)| >= |labels[0]|;
    }
  }
}
