/**
 * The DNS-over-HTTPS query of `queryAvatarService`: the fixed header, the pre-encoded
 * `_avatars-sec._tcp` labels, the domain's labels as length and character codes, the
 * closing zero, QTYPE SRV and QCLASS IN; then `btoa` with the trailing `=` removed.
 */
module Query {

  import opened Wrappers
  import opened Bytes
  import opened Labels
  import opened Message
  import opened Base64

  /** Id 0, flags 0x0100 (recursion desired), one question, no other records. */
  const DnsHeaderBytes: seq<int> := [0, 0, 1, 0, 0, 1, 0, 0, 0, 0, 0, 0]

  /** The labels `_avatars-sec` and `_tcp` in wire form. */
  const SrvSubdomainBytes: seq<int> :=
    [12, 95, 97, 118, 97, 116, 97, 114, 115, 45, 115, 101, 99, 4, 95, 116, 99, 112]

  /** The type code of SRV records (RFC 2782). */
  const SrvRecordId := 33

  /** The class code of the Internet class. */
  const InternetClass := 1

  const AvatarsSec: seq<byte> := [95, 97, 118, 97, 116, 97, 114, 115, 45, 115, 101, 99]
  const Tcp: seq<byte> := [95, 116, 99, 112]

  /** The header `DnsHeaderBytes` encodes. */
  const QueryHeader := Header(0, 256, 1, 0, 0, 0)

  /** The query for `domain`: what the pushes of lines 49-59 leave in `messageBytes`. */
  function QueryBytes(domain: string): seq<int>
  {
    DnsHeaderBytes + SrvSubdomainBytes + Wire(CodesOf(Split(domain))) + [0, 0, SrvRecordId, 0, InternetClass]
  }

  /** The pushes of lines 49-59: the prefix, then per label its length and its character codes. */
  method BuildQueryBytes(domain: string) returns (messageBytes: seq<int>)
    ensures messageBytes == QueryBytes(domain)
  {
    messageBytes := DnsHeaderBytes + SrvSubdomainBytes;
    var parts := Split(domain);
    for k := 0 to |parts|
      invariant messageBytes == DnsHeaderBytes + SrvSubdomainBytes + Wire(CodesOf(parts[..k]))
    {
      var val := parts[k];
      ghost var before := messageBytes;
      messageBytes := messageBytes + [|val|];
      for m := 0 to |val|
        invariant messageBytes == before + [|val|] + Codes(val[..m])
      {
        assert Codes(val[..m + 1]) == Codes(val[..m]) + [val[m] as int];
        messageBytes := messageBytes + [val[m] as int];
      }
      assert val[..|val|] == val;
      assert CodesOf(parts[..k + 1]) == CodesOf(parts[..k]) + [Codes(val)];
      WireSnoc(CodesOf(parts[..k]), Codes(val));
    }
    assert parts[..|parts|] == parts;
    messageBytes := messageBytes + [0, 0, SrvRecordId, 0, InternetClass];
  }

  /** The header, the SRV labels and the closing fields are 35 bytes; each domain character adds one. */
  lemma QueryLength(domain: string)
    ensures |QueryBytes(domain)| == |domain| + 36
  {
    WireLength(CodesOf(Split(domain)));
    SplitLength(domain);
  }

  /** The pre-encoded subdomain bytes are the wire form of `_avatars-sec` and `_tcp`. */
  lemma SrvSubdomainWire()
    ensures SrvSubdomainBytes == Wire([AvatarsSec, Tcp])
    ensures Codes("_avatars-sec") == AvatarsSec && Codes("_tcp") == Tcp
  {
    assert Wire([Tcp]) == [4] + Tcp + Wire([]);
    assert [AvatarsSec, Tcp][1..] == [Tcp];
  }

  /** The header bytes are the wire form of id 0, flags 0x0100 and one question. */
  lemma DnsHeaderWire()
    ensures DnsHeaderBytes == HeaderWire(QueryHeader)
  {
    assert ToBigEndian(0, 2) == [0, 0] && ToBigEndian(256, 2) == [1, 0] && ToBigEndian(1, 2) == [0, 1];
  }

  /** Every label of the domain has 1 to 255 characters, each below 256. */
  predicate DomainFits(domain: string)
  {
    forall k | 0 <= k < |Split(domain)| ::
      1 <= |Split(domain)[k]| < 256 && forall j | 0 <= j < |Split(domain)[k]| :: Split(domain)[k][j] as int < 256
  }

  /** The question labels of the query: `_avatars-sec`, `_tcp`, then the domain's labels. */
  function QueryLabels(domain: string): (labels: seq<seq<int>>)
    ensures |labels| == |Split(domain)| + 2
  {
    [AvatarsSec, Tcp] + CodesOf(Split(domain))
  }

  /** The query is the header and one question for the SRV labels, type SRV and class IN. */
  lemma QueryLayout(domain: string)
    ensures QueryBytes(domain) == HeaderWire(QueryHeader) + QuestionWire(QueryLabels(domain), SrvRecordId, InternetClass) + []
  {
    var c := CodesOf(Split(domain));
    var w := Wire(c);
    SrvSubdomainWire();
    DnsHeaderWire();
    WireAppend([AvatarsSec, Tcp], c);
    assert ToBigEndian(SrvRecordId, 2) == [0, 33] && ToBigEndian(InternetClass, 2) == [0, 1];
    var qw := QuestionWire(QueryLabels(domain), SrvRecordId, InternetClass);
    assert qw == SrvSubdomainBytes + w + [0] + [0, 33] + [0, 1];
    assert qw == SrvSubdomainBytes + w + [0, 0, 33, 0, 1];
    var h := DnsHeaderBytes;
    assert h + (SrvSubdomainBytes + w + [0, 0, 33, 0, 1]) == h + SrvSubdomainBytes + w + [0, 0, 33, 0, 1];
    assert h + qw + [] == h + qw;
  }

  /** With every label in range the query holds bytes only. */
  lemma QueryInRange(domain: string)
    requires DomainFits(domain)
    ensures forall k | 0 <= k < |QueryBytes(domain)| :: 0 <= QueryBytes(domain)[k] < 256
  {
    var parts := Split(domain);
    var labels := CodesOf(parts);
    forall k, j | 0 <= k < |labels| && 0 <= j < |labels[k]| ensures 0 <= labels[k][j] < 256 {
      assert labels[k][j] == parts[k][j] as int;
    }
    WireRange(labels);
  }

  /** The domain's labels are the dot-separated parts of its name. */
  lemma QueryName(domain: string)
    ensures Join(QueryLabels(domain), Dot) == AvatarsSec + [Dot] + Tcp + [Dot] + Codes(domain)
  {
    var parts := Split(domain);
    var c := CodesOf(parts);
    JoinSplit(domain);
    CodesJoin(parts);
    var labels := QueryLabels(domain);
    var tc: seq<seq<int>> := [Tcp] + c;
    assert labels[1..] == tc && tc[0] == Tcp && tc[1..] == c && |tc| > 1;
    assert Join<int>(tc, Dot) == tc[0] + [Dot] + Join<int>(tc[1..], Dot);
  }

  /**
   * Decoding the query of a domain whose labels fit reads the query header and one
   * question: `_avatars-sec._tcp.` and the domain, type SRV, class IN, and no record.
   */
  lemma QueryDecodes(domain: string, bytes: seq<byte>)
    requires DomainFits(domain) && bytes == QueryBytes(domain)
    ensures MessageOf(bytes).Ok?
    ensures var m := MessageOf(bytes).value;
      m.header == QueryHeader && m.record == None && m.data == None &&
      m.question.name == AvatarsSec + [Dot] + Tcp + [Dot] + Codes(domain) &&
      m.question.qtype == SrvRecordId && m.question.qclass == InternetClass
  {
    QueryLabelsFit(domain);
    var labels: seq<seq<byte>> := QueryLabels(domain);
    QueryLayout(domain);
    QueryName(domain);
    JoinBytes(labels, Dot);
    DecodeWithoutAnswer(bytes, QueryHeader, labels, SrvRecordId, InternetClass, []);
  }

  /** The question labels of a domain whose labels fit are valid labels of bytes. */
  lemma QueryLabelsFit(domain: string)
    requires DomainFits(domain)
    ensures forall k, j | 0 <= k < |QueryLabels(domain)| && 0 <= j < |QueryLabels(domain)[k]| ::
      0 <= QueryLabels(domain)[k][j] < 256
    ensures forall k | 0 <= k < |QueryLabels(domain)| :: 1 <= |QueryLabels(domain)[k]| < 256
  {
    var parts := Split(domain);
    var c := CodesOf(parts);
    var labels := QueryLabels(domain);
    forall k, j | 0 <= k < |labels| && 0 <= j < |labels[k]| ensures 0 <= labels[k][j] < 256 {
      if k >= 2 { assert labels[k][j] == c[k - 2][j] == parts[k - 2][j] as int; }
    }
    forall k | 0 <= k < |labels| ensures 1 <= |labels[k]| < 256 {
      if k >= 2 { assert labels[k] == c[k - 2]; }
    }
  }

  /**
   * The bytes `btoa(String.fromCharCode(...values))` encodes (line 61): `fromCharCode`
   * keeps the low 16 bits of each value, and `btoa` throws unless every resulting
   * character is below 256.
   */
  function Latin1(values: seq<int>): Option<seq<byte>>
  {
    var units := CodeUnits(values);
    if forall k | 0 <= k < |units| :: units[k] < 256 then Some(units) else None
  }

  /** `String.fromCharCode`: each value cut to its low 16 bits. */
  function CodeUnits(values: seq<int>): seq<int>
  {
    seq(|values|, k requires 0 <= k < |values| => values[k] % 0x1_0000)
  }

  /** `btoa` accepts exactly the values whose low 16 bits are below 256, and encodes those bits. */
  lemma Latin1Accepts(values: seq<int>)
    ensures Latin1(values).Some? <==> forall k | 0 <= k < |values| :: values[k] % 0x1_0000 < 256
    ensures Latin1(values).Some? ==>
      |Latin1(values).value| == |values| &&
      forall k | 0 <= k < |values| :: Latin1(values).value[k] == values[k] % 0x1_0000
  {
    var units := CodeUnits(values);
    if forall k | 0 <= k < |values| :: values[k] % 0x1_0000 < 256 {
      assert forall k | 0 <= k < |units| :: units[k] < 256;
    } else {
      var k :| 0 <= k < |values| && values[k] % 0x1_0000 >= 256;
      assert units[k] >= 256;
    }
  }

  /** Values that are already bytes pass through `fromCharCode` and `btoa` unchanged. */
  lemma Latin1OfBytes(values: seq<int>)
    requires forall k | 0 <= k < |values| :: 0 <= values[k] < 256
    ensures Latin1(values) == Some(values)
  {
    assert CodeUnits(values) == values;
  }

  /**
   * A dot-free domain of 65536 characters below 256 is accepted by `btoa`: its length
   * 65536 is cut to 0 by `fromCharCode`, and the query goes out with the length byte 0.
   */
  lemma WrappedLabelLength(domain: string)
    requires DotChar !in domain && |domain| == 0x1_0000
    requires forall k | 0 <= k < |domain| :: domain[k] as int < 256
    ensures QueryBytes(domain)[30] == 0x1_0000
    ensures Latin1(QueryBytes(domain)).Some? && Latin1(QueryBytes(domain)).value[30] == 0
  {
    SplitJoin([domain]);
    assert Split(domain) == [domain];
    var c := Codes(domain);
    assert CodesOf([domain]) == [c];
    assert Wire([c]) == [|c|] + c + Wire([]);
    var q := QueryBytes(domain);
    assert q == DnsHeaderBytes + SrvSubdomainBytes + ([0x1_0000] + c) + [0, 0, SrvRecordId, 0, InternetClass];
    forall k | 0 <= k < |q| ensures q[k] % 0x1_0000 < 256 {
      if 31 <= k < 31 + |c| { assert q[k] == c[k - 31] == domain[k - 31] as int; }
    }
  }

  /**
   * `btoa(String.fromCharCode(...messageBytes))` then the loop of lines 63-65: the
   * unpadded standard encoding of the accepted bytes, or `None` where `btoa` throws.
   */
  method EncodeQuery(messageBytes: seq<int>) returns (r: Option<string>)
    ensures r.Some? <==> Latin1(messageBytes).Some?
    ensures r.Some? ==> r.value == Unpadded(Latin1(messageBytes).value)
    ensures r.Some? ==> Base64.Decode(r.value) == Latin1(messageBytes) && '=' !in r.value
    ensures r.Some? ==> |r.value| == (4 * |messageBytes| + 2) / 3
  {
    var units := CodeUnits(messageBytes);
    if exists k | 0 <= k < |units| :: units[k] >= 256 {
      return None;
    }
    var bytes: seq<byte> := units;
    assert Latin1(messageBytes) == Some(bytes);
    var messageBase64 := TrimPadding(Encode(bytes));
    TrimmedEncode(bytes, messageBase64);
    DecodeUnpadded(bytes);
    UnpaddedLength(bytes);
    UnpaddedAlphabet(bytes);
    return Some(messageBase64);
  }

  /** `r` is `s` with every trailing `=` removed. */
  predicate Trimmed(s: string, r: string)
  {
    |r| <= |s| && r == s[..|r|] && (r == [] || r[|r| - 1] != '=') &&
    forall k | |r| <= k < |s| :: s[k] == '='
  }

  /** `while (s.endsWith('=')) s = s.slice(0, -1)`. */
  method TrimPadding(s: string) returns (r: string)
    ensures Trimmed(s, r)
  {
    r := s;
    while |r| > 0 && r[|r| - 1] == '='
      invariant |r| <= |s| && r == s[..|r|]
      invariant forall k | |r| <= k < |s| :: s[k] == '='
    {
      r := r[..|r| - 1];
    }
  }

  /** Trimming the padded encoding leaves exactly the unpadded one. */
  lemma TrimmedEncode(b: seq<byte>, r: string)
    requires Trimmed(Encode(b), r)
    ensures r == Unpadded(b)
  {
    var u, s := Unpadded(b), Encode(b);
    EncodeChar(b, |u| - 1);
    EncodeChar(b, |r| - 1);
    assert s[..|u|] == u;
  }

  /** The encoding is alphabet characters, which are never `=`, then `=` only. */
  lemma EncodeChar(b: seq<byte>, k: int)
    ensures 0 <= k < |Unpadded(b)| ==> Encode(b)[k] == Unpadded(b)[k] != '='
    ensures |Unpadded(b)| <= k < |Encode(b)| ==> Encode(b)[k] == '='
  {
    UnpaddedAlphabet(b);
  }
}
