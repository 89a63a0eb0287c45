/** The buffers of test/background/dns.test.js and what the model reads from them. */
module Samples {

  import opened Wrappers
  import opened Bytes
  import opened Labels
  import opened Names
  import opened Message
  import opened Query

  const Libravatar: seq<byte> := [108, 105, 98, 114, 97, 118, 97, 116, 97, 114]
  const Org: seq<byte> := [111, 114, 103]
  const Seccdn: seq<byte> := [115, 101, 99, 99, 100, 110]
  const Protonmail: seq<byte> := [112, 114, 111, 116, 111, 110, 109, 97, 105, 108]
  const Com: seq<byte> := [99, 111, 109]

  // The buffers below are the bytes of the test file, grouped field by field.

  /** The labels of `_avatars-sec._tcp.libravatar.org`, each after its length byte. */
  const LibravatarLabels: seq<byte> := [12] + AvatarsSec + ([4] + Tcp + ([10] + Libravatar + ([3] + Org)))

  /** The labels of `_avatars-sec._tcp.protonmail.com`, each after its length byte. */
  const ProtonmailLabelBytes: seq<byte> := [12] + AvatarsSec + ([4] + Tcp + ([10] + Protonmail + ([3] + Com)))

  /** The labels of `seccdn.libravatar.org`, each after its length byte. */
  const SeccdnLabels: seq<byte> := [6] + Seccdn + ([10] + Libravatar + ([3] + Org))

  /** The answer: a pointer to offset 12, SRV, IN, ttl 3600, length 29, priority 0, weight 0, port 443. */
  const LibravatarAnswer: seq<byte> :=
    [192, 12] + ([0, 33] + ([0, 1] + ([0, 0, 14, 16] + ([0, 29] + ([0, 0] + ([0, 0] + ([1, 187] + (SeccdnLabels + [0]))))))))

  /** An SRV response for `_avatars-sec._tcp.libravatar.org` with one answer. */
  const Answered: seq<byte> :=
    [0, 0] + [129, 128] + [0, 1] + [0, 1] + [0, 0] + [0, 0]
    + (LibravatarLabels + [0] + [0, 33] + [0, 1])
    + LibravatarAnswer

  /** The rest of the unanswered response: one authority record (an SOA record). */
  const Authority: seq<byte> := [
    192, 30, 0, 6, 0, 1, 0, 0, 4, 176, 0, 49, 3, 110, 115, 49, 192, 30, 7, 115, 117, 112, 112, 111,
    114, 116, 10, 112, 114, 111, 116, 111, 110, 109, 97, 105, 108, 2, 99, 104, 0, 137, 195, 170, 14, 0,
    0, 4, 176, 0, 0, 0, 144, 0, 27, 175, 128, 0, 0, 28, 32]

  /** A response for `_avatars-sec._tcp.protonmail.com` with no answer and one authority record. */
  const Unanswered: seq<byte> :=
    [0, 0] + [129, 131] + [0, 1] + [0, 0] + [0, 1] + [0, 0]
    + (ProtonmailLabelBytes + [0] + [0, 33] + [0, 1])
    + Authority

  /** Three labels in wire form. */
  lemma Wire3(a: seq<int>, b: seq<int>, c: seq<int>)
    ensures Wire([a, b, c]) == [|a|] + a + ([|b|] + b + ([|c|] + c))
  {
    assert Wire([c]) == [|c|] + c + Wire([]);
    assert [b, c][1..] == [c] && [a, b, c][1..] == [b, c];
  }

  /** Four labels in wire form. */
  lemma Wire4(a: seq<int>, b: seq<int>, c: seq<int>, d: seq<int>)
    ensures Wire([a, b, c, d]) == [|a|] + a + ([|b|] + b + ([|c|] + c + ([|d|] + d)))
  {
    Wire3(b, c, d);
    assert [a, b, c, d][1..] == [b, c, d];
  }

  /** Three labels joined with dots. */
  lemma Join3(a: seq<byte>, b: seq<byte>, c: seq<byte>)
    ensures Join([a, b, c], Dot) == a + [Dot] + (b + [Dot] + c)
  {
    assert [b, c][1..] == [c] && [a, b, c][1..] == [b, c];
    assert Join([c], Dot) == c;
    assert Join([b, c], Dot) == b + [Dot] + c;
  }

  /** Four labels joined with dots. */
  lemma Join4(a: seq<byte>, b: seq<byte>, c: seq<byte>, d: seq<byte>)
    ensures Join([a, b, c, d], Dot) == a + [Dot] + (b + [Dot] + (c + [Dot] + d))
  {
    Join3(b, c, d);
    assert [a, b, c, d][1..] == [b, c, d];
  }

  const QuestionLabels: seq<seq<byte>> := [AvatarsSec, Tcp, Libravatar, Org]
  const TargetLabels: seq<seq<byte>> := [Seccdn, Libravatar, Org]
  const ProtonmailLabels: seq<seq<byte>> := [AvatarsSec, Tcp, Protonmail, Com]

  const AnsweredHeader := Header(0, 33152, 1, 1, 0, 0)
  const AnsweredSrv := SrvAnswer(33, 1, 3600, 29, 0, 0, 443, TargetLabels)
  const UnansweredHeader := Header(0, 33155, 1, 0, 1, 0)

  /** The two-byte fields the samples carry. */
  lemma SampleNumbers()
    ensures ToBigEndian(0, 2) == [0, 0] && ToBigEndian(1, 2) == [0, 1] && ToBigEndian(29, 2) == [0, 29] && ToBigEndian(33, 2) == [0, 33]
    ensures ToBigEndian(443, 2) == [1, 187] && ToBigEndian(33152, 2) == [129, 128] && ToBigEndian(33155, 2) == [129, 131]
    ensures ToBigEndian(3600, 4) == [0, 0, 14, 16]
  {
  }

  /** The answered test buffer is a header, the question and the answer in wire form. */
  lemma AnsweredLayout()
    ensures Answered == HeaderWire(AnsweredHeader) + QuestionWire(QuestionLabels, 33, 1) + AnswerWire(AnsweredSrv) + []
  {
    SampleNumbers();
    Wire4(AvatarsSec, Tcp, Libravatar, Org);
    Wire3(Seccdn, Libravatar, Org);
    assert Wire(QuestionLabels) == LibravatarLabels;
    assert Wire(TargetLabels) == SeccdnLabels;
    assert AnswerWire(AnsweredSrv) == LibravatarAnswer;
    var w := HeaderWire(AnsweredHeader) + QuestionWire(QuestionLabels, 33, 1) + AnswerWire(AnsweredSrv);
    assert w + [] == w;
  }

  /** The question name the answered sample carries, spelled out. */
  lemma AnsweredName()
    ensures Join(QuestionLabels, Dot) == Codes("_avatars-sec._tcp.libravatar.org")
  {
    Join4(AvatarsSec, Tcp, Libravatar, Org);
    LibravatarText();
  }

  /** The bytes of `_avatars-sec._tcp.libravatar.org`, label by label. */
  lemma LibravatarText()
    ensures Codes("_avatars-sec._tcp.libravatar.org") == AvatarsSec + [Dot] + (Tcp + [Dot] + (Libravatar + [Dot] + Org))
  {
  }

  /** The SRV target the answered sample carries, spelled out. */
  lemma AnsweredTarget()
    ensures Join(TargetLabels, Dot) == Codes("seccdn.libravatar.org")
  {
    Join3(Seccdn, Libravatar, Org);
  }

  /** The answered buffer taken apart: the question at 12, the answer at 50. */
  lemma AnsweredParts()
    ensures QuestionFits(QuestionLabels, 33, 1) && AnswerFits(AnsweredSrv)
    ensures var name := Join(QuestionLabels, Dot);
      QuestionOf(Answered, map[]) == Ok(Read(Question(name, 33, 1), 50, map[12 := name]))
    ensures Answered[50..] == AnswerWire(AnsweredSrv)
  {
    AnsweredLayout();
    var qw, aw := QuestionWire(QuestionLabels, 33, 1), AnswerWire(AnsweredSrv);
    Layout(Answered, HeaderWire(AnsweredHeader), qw, aw, []);
    QuestionAt(Answered, QuestionLabels, 33, 1, aw + []);
    assert aw + [] == aw;
    Wire4(AvatarsSec, Tcp, Libravatar, Org);
    assert |Wire(QuestionLabels)| == |LibravatarLabels| == 33;
    SampleNumbers();
    assert |qw| == 38;
  }

  /** The literal question name at 12 reads as `_avatars-sec._tcp.libravatar.org`, ending at 46. */
  lemma LiteralSample()
    ensures var name := Codes("_avatars-sec._tcp.libravatar.org");
      NameAt(Answered, 12, map[]) == Ok(NameRead(name, 46, map[12 := name]))
  {
    AnsweredParts();
    AnsweredName();
  }

  /** The answer starts at 50 with the pointer bytes 0xC0 0x0C. */
  lemma AnsweredPointer()
    ensures |Answered| > 51 && Answered[50] == 192 && Answered[51] == 12
  {
    AnsweredParts();
    assert Answered[50] == AnswerWire(AnsweredSrv)[0] && Answered[51] == AnswerWire(AnsweredSrv)[1];
  }

  /** The pointer at 50 resolves through the memo entry at 12 and ends at 52. */
  lemma PointerSample()
    ensures var name := Codes("_avatars-sec._tcp.libravatar.org");
      NameAt(Answered, 50, map[12 := name]) == Ok(NameRead(name, 52, map[12 := name]))
  {
    AnsweredPointer();
    PointerName(Answered, 50, map[12 := Codes("_avatars-sec._tcp.libravatar.org")]);
  }

  /** The pointer at 50 with an empty memo is malformed. */
  lemma PointerSampleUnknown()
    ensures NameAt(Answered, 50, map[]) == Err(Malformed)
  {
    AnsweredPointer();
    PointerName(Answered, 50, map[]);
  }

  /** The answered response decodes to ttl 3600, port 443 and target `seccdn.libravatar.org`. */
  lemma AnsweredSample()
    ensures var name := Codes("_avatars-sec._tcp.libravatar.org");
      MessageOf(Answered) == Ok(Message(
        Header(0, 33152, 1, 1, 0, 0),
        Question(name, 33, 1),
        Some(ResourceRecord(name, 33, 1, 3600, 29)),
        Some(SrvData(443, Codes("seccdn.libravatar.org")))))
  {
    AnsweredLayout();
    AnsweredName();
    AnsweredTarget();
    DecodeWithAnswer(Answered, AnsweredHeader, QuestionLabels, 33, 1, AnsweredSrv, []);
  }

  /** The unanswered test buffer is a header and the question in wire form, then more. */
  lemma UnansweredLayout()
    ensures Unanswered == HeaderWire(UnansweredHeader) + QuestionWire(ProtonmailLabels, 33, 1) + Authority
  {
    SampleNumbers();
    Wire4(AvatarsSec, Tcp, Protonmail, Com);
    assert Wire(ProtonmailLabels) == ProtonmailLabelBytes;
  }

  /** The name the unanswered sample carries, spelled out. */
  lemma UnansweredName()
    ensures Join(ProtonmailLabels, Dot) == Codes("_avatars-sec._tcp.protonmail.com")
  {
    Join4(AvatarsSec, Tcp, Protonmail, Com);
    ProtonmailText();
  }

  /** The bytes of `_avatars-sec._tcp.protonmail.com`, label by label. */
  lemma ProtonmailText()
    ensures Codes("_avatars-sec._tcp.protonmail.com") == AvatarsSec + [Dot] + (Tcp + [Dot] + (Protonmail + [Dot] + Com))
  {
  }

  /** The unanswered response decodes to no record and no data, despite its authority record. */
  lemma UnansweredSample()
    ensures MessageOf(Unanswered) == Ok(Message(
        Header(0, 33155, 1, 0, 1, 0),
        Question(Codes("_avatars-sec._tcp.protonmail.com"), 33, 1),
        None, None))
  {
    UnansweredLayout();
    UnansweredName();
    DecodeWithoutAnswer(Unanswered, UnansweredHeader, ProtonmailLabels, 33, 1, Authority);
  }
}
