/**
 * A sequential decoder of DNS messages written from RFC 1035, sections 4.1.1 to 4.1.4, and the
 * proof that it reads back everything the server writes. It shares nothing with the server's own
 * parser: labels are at most 63 bytes and compression pointers are followed.
 */
module Rfc1035 {
  import opened Wrappers
  import opened Bytes
  import opened RecordStore
  import opened Wire

  datatype Question = Question(name: seq<Text>, qtype: u16, qclass: u16)
  datatype Record = Record(name: seq<Text>, rtype: u16, rclass: u16, ttl: nat, rdata: seq<byte>)
  datatype Message = Message(
    id: u16, flags: u16,
    questions: seq<Question>, answers: seq<Record>,
    nsCount: u16, arCount: u16,
    trailing: seq<byte>)

  /** Section 2.3.4: a label has between 1 and 63 bytes. */
  predicate ShortLabels(labels: seq<Text>) {
    forall i :: 0 <= i < |labels| ==> 1 <= |labels[i]| <= 63
  }

  /**
   * Section 4.1.4: a name is labels ending in a zero byte or in a pointer to a prior name. A
   * pointer must point before `limit`, the place where the name being read started.
   */
  function DecodeName(msg: seq<byte>, pos: nat, limit: nat): Option<(seq<Text>, nat)>
    decreases limit, |msg| - pos
  {
    if pos >= |msg| then None
    else if msg[pos] == 0 then Some(([], pos + 1))
    else if msg[pos] >= 0xC0 then
      if pos + 1 >= |msg| then None
      else
        var target := (msg[pos] as int - 0xC0) * 256 + msg[pos + 1] as int;
        if target >= limit then None
        else
          var r := DecodeName(msg, target, target);
          if r.None? then None else Some((r.value.0, pos + 2))
    else if msg[pos] >= 0x40 then None
    else
      var next := pos + 1 + msg[pos] as int;
      if next > |msg| then None
      else Prepend([msg[pos + 1..next]], DecodeName(msg, next, limit))
  }

  /** Section 4.1.2. */
  function DecodeQuestions(msg: seq<byte>, pos: nat, count: nat): Option<(seq<Question>, nat)>
    decreases count
  {
    if count == 0 then Some(([], pos))
    else
      var name := DecodeName(msg, pos, pos);
      if name.None? || name.value.1 + 4 > |msg| then None
      else
        var at := name.value.1;
        var q := Question(name.value.0, U16(msg[at], msg[at + 1]), U16(msg[at + 2], msg[at + 3]));
        var rest := DecodeQuestions(msg, at + 4, count - 1);
        if rest.None? then None else Some(([q] + rest.value.0, rest.value.1))
  }

  /** Section 4.1.3. */
  function DecodeRecord(msg: seq<byte>, pos: nat): Option<(Record, nat)> {
    var name := DecodeName(msg, pos, pos);
    if name.None? || name.value.1 + 10 > |msg| then None
    else
      var at := name.value.1;
      var end := at + 10 + U16(msg[at + 8], msg[at + 9]);
      if end > |msg| then None
      else
        var ttl := U16(msg[at + 4], msg[at + 5]) * 0x1_0000 + U16(msg[at + 6], msg[at + 7]);
        Some((Record(name.value.0, U16(msg[at], msg[at + 1]), U16(msg[at + 2], msg[at + 3]), ttl,
                     msg[at + 10..end]), end))
  }

  function DecodeRecords(msg: seq<byte>, pos: nat, count: nat): Option<(seq<Record>, nat)>
    decreases count
  {
    if count == 0 then Some(([], pos))
    else
      var first := DecodeRecord(msg, pos);
      if first.None? then None
      else
        var rest := DecodeRecords(msg, first.value.1, count - 1);
        if rest.None? then None else Some(([first.value.0] + rest.value.0, rest.value.1))
  }

  /** Section 4.1.1, then questions and answers. The server never writes the later sections. */
  function DecodeMessage(msg: seq<byte>): Option<Message> {
    if |msg| < 12 then None
    else
      var qs := DecodeQuestions(msg, 12, U16(msg[4], msg[5]));
      if qs.None? then None
      else
        var rs := DecodeRecords(msg, qs.value.1, U16(msg[6], msg[7]));
        if rs.None? || rs.value.1 > |msg| then None
        else Some(Message(U16(msg[0], msg[1]), U16(msg[2], msg[3]), qs.value.0, rs.value.0,
                          U16(msg[8], msg[9]), U16(msg[10], msg[11]), msg[rs.value.1..]))
  }

  function Rcode(flags: u16): nat {
    flags % 16
  }

  /** The QR and AA bits, with opcode 0, no truncation, and RA. */
  predicate IsAuthoritativeResponse(flags: u16) {
    flags / 0x8000 == 1 && (flags / 0x800) % 16 == 0 && (flags / 0x400) % 2 == 1 &&
    (flags / 0x200) % 2 == 0 && (flags / 0x80) % 2 == 1
  }

  /** The address an A or AAAA record carries (RFC 3596, section 2.2, for AAAA). */
  function AddressOf(r: Record): Option<Ip> {
    if r.rtype == 1 && r.rclass == 1 && |r.rdata| == 4 then Some(V4(r.rdata))
    else if r.rtype == 28 && r.rclass == 1 && |r.rdata| == 16 then Some(V6(r.rdata))
    else None
  }

  // ---- Reading back what the server writes ----

  predicate NameAt(msg: seq<byte>, pos: nat, labels: seq<Text>) {
    pos + |EncodeName(labels)| <= |msg| && msg[pos..pos + |EncodeName(labels)|] == EncodeName(labels)
  }

  lemma DecodeLabelStep(msg: seq<byte>, pos: nat, limit: nat, text: Text)
    requires 1 <= |text| <= 63 && pos + 1 + |text| <= |msg|
    requires msg[pos] as int == |text| && msg[pos + 1..pos + 1 + |text|] == text
    ensures DecodeName(msg, pos, limit) == Prepend([text], DecodeName(msg, pos + 1 + |text|, limit))
  {
  }

  lemma DecodeRootStep(msg: seq<byte>, pos: nat, limit: nat)
    requires pos < |msg| && msg[pos] == 0
    ensures DecodeName(msg, pos, limit) == Some(([], pos + 1))
  {
  }

  lemma {:induction false} DecodePlainName(msg: seq<byte>, pos: nat, labels: seq<Text>, limit: nat)
    requires NameAt(msg, pos, labels) && ShortLabels(labels)
    ensures DecodeName(msg, pos, limit) == Some((labels, pos + |EncodeName(labels)|))
    decreases |labels|
  {
    hide DecodeName;
    if labels == [] {
      assert msg[pos..pos + 1][0] == 0;
      DecodeRootStep(msg, pos, limit);
    } else {
      FirstLabelAt(msg, pos, labels);
      DecodeLabelStep(msg, pos, limit, labels[0]);
      DecodePlainName(msg, pos + 1 + |labels[0]|, labels[1..], limit);
      assert [labels[0]] + labels[1..] == labels;
    }
  }

  /** The record the server means to send for an address. */
  function RecordFor(labels: seq<Text>, ip: Ip): Record {
    Record(labels, TypeOf(ip), 1, 60, Octets(ip))
  }

  function RecordsFor(labels: seq<Text>, ips: seq<Ip>): seq<Record> {
    if ips == [] then [] else [RecordFor(labels, ips[0])] + RecordsFor(labels, ips[1..])
  }

  predicate WireAt(msg: seq<byte>, pos: nat, wire: seq<byte>) {
    pos + |wire| <= |msg| && msg[pos..pos + |wire|] == wire
  }

  lemma WireByte(msg: seq<byte>, pos: nat, wire: seq<byte>, i: nat)
    requires WireAt(msg, pos, wire) && i < |wire|
    ensures msg[pos + i] == wire[i]
  {
    assert msg[pos..pos + |wire|][i] == wire[i];
  }

  lemma DecodePointer(msg: seq<byte>, pos: nat, labels: seq<Text>)
    requires 12 < pos && pos + 2 <= |msg| && msg[pos] == 0xC0 && msg[pos + 1] == 0x0C
    requires NameAt(msg, 12, labels) && ShortLabels(labels)
    ensures DecodeName(msg, pos, pos) == Some((labels, pos + 2))
  {
    DecodePlainName(msg, 12, labels, 12);
  }

  lemma AnswerAt(msg: seq<byte>, pos: nat, ip: Ip)
    requires WireAt(msg, pos, AnswerWire(ip))
    ensures pos + 12 <= |msg|
    ensures msg[pos] == 0xC0 && msg[pos + 1] == 0x0C
    ensures U16(msg[pos + 2], msg[pos + 3]) == TypeOf(ip)
    ensures U16(msg[pos + 4], msg[pos + 5]) == 1
    ensures U16(msg[pos + 6], msg[pos + 7]) == 0 && U16(msg[pos + 8], msg[pos + 9]) == 60
    ensures U16(msg[pos + 10], msg[pos + 11]) == |Octets(ip)|
    ensures msg[pos + 12..pos + |AnswerWire(ip)|] == Octets(ip)
  {
    hide Hi, Lo;
    var wire, head := AnswerWire(ip), AnswerHead(ip);
    var slice := msg[pos..pos + |wire|];
    assert forall i :: 0 <= i < 12 ==> slice[i] == head[i];
    assert msg[pos] == slice[0] && msg[pos + 1] == slice[1];
    assert msg[pos + 2] == slice[2] && msg[pos + 3] == slice[3];
    assert msg[pos + 4] == slice[4] && msg[pos + 5] == slice[5];
    assert msg[pos + 6] == slice[6] && msg[pos + 7] == slice[7];
    assert msg[pos + 8] == slice[8] && msg[pos + 9] == slice[9];
    assert msg[pos + 10] == slice[10] && msg[pos + 11] == slice[11];
    SliceOfSlice(msg, pos, pos + |wire|, 12, |wire|);
    assert wire[12..] == Octets(ip);
    BigEndian(TypeOf(ip));
    BigEndian(|Octets(ip)|);
  }

  lemma DecodeAnswer(msg: seq<byte>, pos: nat, labels: seq<Text>, ip: Ip)
    requires 12 < pos && NameAt(msg, 12, labels) && ShortLabels(labels)
    requires WireAt(msg, pos, AnswerWire(ip))
    ensures DecodeRecord(msg, pos) == Some((RecordFor(labels, ip), pos + |AnswerWire(ip)|))
  {
    hide DecodeName, EncodeName, U16;
    AnswerAt(msg, pos, ip);
    DecodePointer(msg, pos, labels);
  }

  lemma DecodeRecordsStep(
    msg: seq<byte>, pos: nat, count: nat, r: Record, next: nat, rs: seq<Record>, end: nat)
    requires count > 0
    ensures DecodeRecord(msg, pos) == Some((r, next)) && DecodeRecords(msg, next, count - 1) == Some((rs, end)) ==>
              DecodeRecords(msg, pos, count) == Some(([r] + rs, end))
  {
    hide DecodeRecord;
  }

  lemma DecodeNoRecords(msg: seq<byte>, pos: nat)
    ensures DecodeRecords(msg, pos, 0) == Some(([], pos))
  {
  }

  lemma FirstAnswerAt(msg: seq<byte>, pos: nat, ips: seq<Ip>)
    requires pos <= |msg| && ips != [] && msg[pos..] == AnswersWire(ips)
    ensures WireAt(msg, pos, AnswerWire(ips[0]))
    ensures msg[pos + |AnswerWire(ips[0])|..] == AnswersWire(ips[1..])
  {
    var wire := AnswerWire(ips[0]);
    assert AnswersWire(ips) == wire + AnswersWire(ips[1..]);
    assert msg[pos..pos + |wire|] == msg[pos..][..|wire|] == wire;
    assert msg[pos + |wire|..] == msg[pos..][|wire|..] == AnswersWire(ips[1..]);
  }

  lemma {:induction false} DecodeAnswers(msg: seq<byte>, pos: nat, labels: seq<Text>, ips: seq<Ip>, count: nat)
    requires 12 < pos <= |msg| && NameAt(msg, 12, labels) && ShortLabels(labels)
    requires msg[pos..] == AnswersWire(ips)
    requires count <= |ips|
    ensures |AnswersWire(ips[count..])| <= |msg| - pos
    ensures DecodeRecords(msg, pos, count) ==
            Some((RecordsFor(labels, ips[..count]), |msg| - |AnswersWire(ips[count..])|))
    ensures msg[|msg| - |AnswersWire(ips[count..])|..] == AnswersWire(ips[count..])
    decreases count
  {
    hide DecodeRecord, DecodeRecords, AnswerWire, EncodeName;
    if count == 0 {
      assert ips[0..] == ips;
      DecodeNoRecords(msg, pos);
    } else {
      FirstAnswerAt(msg, pos, ips);
      var next := pos + |AnswerWire(ips[0])|;
      DecodeAnswer(msg, pos, labels, ips[0]);
      DecodeAnswers(msg, next, labels, ips[1..], count - 1);
      assert ips[1..][count - 1..] == ips[count..];
      var rs := RecordsFor(labels, ips[1..][..count - 1]);
      DecodeRecordsStep(msg, pos, count, RecordFor(labels, ips[0]), next, rs,
                        |msg| - |AnswersWire(ips[count..])|);
      assert ips[..count][1..] == ips[1..][..count - 1];
    }
  }

  function QuestionWire(q: Question): (wire: seq<byte>)
    ensures |wire| == |EncodeName(q.name)| + 4
  {
    EncodeName(q.name) + [Hi(q.qtype), Lo(q.qtype), Hi(q.qclass), Lo(q.qclass)]
  }

  lemma DecodeOneQuestion(msg: seq<byte>, q: Question)
    requires WireAt(msg, 12, QuestionWire(q)) && ShortLabels(q.name)
    ensures NameAt(msg, 12, q.name)
    ensures DecodeQuestions(msg, 12, 1) == Some(([q], 12 + |QuestionWire(q)|))
  {
    hide DecodeName, EncodeName;
    var wire := QuestionWire(q);
    var n := |EncodeName(q.name)|;
    SliceOfSlice(msg, 12, 12 + |wire|, 0, n);
    assert wire[..n] == EncodeName(q.name);
    DecodePlainName(msg, 12, q.name, 12);
    WireByte(msg, 12, wire, n);
    WireByte(msg, 12, wire, n + 1);
    WireByte(msg, 12, wire, n + 2);
    WireByte(msg, 12, wire, n + 3);
    assert wire[n] == Hi(q.qtype) && wire[n + 1] == Lo(q.qtype);
    assert wire[n + 2] == Hi(q.qclass) && wire[n + 3] == Lo(q.qclass);
    BigEndian(q.qtype);
    BigEndian(q.qclass);
    assert DecodeQuestions(msg, 12 + n + 4, 0) == Some(([], 12 + n + 4));
    assert [q] + [] == [q];
  }

  lemma HeaderFields(id: u16, flags: u16, anCount: u16, rest: seq<byte>)
    ensures var msg := HeaderWire(id, flags, anCount) + rest;
            && U16(msg[0], msg[1]) == id && U16(msg[2], msg[3]) == flags
            && U16(msg[4], msg[5]) == 1 && U16(msg[6], msg[7]) == anCount
            && U16(msg[8], msg[9]) == 0 && U16(msg[10], msg[11]) == 0
  {
    hide Hi, Lo;
    var header := HeaderWire(id, flags, anCount);
    var msg := header + rest;
    assert forall i :: 0 <= i < 12 ==> msg[i] == header[i];
    BigEndian(id);
    BigEndian(flags);
    BigEndian(anCount);
  }

  /** Putting the sections together. */
  lemma DecodeSections(msg: seq<byte>, q: Question, pos: nat, rs: seq<Record>, end: nat)
    requires end <= |msg| && |msg| >= 12
    ensures U16(msg[4], msg[5]) == 1 && DecodeQuestions(msg, 12, 1) == Some(([q], pos)) &&
            DecodeRecords(msg, pos, U16(msg[6], msg[7])) == Some((rs, end)) ==>
              DecodeMessage(msg) ==
              Some(Message(U16(msg[0], msg[1]), U16(msg[2], msg[3]), [q], rs,
                           U16(msg[8], msg[9]), U16(msg[10], msg[11]), msg[end..]))
  {
    hide DecodeQuestions, DecodeRecords, U16;
  }

  lemma ResponseLayout(header: seq<byte>, wire: seq<byte>, answers: seq<byte>)
    requires |header| == 12
    ensures var msg := header + wire + answers;
            && msg == header + (wire + answers)
            && msg[12..12 + |wire|] == wire && msg[12 + |wire|..] == answers
  {
    var msg := header + wire + answers;
    assert msg == header + (wire + answers);
    assert msg[12..12 + |wire|] == wire;
    assert msg[12 + |wire|..] == answers;
  }

  /**
   * Decoding a response gives back its id, its flags, the question with its letter case, and one
   * record per answer announced by the 16-bit count, each with the question's name, in order.
   */
  lemma DecodeResponse(id: u16, q: Question, ips: seq<Ip>)
    requires ShortLabels(q.name)
    ensures var answers := Matching(q.qtype, ips);
            var announced := |answers| % 0x1_0000;
            DecodeMessage(Response(id, QuestionWire(q), q.qtype, ips)) ==
            Some(Message(id, ResponseFlags(ips), [q], RecordsFor(q.name, answers[..announced]), 0, 0,
                         AnswersWire(answers[announced..])))
  {
    hide DecodeMessage, DecodeRecords, DecodeQuestions, QuestionWire, AnswersWire, Matching, RecordsFor,
      HeaderWire, ResponseFlags, U16, EncodeName;
    var answers := Matching(q.qtype, ips);
    var announced := |answers| % 0x1_0000;
    var header := HeaderWire(id, ResponseFlags(ips), announced);
    var wire := QuestionWire(q);
    var msg := header + wire + AnswersWire(answers);
    var pos := 12 + |wire|;
    ResponseLayout(header, wire, AnswersWire(answers));
    HeaderFields(id, ResponseFlags(ips), announced, wire + AnswersWire(answers));
    DecodeOneQuestion(msg, q);
    DecodeAnswers(msg, pos, q.name, answers, announced);
    DecodeSections(msg, q, pos, RecordsFor(q.name, answers[..announced]),
                   |msg| - |AnswersWire(answers[announced..])|);
  }

  /** Below 65536 answers the count is exact and nothing is left over. */
  lemma DecodeWholeResponse(id: u16, q: Question, ips: seq<Ip>)
    requires ShortLabels(q.name)
    requires |Matching(q.qtype, ips)| < 0x1_0000
    ensures DecodeMessage(Response(id, QuestionWire(q), q.qtype, ips)) ==
            Some(Message(id, ResponseFlags(ips), [q], RecordsFor(q.name, Matching(q.qtype, ips)), 0, 0, []))
  {
    hide DecodeMessage, Response, Matching, RecordsFor, QuestionWire, ResponseFlags;
    var answers := Matching(q.qtype, ips);
    DecodeResponse(id, q, ips);
    assert answers[..|answers|] == answers && answers[|answers|..] == [];
  }

  lemma {:induction false} RecordsLength(labels: seq<Text>, ips: seq<Ip>)
    ensures |RecordsFor(labels, ips)| == |ips|
  {
    if ips != [] {
      RecordsLength(labels, ips[1..]);
    }
  }

  /** Every answer is read back if and only if there are fewer than 65536 of them. */
  lemma AllAnswersDecoded(id: u16, q: Question, ips: seq<Ip>)
    requires ShortLabels(q.name)
    ensures var answers := Matching(q.qtype, ips);
            var m := DecodeMessage(Response(id, QuestionWire(q), q.qtype, ips));
            && m.Some?
            && (m.value.answers == RecordsFor(q.name, answers) <==> |answers| < 0x1_0000)
            && (m.value.trailing == [] <==> |answers| < 0x1_0000)
  {
    hide DecodeMessage, Response, Matching, RecordsFor, QuestionWire, ResponseFlags, AnswersWire;
    var answers := Matching(q.qtype, ips);
    var announced := |answers| % 0x1_0000;
    DecodeResponse(id, q, ips);
    RecordsLength(q.name, answers);
    RecordsLength(q.name, answers[..announced]);
    AnswersLength(answers[announced..]);
    assert |answers| < 0x1_0000 <==> announced == |answers|;
    if announced == |answers| {
      assert answers[..announced] == answers && answers[announced..] == [];
    }
  }

  /** The records carry exactly the addresses, in order. */
  lemma {:induction false} RecordAddresses(labels: seq<Text>, ips: seq<Ip>)
    ensures |RecordsFor(labels, ips)| == |ips|
    ensures forall i :: 0 <= i < |ips| ==>
              && AddressOf(RecordsFor(labels, ips)[i]) == Some(ips[i])
              && RecordsFor(labels, ips)[i].rtype == (if ips[i].V4? then 1 else 28)
              && RecordsFor(labels, ips)[i].name == labels
              && RecordsFor(labels, ips)[i].ttl == 60
  {
    if ips != [] {
      RecordAddresses(labels, ips[1..]);
    }
  }

  lemma {:induction false} DecodedLabelsShort(msg: seq<byte>, pos: nat, limit: nat)
    ensures var r := DecodeName(msg, pos, limit); r.Some? ==> ShortLabels(r.value.0)
    decreases limit, |msg| - pos
  {
    if pos < |msg| && msg[pos] != 0 {
      if msg[pos] >= 0xC0 && pos + 1 < |msg| {
        var target := (msg[pos] as int - 0xC0) * 256 + msg[pos + 1] as int;
        if target < limit {
          DecodedLabelsShort(msg, target, target);
        }
      } else if msg[pos] < 0x40 && pos + 1 + msg[pos] as int <= |msg| {
        DecodedLabelsShort(msg, pos + 1 + msg[pos] as int, limit);
      }
    }
  }

  /**
   * The 63-byte bound is what a conforming reader needs, no less: whatever the server echoes, a
   * decoded question name equals the parsed labels only if they all have at most 63 bytes.
   */
  lemma LongLabelsDoNotDecode(msg: seq<byte>, labels: seq<Text>)
    requires NameAt(msg, 12, labels) && PlainLabels(labels)
    ensures DecodeName(msg, 12, 12) == Some((labels, 12 + |EncodeName(labels)|)) <==> ShortLabels(labels)
  {
    if ShortLabels(labels) {
      DecodePlainName(msg, 12, labels, 12);
    }
    DecodedLabelsShort(msg, 12, 12);
  }

  lemma DecodedQuestionShort(msg: seq<byte>)
    ensures var m := DecodeMessage(msg);
            m.Some? ==> forall i :: 0 <= i < |m.value.questions| ==> ShortLabels(m.value.questions[i].name)
  {
    if |msg| >= 12 {
      DecodedQuestionsShort(msg, 12, U16(msg[4], msg[5]));
    }
  }

  lemma {:induction false} DecodedQuestionsShort(msg: seq<byte>, pos: nat, count: nat)
    ensures var r := DecodeQuestions(msg, pos, count);
            r.Some? ==> forall i :: 0 <= i < |r.value.0| ==> ShortLabels(r.value.0[i].name)
    decreases count
  {
    if count > 0 {
      hide DecodeName;
      DecodedLabelsShort(msg, pos, pos);
      var name := DecodeName(msg, pos, pos);
      if name.Some? {
        DecodedQuestionsShort(msg, name.value.1 + 4, count - 1);
      }
    }
  }
}
