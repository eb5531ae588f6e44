/**
 * The DNS server's own wire code: the question parser and the response builder.
 */
module Wire {
  import opened Wrappers
  import opened Bytes
  import opened RecordStore

  // ---- Questions ----

  /** Labels on the wire: each one behind its length byte, then the root's zero byte. */
  function EncodeName(labels: seq<Text>): (wire: seq<byte>)
    ensures |wire| > 0
  {
    if labels == [] then [0]
    else [(|labels[0]| % 256) as byte] + labels[0] + EncodeName(labels[1..])
  }

  /** Labels that a length byte can announce and `from_utf8` accepts. */
  predicate PlainLabels(labels: seq<Text>) {
    forall i :: 0 <= i < |labels| ==> 1 <= |labels[i]| <= 255 && ValidUtf8(labels[i])
  }

  /** `data[offset..end]` is a question: a name followed by four bytes of type and class. */
  predicate QuestionAt(data: seq<byte>, offset: nat, labels: seq<Text>, end: nat) {
    && PlainLabels(labels)
    && offset + |EncodeName(labels)| + 4 == end <= |data|
    && data[offset..end - 4] == EncodeName(labels)
  }

  /** What the label loop collects from `offset` on, and the offset behind the zero byte. */
  function ParseLabels(data: seq<byte>, offset: nat): (r: Option<(seq<Text>, nat)>)
    ensures r.Some? ==> offset < r.value.1 <= |data|
    decreases |data| - offset
  {
    if offset >= |data| then None
    else
      var next := offset + 1 + data[offset] as int;
      if data[offset] == 0 then Some(([], next))
      else if next > |data| || !ValidUtf8(data[offset + 1..next]) then None
      else
        match ParseLabels(data, next)
        case None => None
        case Some(rest) => Some(([data[offset + 1..next]] + rest.0, rest.1))
  }

  /** Name, type and end offset of the question at `offset`. */
  function ParsedQuestion(data: seq<byte>, offset: nat): (r: Option<(Text, u16, nat)>)
    ensures r.Some? ==> offset + 5 <= r.value.2 <= |data|
  {
    match ParseLabels(data, offset)
    case None => None
    case Some(labels) =>
      var at := labels.1;
      if at + 4 > |data| then None
      else Some((Join(labels.0), U16(data[at], data[at + 1]), at + 4))
  }

  lemma SliceCut(data: seq<byte>, offset: nat, next: nat, end: nat)
    requires offset < next <= end <= |data|
    ensures data[offset..end] == [data[offset]] + data[offset + 1..next] + data[next..end]
  {
  }

  lemma {:induction false} LabelsSound(data: seq<byte>, offset: nat)
    requires ParseLabels(data, offset).Some?
    ensures var (labels, end) := ParseLabels(data, offset).value;
            && PlainLabels(labels)
            && offset + |EncodeName(labels)| == end <= |data|
            && data[offset..end] == EncodeName(labels)
    decreases |data| - offset
  {
    hide ValidUtf8;
    var next := offset + 1 + data[offset] as int;
    if data[offset] != 0 {
      LabelsSound(data, next);
      var rest := ParseLabels(data, next).value;
      var labels := [data[offset + 1..next]] + rest.0;
      assert ParseLabels(data, offset) == Some((labels, rest.1));
      assert labels[1..] == rest.0;
      SliceCut(data, offset, next, rest.1);
      assert EncodeName(labels) == [data[offset]] + labels[0] + EncodeName(rest.0);
    }
  }

  lemma SliceParts(data: seq<byte>, offset: nat, b: byte, text: Text, rest: seq<byte>)
    requires var end := offset + 1 + |text| + |rest|;
             end <= |data| && data[offset..end] == [b] + text + rest
    ensures var next := offset + 1 + |text|;
            data[offset] == b && data[offset + 1..next] == text && data[next..next + |rest|] == rest
  {
    var n, end := 1 + |text|, offset + 1 + |text| + |rest|;
    var slice := data[offset..end];
    assert slice[0] == b && slice[1..n] == text && slice[n..|slice|] == rest;
    SliceOfSlice(data, offset, end, 1, n);
    SliceOfSlice(data, offset, end, n, |slice|);
  }

  /** Where the first label and the rest of an encoded name lie in the message. */
  lemma FirstLabelAt(data: seq<byte>, offset: nat, labels: seq<Text>)
    requires labels != [] && 1 <= |labels[0]| <= 255
    requires offset + |EncodeName(labels)| <= |data|
    requires data[offset..offset + |EncodeName(labels)|] == EncodeName(labels)
    ensures var next := offset + 1 + |labels[0]|;
            var rest := EncodeName(labels[1..]);
            && next + |rest| == offset + |EncodeName(labels)|
            && data[offset] as int == |labels[0]|
            && data[offset + 1..next] == labels[0]
            && data[next..next + |rest|] == rest
  {
    SliceParts(data, offset, (|labels[0]| % 256) as byte, labels[0], EncodeName(labels[1..]));
  }

  lemma {:induction false} LabelsComplete(data: seq<byte>, offset: nat, labels: seq<Text>)
    requires PlainLabels(labels)
    requires offset + |EncodeName(labels)| <= |data|
    requires data[offset..offset + |EncodeName(labels)|] == EncodeName(labels)
    ensures ParseLabels(data, offset) == Some((labels, offset + |EncodeName(labels)|))
    decreases |labels|
  {
    if labels == [] {
      assert data[offset..offset + 1][0] == 0;
    } else {
      FirstLabelAt(data, offset, labels);
      LabelsComplete(data, offset + 1 + |labels[0]|, labels[1..]);
      assert [labels[0]] + labels[1..] == labels;
    }
  }

  /**
   * The parser is exact: it succeeds just when a question starts at the offset, and then returns
   * the labels joined by dots, the type, and the end of precisely those bytes.
   */
  lemma ParseExact(data: seq<byte>, offset: nat)
    ensures ParsedQuestion(data, offset).Some? <==>
              exists labels, end :: QuestionAt(data, offset, labels, end)
    ensures ParsedQuestion(data, offset).Some? ==>
              var (name, qtype, end) := ParsedQuestion(data, offset).value;
              end <= |data| && offset + 5 <= end && qtype == U16(data[end - 4], data[end - 3]) &&
              exists labels :: QuestionAt(data, offset, labels, end) && name == Join(labels)
  {
    if ParsedQuestion(data, offset).Some? {
      LabelsSound(data, offset);
      var (labels, at) := ParseLabels(data, offset).value;
      assert QuestionAt(data, offset, labels, at + 4);
    }
    forall labels, end | QuestionAt(data, offset, labels, end)
      ensures ParsedQuestion(data, offset).Some?
    {
      ParseEncoded(data, offset, labels, end);
    }
  }

  /** Any encoded label list, with anything behind it, parses back to itself. */
  lemma ParseEncoded(data: seq<byte>, offset: nat, labels: seq<Text>, end: nat)
    requires QuestionAt(data, offset, labels, end)
    ensures ParsedQuestion(data, offset) ==
            Some((Join(labels), U16(data[end - 4], data[end - 3]), end))
    ensures ParseLabels(data, offset) == Some((labels, end - 4))
  {
    LabelsComplete(data, offset, labels);
  }

  /** Labels already collected, put before what the rest of the message yields. */
  function Prepend(labels: seq<Text>, rest: Option<(seq<Text>, nat)>): Option<(seq<Text>, nat)> {
    if rest.None? then None else Some((labels + rest.value.0, rest.value.1))
  }

  lemma PrependStep(data: seq<byte>, offset: nat, labels: seq<Text>, next: nat)
    requires offset < |data| && data[offset] != 0 && next == offset + 1 + data[offset] as int <= |data|
    requires ValidUtf8(data[offset + 1..next])
    ensures Prepend(labels, ParseLabels(data, offset)) ==
            Prepend(labels + [data[offset + 1..next]], ParseLabels(data, next))
  {
    var text := data[offset + 1..next];
    var rest := ParseLabels(data, next);
    if rest.Some? {
      assert labels + ([text] + rest.value.0) == (labels + [text]) + rest.value.0;
    }
  }

  method ParseQuestion(data: seq<byte>, start: nat) returns (r: Option<(Text, u16, nat)>)
    ensures r == ParsedQuestion(data, start)
  {
    hide ValidUtf8, Join, U16;
    var offset := start;
    var labels: seq<Text> := [];
    assert forall ls: seq<Text> :: [] + ls == ls;
    while true
      invariant ParseLabels(data, start) == Prepend(labels, ParseLabels(data, offset))
      decreases |data| - offset
    {
      if offset >= |data| {
        return None;
      }
      var labelLen := data[offset] as nat;
      offset := offset + 1;
      if labelLen == 0 {
        assert labels + [] == labels;
        assert ParseLabels(data, start) == Some((labels, offset));
        break;
      }
      if offset + labelLen > |data| {
        return None;
      }
      var text := data[offset..offset + labelLen];
      if !ValidUtf8(text) {
        return None;
      }
      PrependStep(data, offset - 1, labels, offset + labelLen);
      labels := labels + [text];
      offset := offset + labelLen;
    }
    if offset + 4 > |data| {
      return None;
    }
    var qtype := U16(data[offset], data[offset + 1]);
    offset := offset + 4;
    return Some((Join(labels), qtype, offset));
  }

  // ---- Responses ----

  const TYPE_A: u16 := 1
  const TYPE_AAAA: u16 := 28
  const TYPE_ANY: u16 := 255

  /** The addresses a question of this type asks for. */
  predicate Matches(qtype: u16, ip: Ip) {
    (qtype == TYPE_A && ip.V4?) || (qtype == TYPE_AAAA && ip.V6?) || qtype == TYPE_ANY
  }

  function Matching(qtype: u16, ips: seq<Ip>): seq<Ip> {
    if ips == [] then []
    else (if Matches(qtype, ips[0]) then [ips[0]] else []) + Matching(qtype, ips[1..])
  }

  function TypeOf(ip: Ip): u16 {
    if ip.V4? then TYPE_A else TYPE_AAAA
  }

  function Octets(ip: Ip): (octets: seq<byte>)
    ensures |octets| == if ip.V4? then 4 else 16
  {
    if ip.V4? then ip.v4 else ip.v6
  }

  /** The fixed part of an answer: a pointer to offset 12, type, class IN, 60 seconds, length. */
  function AnswerHead(ip: Ip): (head: seq<byte>)
    ensures |head| == 12
  {
    var len := |Octets(ip)|;
    [0xC0, 0x0C, Hi(TypeOf(ip)), Lo(TypeOf(ip)), 0, 1, 0, 0, 0, 60, Hi(len), Lo(len)]
  }

  function AnswerWire(ip: Ip): seq<byte> {
    AnswerHead(ip) + Octets(ip)
  }

  function AnswersWire(ips: seq<Ip>): seq<byte> {
    if ips == [] then [] else AnswerWire(ips[0]) + AnswersWire(ips[1..])
  }

  /** Response, authoritative and recursion available, with NXDOMAIN when nothing resolved. */
  function ResponseFlags(ips: seq<Ip>): u16 {
    0x8480 + if ips == [] then 3 else 0
  }

  function HeaderWire(id: u16, flags: u16, anCount: u16): (header: seq<byte>)
    ensures |header| == 12
  {
    [Hi(id), Lo(id), Hi(flags), Lo(flags), 0, 1, Hi(anCount), Lo(anCount), 0, 0, 0, 0]
  }

  function Response(id: u16, question: seq<byte>, qtype: u16, ips: seq<Ip>): seq<byte> {
    var matching := Matching(qtype, ips);
    HeaderWire(id, ResponseFlags(ips), |matching| % 0x1_0000) + question + AnswersWire(matching)
  }

  /**
   * The filter keeps the addresses of the queried family (RFC 1035, sections 3.2.2 and 3.2.3, and
   * RFC 3596, section 2.1: 1 for A, 28 for AAAA, 255 for all), each as often as it is there and in
   * order: `at` lists their places in the input, ascending and complete.
   */
  lemma {:induction false} MatchingSpec(qtype: u16, ips: seq<Ip>) returns (at: seq<nat>)
    ensures |at| == |Matching(qtype, ips)| <= |ips|
    ensures forall i :: 0 <= i < |at| ==> at[i] < |ips| && Matching(qtype, ips)[i] == ips[at[i]]
    ensures forall i, j :: 0 <= i < j < |at| ==> at[i] < at[j]
    ensures forall k: nat :: k in at <==>
              k < |ips| && (qtype == 255 || (qtype == 1 && ips[k].V4?) || (qtype == 28 && ips[k].V6?))
  {
    at := [];
    if ips != [] {
      var n := |ips| - 1;
      var init, last := ips[..n], ips[n];
      assert ips == init + [last];
      at := MatchingSpec(qtype, init);
      MatchingAppend(qtype, init, last);
      if Matches(qtype, last) {
        at := at + [n];
      }
    }
  }

  lemma {:induction false} MatchingAppend(qtype: u16, ips: seq<Ip>, ip: Ip)
    ensures Matching(qtype, ips + [ip]) ==
            Matching(qtype, ips) + if Matches(qtype, ip) then [ip] else []
  {
    if ips != [] {
      assert (ips + [ip])[1..] == ips[1..] + [ip];
      MatchingAppend(qtype, ips[1..], ip);
    }
  }

  lemma {:induction false} AnswersAppend(ips: seq<Ip>, ip: Ip)
    ensures AnswersWire(ips + [ip]) == AnswersWire(ips) + AnswerWire(ip)
  {
    if ips != [] {
      assert (ips + [ip])[1..] == ips[1..] + [ip];
      AnswersAppend(ips[1..], ip);
    } else {
      assert ips + [ip] == [ip];
    }
  }

  function CountV4(ips: seq<Ip>): nat {
    if ips == [] then 0 else (if ips[0].V4? then 1 else 0) + CountV4(ips[1..])
  }

  lemma {:induction false} AnswersLength(ips: seq<Ip>)
    ensures CountV4(ips) <= |ips|
    ensures |AnswersWire(ips)| == 16 * CountV4(ips) + 28 * (|ips| - CountV4(ips))
  {
    if ips != [] {
      AnswersLength(ips[1..]);
    }
  }

  /** A response is as long as the question's end plus 16 bytes an A and 28 an AAAA answer. */
  lemma ResponseLength(id: u16, original: seq<byte>, questionEnd: nat, qtype: u16, ips: seq<Ip>)
    requires 12 <= questionEnd <= |original|
    ensures var answers := Matching(qtype, ips);
            |Response(id, original[12..questionEnd], qtype, ips)| ==
            questionEnd + 16 * CountV4(answers) + 28 * (|answers| - CountV4(answers))
  {
    AnswersLength(Matching(qtype, ips));
  }

  method MatchingAddresses(qtype: u16, ips: seq<Ip>) returns (matching: seq<Ip>)
    ensures matching == Matching(qtype, ips)
  {
    matching := [];
    for i := 0 to |ips|
      invariant matching == Matching(qtype, ips[..i])
    {
      MatchingAppend(qtype, ips[..i], ips[i]);
      assert ips[..i] + [ips[i]] == ips[..i + 1];
      if Matches(qtype, ips[i]) {
        matching := matching + [ips[i]];
      }
    }
    assert ips[..|ips|] == ips;
  }

  method PushAnswer(response: seq<byte>, ip: Ip) returns (r: seq<byte>)
    ensures r == response + AnswerWire(ip)
  {
    var record: seq<byte> := [0xC0, 0x0C];
    match ip {
    case V4(octets) =>
      record := record + [Hi(TYPE_A), Lo(TYPE_A)];
      record := record + [0, 1];
      record := record + [0, 0, 0, 60];
      record := record + [0, 4];
      record := record + octets;
    case V6(octets) =>
      record := record + [Hi(TYPE_AAAA), Lo(TYPE_AAAA)];
      record := record + [0, 1];
      record := record + [0, 0, 0, 60];
      record := record + [0, 16];
      record := record + octets;
    }
    assert record == AnswerWire(ip);
    r := response + record;
  }

  method BuildDnsResponse(
    id: u16, original: seq<byte>, questionEnd: nat, qtype: u16, resolved: Option<seq<Ip>>)
    returns (response: seq<byte>)
    requires 12 <= questionEnd <= |original|
    ensures response == Response(id, original[12..questionEnd], qtype,
                                 if resolved.Some? then resolved.value else [])
  {
    hide Matching, AnswerWire, Hi, Lo;
    var ips: seq<Ip> := if resolved.Some? then resolved.value else [];
    var matchingIps := MatchingAddresses(qtype, ips);

    var anCount := |matchingIps| % 0x1_0000;
    var rcode := if |matchingIps| == 0 && |ips| == 0 then 3 else 0;
    var flags: u16 := 0x8000 + 0x0400 + 0x0080 + rcode;
    assert flags == ResponseFlags(ips) by { var _ := MatchingSpec(qtype, ips); }

    response := [Hi(id), Lo(id)];
    response := response + [Hi(flags), Lo(flags)];
    response := response + [0, 1];
    response := response + [Hi(anCount), Lo(anCount)];
    response := response + [0, 0];
    response := response + [0, 0];
    assert response == HeaderWire(id, flags, anCount);
    response := response + original[12..questionEnd];
    ghost var head := response;

    for i := 0 to |matchingIps|
      invariant response == head + AnswersWire(matchingIps[..i])
    {
      AnswersAppend(matchingIps[..i], matchingIps[i]);
      assert matchingIps[..i] + [matchingIps[i]] == matchingIps[..i + 1];
      response := PushAnswer(response, matchingIps[i]);
    }
    assert matchingIps[..|matchingIps|] == matchingIps;
  }
}
