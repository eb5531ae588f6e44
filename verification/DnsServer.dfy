/**
 * The query handler up to the point where a query leaves for the upstream server, and the
 * end-to-end theorems that join parser, index, resolver and response builder.
 */
module DnsServer {
  import opened Wrappers
  import opened Bytes
  import opened Sequences
  import opened RecordStore
  import opened Resolver
  import opened Wire
  import opened Rfc1035

  datatype Outcome = Drop | Forward | Answer(bytes: seq<byte>)

  predicate EndsWith(s: Text, suffix: Text) {
    |suffix| <= |s| && s[|s| - |suffix|..] == suffix
  }

  predicate IsInternal(name: Text) {
    EndsWith(name, [DOT] + INTERNAL) || EndsWith(name, [DOT] + INTERNAL + [DOT])
  }

  function OrEmpty(r: Option<seq<Ip>>): seq<Ip> {
    if r.Some? then r.value else []
  }

  function Opcode(flags: u16): nat {
    (flags / 0x800) % 16
  }

  function Handled(data: seq<byte>, e: Entries, unicodeLower: Text -> Text): Outcome {
    if |data| < 12 || Opcode(U16(data[2], data[3])) != 0 || U16(data[4], data[5]) == 0 then Drop
    else
      match ParsedQuestion(data, 12)
      case None => Drop
      case Some(question) =>
        var (name, qtype, end) := question;
        var lower := ToLowercase(name, unicodeLower);
        if !IsInternal(lower) then Forward
        else Answer(Response(U16(data[0], data[1]), data[12..end], qtype, OrEmpty(Resolve(e, lower))))
  }

  method HandleDnsQuery(data: seq<byte>, store: DnsRecordStore, unicodeLower: Text -> Text)
    returns (outcome: Outcome)
    ensures outcome == Handled(data, store.entries, unicodeLower)
  {
    hide ValidUtf8, Response, IsInternal, Resolve, ToLowercase;
    if |data| < 12 {
      return Drop;
    }
    var id := U16(data[0], data[1]);
    var flags := U16(data[2], data[3]);
    var qdCount := U16(data[4], data[5]);
    if Opcode(flags) != 0 || qdCount == 0 {
      return Drop;
    }
    var question := ParseQuestion(data, 12);
    if question.None? {
      return Drop;
    }
    var (name, qtype, end) := question.value;
    var lower := ToLowercase(name, unicodeLower);
    if IsInternal(lower) {
      var ips := Resolve(store.entries, lower);
      var bytes := BuildDnsResponse(id, data, end, qtype, ips);
      return Answer(bytes);
    }
    return Forward;
  }

  /**
   * A packet gets neither an answer nor a forward exactly when it is shorter than a header, asks
   * for another operation (the four opcode bits of its third byte are not zero), counts no question,
   * or no question can be read behind its header.
   */
  lemma DroppedExactly(data: seq<byte>, e: Entries, unicodeLower: Text -> Text)
    ensures Handled(data, e, unicodeLower) == Drop <==>
              || |data| < 12 || (data[2] as int / 8) % 16 != 0 || (data[4] == 0 && data[5] == 0)
              || !exists labels, end :: QuestionAt(data, 12, labels, end)
  {
    hide ParsedQuestion, QuestionAt, Response, IsInternal, Resolve, ToLowercase;
    ParseExact(data, 12);
    if |data| >= 12 {
      OpcodeBits(data[2], data[3]);
    }
  }

  /** The opcode is the four bits behind the first one of the third byte (RFC 1035, section 4.1.1). */
  lemma OpcodeBits(hi: byte, lo: byte)
    ensures Opcode(U16(hi, lo)) == (hi as int / 8) % 16
  {
    assert U16(hi, lo) == 2048 * (hi as int / 8) + (hi as int % 8) * 256 + lo as int;
  }

  // ---- Queries as a client sends them ----

  datatype Query = Query(
    id: u16, flags: u16, qdCount: u16, anCount: u16, nsCount: u16, arCount: u16, question: Question)

  function QueryHeader(q: Query): (header: seq<byte>)
    ensures |header| == 12
  {
    [Hi(q.id), Lo(q.id), Hi(q.flags), Lo(q.flags), Hi(q.qdCount), Lo(q.qdCount),
     Hi(q.anCount), Lo(q.anCount), Hi(q.nsCount), Lo(q.nsCount), Hi(q.arCount), Lo(q.arCount)]
  }

  /** A query on the wire; `trailing` is whatever follows the first question. */
  function QueryWire(q: Query, trailing: seq<byte>): seq<byte> {
    QueryHeader(q) + QuestionWire(q.question) + trailing
  }

  predicate StandardQuery(q: Query) {
    (q.flags / 0x800) % 16 == 0 && q.qdCount > 0
  }

  /** Labels of ASCII bytes without a dot, of any length that the length byte can express. */
  predicate ClientLabels(labels: seq<Text>) {
    forall i :: 0 <= i < |labels| ==> 1 <= |labels[i]| <= 255 && IsAscii(labels[i]) && DotFree(labels[i])
  }

  function LowerLabels(labels: seq<Text>): (r: seq<Text>)
    ensures |r| == |labels|
    ensures forall i :: 0 <= i < |labels| ==> r[i] == AsciiLower(labels[i])
  {
    seq(|labels|, i requires 0 <= i < |labels| => AsciiLower(labels[i]))
  }

  // ---- Parsing a client's query ----

  lemma ClientLabelsPlain(labels: seq<Text>)
    requires ClientLabels(labels)
    ensures PlainLabels(labels)
  {
    forall i | 0 <= i < |labels|
      ensures ValidUtf8(labels[i])
    {
      AsciiIsUtf8(labels[i]);
    }
  }

  lemma QueryBytes(q: Query, trailing: seq<byte>)
    ensures var data := QueryWire(q, trailing);
            && |data| >= 12
            && U16(data[0], data[1]) == q.id && U16(data[2], data[3]) == q.flags
            && U16(data[4], data[5]) == q.qdCount
  {
    hide Hi, Lo, QuestionWire, U16;
    var data, header := QueryWire(q, trailing), QueryHeader(q);
    assert forall i :: 0 <= i < 12 ==> data[i] == header[i];
    BigEndian(q.id);
    BigEndian(q.flags);
    BigEndian(q.qdCount);
  }

  lemma QueryQuestion(q: Query, trailing: seq<byte>)
    requires PlainLabels(q.question.name)
    ensures var data := QueryWire(q, trailing);
            var end := 12 + |QuestionWire(q.question)|;
            && end <= |data|
            && data[12..end] == QuestionWire(q.question)
            && ParsedQuestion(data, 12) == Some((Join(q.question.name), q.question.qtype, end))
  {
    hide EncodeName, ValidUtf8, ParsedQuestion, QueryHeader, Hi, Lo, U16;
    var data, wire := QueryWire(q, trailing), QuestionWire(q.question);
    var labels := q.question.name;
    var n, end := |EncodeName(labels)|, 12 + |wire|;
    assert data[12..end] == wire;
    SliceOfSlice(data, 12, end, 0, n);
    assert wire[..n] == EncodeName(labels);
    assert QuestionAt(data, 12, labels, end);
    ParseEncoded(data, 12, labels, end);
    assert data[12..end][n] == wire[n] == Hi(q.question.qtype);
    assert data[12..end][n + 1] == wire[n + 1] == Lo(q.question.qtype);
    BigEndian(q.question.qtype);
  }

  // ---- Names made of dot-free labels ----

  predicate DotFreeLabels(labels: seq<Text>) {
    forall i :: 0 <= i < |labels| ==> labels[i] != [] && DotFree(labels[i])
  }

  lemma LowerAppend(a: Text, b: Text)
    ensures AsciiLower(a + b) == AsciiLower(a) + AsciiLower(b)
    ensures AsciiLower([DOT]) == [DOT]
  {
  }

  lemma AsciiAppend(a: Text, b: Text)
    ensures IsAscii(a + b) <==> IsAscii(a) && IsAscii(b)
  {
    assert forall i :: 0 <= i < |a| ==> (a + b)[i] == a[i];
    assert forall i :: 0 <= i < |b| ==> (a + b)[|a| + i] == b[i];
  }

  lemma {:induction false} LowerJoin(labels: seq<Text>)
    requires forall i :: 0 <= i < |labels| ==> IsAscii(labels[i])
    ensures IsAscii(Join(labels))
    ensures AsciiLower(Join(labels)) == Join(LowerLabels(labels))
  {
    if |labels| == 1 {
      assert LowerLabels(labels) == [AsciiLower(labels[0])];
    } else if |labels| > 1 {
      hide AsciiLower;
      LowerJoin(labels[1..]);
      assert LowerLabels(labels)[1..] == LowerLabels(labels[1..]);
      LowerAppend(labels[0], [DOT]);
      LowerAppend(labels[0] + [DOT], Join(labels[1..]));
      AsciiAppend(labels[0] + [DOT], Join(labels[1..]));
    }
  }

  lemma LowerKeepsDots(s: Text)
    ensures DotFree(s) <==> DotFree(AsciiLower(s))
  {
    forall i | 0 <= i < |s|
      ensures s[i] == DOT <==> AsciiLower(s)[i] == DOT
    {
    }
  }

  lemma LowerLabelsDotFree(labels: seq<Text>)
    requires ClientLabels(labels)
    ensures DotFreeLabels(LowerLabels(labels))
  {
    forall i | 0 <= i < |labels| {
      LowerKeepsDots(labels[i]);
    }
  }

  lemma {:induction false} JoinLast(labels: seq<Text>)
    requires |labels| > 1
    ensures Join(labels) == Join(labels[..|labels| - 1]) + [DOT] + labels[|labels| - 1]
  {
    var init := labels[..|labels| - 1];
    if |labels| > 2 {
      JoinLast(labels[1..]);
      assert init[1..] == labels[1..][..|labels| - 2];
    } else {
      assert labels[1..] == [labels[1]] && init == [labels[0]];
    }
  }

  lemma {:induction false} JoinDots(labels: seq<Text>)
    requires labels != [] && DotFreeLabels(labels)
    ensures multiset(Join(labels))[DOT] == |labels| - 1
    ensures Join(labels) != [] && Join(labels)[|Join(labels)| - 1] != DOT
  {
    assert DotFree(labels[0]);
    if |labels| > 1 {
      JoinDots(labels[1..]);
    }
  }

  lemma SuffixSplit(s: Text, front: Text, suffix: Text)
    ensures EndsWith(s, suffix) <==> exists f :: s == f + suffix
    ensures EndsWith(front + suffix, suffix)
  {
    if EndsWith(s, suffix) {
      assert s == s[..|s| - |suffix|] + suffix;
    }
    assert forall f: Text :: (f + suffix)[|f|..] == suffix;
  }

  lemma InternalSuffix(front: Text, last: Text)
    requires last != [] && DotFree(last)
    ensures IsInternal(front + [DOT] + last) <==> last == INTERNAL
    ensures !IsInternal(last)
  {
    var s, suffix := front + [DOT] + last, [DOT] + INTERNAL;
    assert front + suffix == front + [DOT] + INTERNAL;
    SuffixSplit(s, front, suffix);
    RFindAt(front, DOT, last);
    forall f: Text | s == f + suffix
      ensures last == INTERNAL
    {
      assert f + suffix == f + [DOT] + INTERNAL;
      RFindAt(f, DOT, INTERNAL);
      assert last == s[|front| + 1..] == s[|f| + 1..] == INTERNAL;
    }
    EndsInByte(s, suffix, DOT);
    EndsInByte(last, suffix, DOT);
    SuffixBytes(last, suffix, 0);
  }

  lemma EndsInByte(s: Text, suffix: Text, b: byte)
    ensures EndsWith(s, suffix + [b]) ==> s[|s| - 1] == b
  {
    SuffixBytes(s, suffix + [b], |suffix|);
  }

  lemma SuffixBytes(s: Text, suffix: Text, i: nat)
    requires i < |suffix|
    ensures EndsWith(s, suffix) ==> suffix[i] in s && s[|s| - |suffix| + i] == suffix[i]
  {
    assert |suffix| <= |s| ==> s[|s| - |suffix|..][i] == s[|s| - |suffix| + i];
  }

  /** A name of dot-free labels is internal just when its last label of several is `internal`. */
  lemma InternalNames(labels: seq<Text>)
    requires DotFreeLabels(labels)
    ensures IsInternal(Join(labels)) <==> |labels| > 1 && labels[|labels| - 1] == INTERNAL
  {
    hide IsInternal;
    if |labels| == 0 {
      ShortNotInternal([]);
    } else if |labels| == 1 {
      InternalSuffix([], labels[0]);
    } else {
      JoinLast(labels);
      InternalSuffix(Join(labels[..|labels| - 1]), labels[|labels| - 1]);
    }
  }

  lemma ShortNotInternal(s: Text)
    requires |s| < 9
    ensures !IsInternal(s)
  {
  }

  lemma JoinThree(host: Text, project: Text)
    ensures Join([host, project, INTERNAL]) == InternalName(host, project) + Dots(0)
  {
    var labels := [host, project, INTERNAL];
    assert labels[1..] == [project, INTERNAL] && labels[1..][1..] == [INTERNAL];
    assert Join([INTERNAL]) == INTERNAL;
    assert Join([project, INTERNAL]) == project + [DOT] + INTERNAL;
    assert Join(labels) == host + [DOT] + (project + [DOT] + INTERNAL);
    assert InternalName(host, project) + Dots(0) == InternalName(host, project);
  }

  /** Three labels ending in `internal` resolve as host and project; any other count never does. */
  lemma ResolveLabels(e: Entries, labels: seq<Text>)
    requires |labels| > 1 && DotFreeLabels(labels) && labels[|labels| - 1] == INTERNAL
    ensures Resolve(e, Join(labels)) ==
            if |labels| == 3 then ResolveHost(e, labels[1], labels[0]) else None
  {
    hide Resolve, ResolveHost, Join, InternalName, Dots;
    var name := Join(labels);
    if |labels| == 3 {
      assert labels == [labels[0], labels[1], INTERNAL];
      JoinThree(labels[0], labels[1]);
      ResolveInternal(e, labels[0], labels[1], 0);
    } else {
      JoinDots(labels);
      WrongDotCount(e, name);
    }
  }

  lemma WrongDotCount(e: Entries, name: Text)
    requires name != [] && name[|name| - 1] != DOT && multiset(name)[DOT] != 2
    ensures Resolve(e, name) == None
  {
    hide Resolve, ResolveHost, InternalName, Dots;
    if Resolve(e, name).Some? {
      var host, project, dots := ResolveOnlyInternal(e, name);
      DotsInInternalName(host, project, dots);
    }
  }

  lemma DotsInInternalName(host: Text, project: Text, dots: nat)
    requires DotFree(host) && DotFree(project)
    ensures multiset(InternalName(host, project) + Dots(dots))[DOT] == 2 + dots
    ensures dots > 0 ==> var s := InternalName(host, project) + Dots(dots); s[|s| - 1] == DOT
  {
    DotsCount(dots);
    assert DotFree(INTERNAL);
  }

  lemma {:induction false} DotsCount(n: nat)
    ensures multiset(Dots(n))[DOT] == n
  {
    if n > 0 {
      DotsCount(n - 1);
      assert Dots(n) == Dots(n - 1) + [DOT];
    }
  }

  // ---- The theorems ----

  /** The name the server resolves for a query: its labels joined by dots, in lower case. */
  function Asked(q: Query, unicodeLower: Text -> Text): Text {
    ToLowercase(Join(q.question.name), unicodeLower)
  }

  /** The server's answer to any standard query that its parser accepts. */
  lemma HandledQuery(e: Entries, q: Query, trailing: seq<byte>, unicodeLower: Text -> Text)
    requires StandardQuery(q) && PlainLabels(q.question.name)
    ensures var name := Asked(q, unicodeLower);
            Handled(QueryWire(q, trailing), e, unicodeLower) ==
            if IsInternal(name) then
              Answer(Response(q.id, QuestionWire(q.question), q.question.qtype, OrEmpty(Resolve(e, name))))
            else Forward
  {
    hide ParsedQuestion, Response, QueryWire, QuestionWire, Resolve, IsInternal, ToLowercase, PlainLabels;
    QueryBytes(q, trailing);
    QueryQuestion(q, trailing);
  }

  /** For ASCII labels without dots, the name is that of the lower-case labels. */
  lemma AskedLabels(q: Query, unicodeLower: Text -> Text)
    requires ClientLabels(q.question.name)
    ensures PlainLabels(q.question.name) && Asked(q, unicodeLower) == Join(LowerLabels(q.question.name))
    ensures DotFreeLabels(LowerLabels(q.question.name))
  {
    ClientLabelsPlain(q.question.name);
    LowerJoin(q.question.name);
    LowerLabelsDotFree(q.question.name);
  }

  /** The server's answer to any standard query whose labels are ASCII and dot-free. */
  lemma HandledClientQuery(e: Entries, q: Query, trailing: seq<byte>, unicodeLower: Text -> Text)
    requires StandardQuery(q) && ClientLabels(q.question.name)
    ensures var labels := LowerLabels(q.question.name);
            Handled(QueryWire(q, trailing), e, unicodeLower) ==
            if |labels| > 1 && labels[|labels| - 1] == INTERNAL then
              Answer(Response(q.id, QuestionWire(q.question), q.question.qtype,
                              OrEmpty(if |labels| == 3 then ResolveHost(e, labels[1], labels[0]) else None)))
            else Forward
  {
    hide Handled, Response, QueryWire, QuestionWire, Resolve, ResolveHost, IsInternal, Asked, ClientLabels, PlainLabels,
      StandardQuery;
    AskedLabels(q, unicodeLower);
    HandledQuery(e, q, trailing, unicodeLower);
    var labels := LowerLabels(q.question.name);
    InternalNames(labels);
    if |labels| > 1 && labels[|labels| - 1] == INTERNAL {
      ResolveLabels(e, labels);
    }
  }

  lemma InternalNameIsInternal(host: Text, project: Text, dots: nat)
    requires dots <= 1
    ensures IsInternal(InternalName(host, project) + Dots(dots))
  {
    var front, suffix := host + [DOT] + project, [DOT] + INTERNAL;
    var s := InternalName(host, project) + Dots(dots);
    if dots == 0 {
      assert s == front + suffix;
      SuffixSplit(s, front, suffix);
    } else {
      assert s == front + (suffix + [DOT]);
      SuffixSplit(s, front, suffix + [DOT]);
    }
  }

  /**
   * End to end: in every reachable store, for every standard query whose labels have at most 63
   * bytes and spell `host.project.internal` once joined and lowered, with or without a final dot,
   * decoding the response gives the query's id and question, and exactly the resolved addresses of
   * the queried family (type 1 for IPv4, 28 for IPv6, 255 for both), in order, in records of that
   * type; `at` lists their places among all resolved addresses. The response code is 3 just when
   * nothing resolves, and otherwise 0 even when no address has the queried family.
   */
  lemma EndToEnd(
    ops: seq<Op>, q: Query, trailing: seq<byte>, unicodeLower: Text -> Text, host: Text, project: Text, dots: nat)
    returns (at: seq<nat>)
    requires StandardQuery(q) && PlainLabels(q.question.name) && ShortLabels(q.question.name)
    requires DotFree(host) && DotFree(project) && dots <= 1
    requires Asked(q, unicodeLower) == InternalName(host, project) + Dots(dots)
    requires var resolved := ResolveHost(Run(ops), project, host);
             |Matching(q.question.qtype, OrEmpty(resolved))| < 0x1_0000
    ensures var resolved := ResolveHost(Run(ops), project, host);
            var ips, qtype := OrEmpty(resolved), q.question.qtype;
            var outcome := Handled(QueryWire(q, trailing), Run(ops), unicodeLower);
            && (forall i, j :: 0 <= i < j < |at| ==> at[i] < at[j])
            && (forall k: nat :: k in at <==>
                  k < |ips| && (qtype == 255 || (qtype == 1 && ips[k].V4?) || (qtype == 28 && ips[k].V6?)))
            && outcome.Answer?
            && DecodeMessage(outcome.bytes).Some?
            && var m := DecodeMessage(outcome.bytes).value;
            && m.id == q.id
            && m.questions == [q.question]
            && |m.answers| == |at|
            && (forall i :: 0 <= i < |at| ==>
                  && at[i] < |ips| && AddressOf(m.answers[i]) == Some(ips[at[i]])
                  && m.answers[i].rtype == (if ips[at[i]].V4? then 1 else 28)
                  && m.answers[i].name == q.question.name && m.answers[i].ttl == 60)
            && IsAuthoritativeResponse(m.flags)
            && Rcode(m.flags) == (if resolved.None? then 3 else 0)
            && m.nsCount == m.arCount == 0 && m.trailing == []
  {
    hide DecodeMessage, Response, QueryWire, QuestionWire, Handled, Matching, ResolveReplica, Lookup, Resolve,
      PlainLabels, AddressOf, RecordsFor, Run, Asked, IsInternal, InternalName, StandardQuery;
    var ips := OrEmpty(ResolveHost(Run(ops), project, host));
    var answers := Matching(q.question.qtype, ips);
    HandledQuery(Run(ops), q, trailing, unicodeLower);
    InternalNameIsInternal(host, project, dots);
    ResolveInternal(Run(ops), host, project, dots);
    DecodeWholeResponse(q.id, q.question, ips);
    RecordAddresses(q.question.name, answers);
    at := MatchingSpec(q.question.qtype, ips);
  }

  /** Three ASCII labels that lower to host, project and `internal` are such a spelling. */
  lemma SpelledByLabels(q: Query, unicodeLower: Text -> Text, host: Text, project: Text)
    requires ClientLabels(q.question.name) && LowerLabels(q.question.name) == [host, project, INTERNAL]
    ensures PlainLabels(q.question.name) && DotFree(host) && DotFree(project)
    ensures Asked(q, unicodeLower) == InternalName(host, project) + Dots(0)
  {
    hide Asked, PlainLabels, ClientLabels, InternalName, Dots, Join;
    AskedLabels(q, unicodeLower);
    assert LowerLabels(q.question.name)[0] == host && LowerLabels(q.question.name)[1] == project;
    JoinThree(host, project);
  }

  /**
   * The bound of 63 bytes a label (RFC 1035, section 2.3.4) is the server's to check and it does
   * not: its answer reads back as an answer to the question exactly when the labels keep the bound.
   */
  lemma AnswerReadsBackExactly(e: Entries, q: Query, trailing: seq<byte>, unicodeLower: Text -> Text)
    requires StandardQuery(q) && PlainLabels(q.question.name) && IsInternal(Asked(q, unicodeLower))
    ensures var outcome := Handled(QueryWire(q, trailing), e, unicodeLower);
            && outcome.Answer?
            && ((var m := DecodeMessage(outcome.bytes); m.Some? && m.value.questions == [q.question]) <==>
                ShortLabels(q.question.name))
  {
    hide Handled, QueryWire, DecodeMessage, QuestionWire, Response, Resolve, Matching, PlainLabels, ShortLabels,
      AnswersWire, RecordsFor, ResponseFlags, Asked, IsInternal, StandardQuery;
    HandledQuery(e, q, trailing, unicodeLower);
    var ips := OrEmpty(Resolve(e, Asked(q, unicodeLower)));
    if ShortLabels(q.question.name) {
      DecodeResponse(q.id, q.question, ips);
    }
    DecodedQuestionShort(Response(q.id, QuestionWire(q.question), q.question.qtype, ips));
    assert [q.question][0] == q.question;
  }

  /** Such a query: a host name of 64 letters is answered, and the answer is not read back. */
  lemma LongLabelExample(e: Entries, unicodeLower: Text -> Text) returns (q: Query)
    ensures |q.question.name| == 3 && |q.question.name[0]| == 64 && q.question.name[2] == INTERNAL
    ensures var outcome := Handled(QueryWire(q, []), e, unicodeLower);
            && outcome.Answer?
            && var m := DecodeMessage(outcome.bytes); m.None? || m.value.questions != [q.question]
  {
    hide Handled, QueryWire, DecodeMessage, IsInternal, Asked, InternalName;
    var host: Text := seq(64, _ => 97 as byte);
    var names := [host, [112], INTERNAL];
    q := Query(1, 0x100, 1, 0, 0, 0, Question(names, TYPE_A, 1));
    assert AsciiLower(INTERNAL) == INTERNAL && AsciiLower(host) == host && AsciiLower([112]) == [112];
    assert !ShortLabels(names) by { assert |names[0]| == 64; }
    SpelledByLabels(q, unicodeLower, host, [112]);
    InternalNameIsInternal(host, [112], 0);
    AnswerReadsBackExactly(e, q, [], unicodeLower);
  }

  /** The name is of the form `host.project.internal`, with any number of final dots. */
  ghost predicate NamesHost(name: Text) {
    exists host, project, dots: nat ::
      DotFree(host) && DotFree(project) && name == InternalName(host, project) + Dots(dots)
  }

  lemma ResolvesHostsOnly(e: Entries, name: Text)
    ensures Resolve(e, name).Some? ==> NamesHost(name)
  {
    hide Resolve, ResolveHost, InternalName, Dots;
    if Resolve(e, name).Some? {
      var host, project, dots := ResolveOnlyInternal(e, name);
    }
  }

  /** All other internal names are answered with NXDOMAIN and no records. */
  lemma OtherInternalNamesDoNotExist(e: Entries, q: Query, trailing: seq<byte>, unicodeLower: Text -> Text)
    requires StandardQuery(q) && PlainLabels(q.question.name)
    requires IsInternal(Asked(q, unicodeLower)) && !NamesHost(Asked(q, unicodeLower))
    ensures Handled(QueryWire(q, trailing), e, unicodeLower) ==
            Answer(HeaderWire(q.id, 0x8483, 0) + QuestionWire(q.question))
  {
    hide Handled, QueryWire, HeaderWire, QuestionWire, PlainLabels, Resolve, IsInternal, Asked, InternalName, StandardQuery,
      ResolveHost;
    HandledQuery(e, q, trailing, unicodeLower);
    ResolvesHostsOnly(e, Asked(q, unicodeLower));
    var header, wire := HeaderWire(q.id, 0x8483, 0), QuestionWire(q.question);
    assert Response(q.id, wire, q.question.qtype, []) == header + wire + [];
    assert header + wire + [] == header + wire;
  }

  /** Internal names of any other number of labels than three are among them. */
  lemma WrongLabelCount(q: Query, unicodeLower: Text -> Text)
    requires ClientLabels(q.question.name)
    requires var labels := LowerLabels(q.question.name);
             |labels| > 1 && |labels| != 3 && labels[|labels| - 1] == INTERNAL
    ensures IsInternal(Asked(q, unicodeLower)) && !NamesHost(Asked(q, unicodeLower))
  {
    hide Asked, IsInternal, InternalName, Dots, ClientLabels;
    AskedLabels(q, unicodeLower);
    var labels := LowerLabels(q.question.name);
    InternalNames(labels);
    JoinDots(labels);
    forall host, project, dots: nat | DotFree(host) && DotFree(project)
      ensures Join(labels) != InternalName(host, project) + Dots(dots)
    {
      DotsInInternalName(host, project, dots);
    }
  }

  /**
   * Letter case does not matter: two queries whose names are alike in lower case get byte-identical
   * headers and answer sections, each behind its own spelling of the question.
   */
  lemma CaseInsensitive(e: Entries, q: Query, names: seq<Text>, trailing: seq<byte>, unicodeLower: Text -> Text)
    returns (header: seq<byte>, answers: seq<byte>)
    requires StandardQuery(q) && PlainLabels(q.question.name) && PlainLabels(names)
    requires ToLowercase(Join(names), unicodeLower) == Asked(q, unicodeLower)
    ensures var q' := q.(question := q.question.(name := names));
            var outcome := Handled(QueryWire(q, trailing), e, unicodeLower);
            var outcome' := Handled(QueryWire(q', trailing), e, unicodeLower);
            (outcome == outcome' == Forward) ||
            (outcome == Answer(header + QuestionWire(q.question) + answers) &&
             outcome' == Answer(header + QuestionWire(q'.question) + answers))
  {
    hide Handled, QueryWire, QuestionWire, Matching, AnswersWire, HeaderWire, Resolve, PlainLabels, IsInternal, ToLowercase;
    var q' := q.(question := q.question.(name := names));
    HandledQuery(e, q, trailing, unicodeLower);
    HandledQuery(e, q', trailing, unicodeLower);
    var ips := OrEmpty(Resolve(e, Asked(q, unicodeLower)));
    var matching := Matching(q.question.qtype, ips);
    header := HeaderWire(q.id, ResponseFlags(ips), |matching| % 0x1_0000);
    answers := AnswersWire(matching);
  }

  /** Two lists of labels that differ in the case of ASCII letters only. */
  predicate SameSpelling(a: seq<Text>, b: seq<Text>) {
    |a| == |b| &&
    forall i :: 0 <= i < |a| ==> |a[i]| == |b[i]| && forall j :: 0 <= j < |a[i]| ==> SameButCase(a[i][j], b[i][j])
  }

  /** ASCII labels that differ in letter case only, and no others, are alike in lower case. */
  lemma SpellingsLowerAlike(a: seq<Text>, b: seq<Text>, unicodeLower: Text -> Text)
    requires ClientLabels(a) && ClientLabels(b)
    ensures LowerLabels(a) == LowerLabels(b) <==> SameSpelling(a, b)
    ensures SameSpelling(a, b) ==> ToLowercase(Join(a), unicodeLower) == ToLowercase(Join(b), unicodeLower)
  {
    LowerJoin(a);
    LowerJoin(b);
    hide AsciiLower, SameButCase, IsAscii, ClientLabels, Join;
    if |a| == |b| {
      forall i | 0 <= i < |a|
        ensures AsciiLower(a[i]) == AsciiLower(b[i]) <==>
                  |a[i]| == |b[i]| && forall j :: 0 <= j < |a[i]| ==> SameButCase(a[i][j], b[i][j])
      {
        LowerAlike(a[i], b[i]);
      }
      if LowerLabels(a) == LowerLabels(b) {
        assert forall i :: 0 <= i < |a| ==> LowerLabels(a)[i] == LowerLabels(b)[i];
      }
    }
  }

  // ---- More answers than the count can say ----

  const MANY: nat := 0x1_0000

  /** 65536 different addresses of 10.0.0.0/16. */
  function ManyAddresses(): (ips: seq<Ip>)
    ensures |ips| == MANY
    ensures forall i :: 0 <= i < MANY ==> ips[i] == V4([10, 0, Hi(i), Lo(i)])
  {
    seq(MANY, i requires 0 <= i < MANY => V4([10, 0, Hi(i), Lo(i)]))
  }

  lemma ManyDistinct()
    ensures NoDuplicates(ManyAddresses())
  {
    var ips := ManyAddresses();
    forall i, j | 0 <= i < j < MANY
      ensures ips[i] != ips[j]
    {
      hide Hi, Lo, U16;
      BigEndian(i);
      BigEndian(j);
      assert ips[i].v4[2] == Hi(i) && ips[j].v4[2] == Hi(j);
      assert ips[i].v4[3] == Lo(i) && ips[j].v4[3] == Lo(j);
    }
  }

  lemma {:induction false} AllMatch(ips: seq<Ip>)
    requires forall ip <- ips :: ip.V4?
    ensures Matching(TYPE_A, ips) == ips
  {
    if ips != [] {
      assert ips[0] in ips && forall ip <- ips[1..] :: ip in ips;
      AllMatch(ips[1..]);
    }
  }

  lemma NoDashNoReplica(e: Entries, project: Text, host: Text)
    requires DASH !in host
    ensures ResolveHost(e, project, host) ==
            if Lookup(e, project, host) == [] then None else Some(Lookup(e, project, host))
  {
    hide Lookup, LookupReplica;
  }

  /** A query of type A for `a.p.internal`. */
  function SmallQuery(): Query {
    Query(1, 0x100, 1, 0, 0, 0, Question([[97], [112], INTERNAL], TYPE_A, 1))
  }

  lemma SmallQueryLabels()
    ensures StandardQuery(SmallQuery()) && ClientLabels(SmallQuery().question.name)
    ensures ShortLabels(SmallQuery().question.name)
    ensures LowerLabels(SmallQuery().question.name) == [[97], [112], INTERNAL]
  {
    assert AsciiLower(INTERNAL) == INTERNAL;
    assert AsciiLower([97]) == [97] && AsciiLower([112]) == [112];
  }

  lemma {:induction false} AllV4(ips: seq<Ip>)
    requires forall ip <- ips :: ip.V4?
    ensures CountV4(ips) == |ips|
  {
    if ips != [] {
      assert ips[0] in ips && forall ip <- ips[1..] :: ip in ips;
      AllV4(ips[1..]);
    }
  }

  lemma ManyDecoded(id: u16, q: Question, ips: seq<Ip>)
    requires ShortLabels(q.name) && q.qtype == TYPE_A
    requires |ips| == MANY && forall ip <- ips :: ip.V4?
    ensures DecodeMessage(Response(id, QuestionWire(q), TYPE_A, ips)) ==
            Some(Message(id, ResponseFlags(ips), [q], [], 0, 0, AnswersWire(ips)))
    ensures |AnswersWire(ips)| == 16 * MANY && Rcode(ResponseFlags(ips)) == 0
  {
    hide DecodeMessage, Response, QuestionWire, AnswersWire, Matching, ShortLabels;
    DecodeResponse(id, q, ips);
    AllMatch(ips);
    AllV4(ips);
    AnswersLength(ips);
    assert ips[..0] == [] && ips[0..] == ips;
  }

  /**
   * A reachable index with 65536 addresses: all of them are sent and none of them is announced, so
   * a decoder reads a success without any answer.
   */
  lemma ManyAnswersExample(unicodeLower: Text -> Text)
    ensures var e := Run(Registrations([112], [97], ManyAddresses()));
            var outcome := Handled(QueryWire(SmallQuery(), []), e, unicodeLower);
            && |Lookup(e, [112], [97])| == MANY && outcome.Answer?
            && DecodeMessage(outcome.bytes).Some?
            && var m := DecodeMessage(outcome.bytes).value;
            m.answers == [] && Rcode(m.flags) == 0 && |m.trailing| == 16 * MANY
  {
    hide Run, Registrations, Handled, QueryWire, DecodeMessage, Lookup, ResolveHost, Response, QuestionWire, AnswersWire,
      ResponseFlags, Rcode, ClientLabels, ShortLabels, LowerLabels, StandardQuery, NoDuplicates;
    var q, ips := SmallQuery(), ManyAddresses();
    var e := Run(Registrations([112], [97], ips));
    SmallQueryLabels();
    ManyDistinct();
    RegistrationsRead([112], [97], ips);
    HandledClientQuery(e, q, [], unicodeLower);
    NoDashNoReplica(e, [112], [97]);
    ManyDecoded(q.id, q.question, ips);
  }

  // ---- Keys that are never served ----

  /** The handler looks up lower-case keys only. */
  predicate LowerCase(s: Text) {
    AsciiLower(s) == s
  }

  lemma LowerIsLower(s: Text)
    ensures LowerCase(AsciiLower(s))
  {
  }

  lemma LowerPrefix(s: Text, n: nat)
    requires LowerCase(s) && n <= |s|
    ensures LowerCase(s[..n])
  {
    assert forall i :: 0 <= i < n ==> AsciiLower(s[..n])[i] == LowerByte(s[i]) == AsciiLower(s)[i];
  }

  /** A query that asks for this deployment of this project, in some letter case. */
  predicate AsksFor(names: seq<Text>, project: Text, deployment: Text) {
    ClientLabels(names) && LowerLabels(names) == [deployment, project, INTERNAL]
  }

  /** A key that fits into labels can be asked for exactly when it is in lower case. */
  lemma AskableExactly(project: Text, deployment: Text)
    requires ClientLabels([deployment, project])
    ensures (exists names :: AsksFor(names, project, deployment)) <==> LowerCase(project) && LowerCase(deployment)
  {
    if names :| AsksFor(names, project, deployment) {
      assert LowerLabels(names)[0] == AsciiLower(names[0]) && LowerLabels(names)[1] == AsciiLower(names[1]);
      LowerIsLower(names[0]);
      LowerIsLower(names[1]);
    }
    if LowerCase(project) && LowerCase(deployment) {
      var names := [deployment, project, INTERNAL];
      var labels := [deployment, project];
      assert labels[0] == deployment && labels[1] == project;
      assert AsciiLower(INTERNAL) == INTERNAL;
      assert LowerLabels(names) == names;
      assert AsksFor(names, project, deployment);
    }
  }

  /** The two indexes hold the same addresses under every lower-case key. */
  ghost predicate SameLowerKeys(e: Entries, e': Entries) {
    forall p, d :: LowerCase(p) && LowerCase(d) ==> Lookup(e, p, d) == Lookup(e', p, d)
  }

  lemma ReplicaByLookup(e: Entries, project: Text, deployment: Text, index: nat)
    ensures LookupReplica(e, project, deployment, index) ==
            var ips := Lookup(e, project, deployment);
            if index < |ips| then Some(ips[index]) else None
  {
  }

  lemma SameHost(e: Entries, e': Entries, project: Text, host: Text)
    requires SameLowerKeys(e, e') && LowerCase(project) && LowerCase(host)
    ensures ResolveHost(e, project, host) == ResolveHost(e', project, host)
  {
    hide Lookup, LookupReplica, LowerCase, ParseUsize;
    var dash := RFind(host, DASH);
    if dash >= 0 {
      LowerPrefix(host, dash);
      var index := ParseUsize(host[dash + 1..]);
      if index.Some? {
        ReplicaByLookup(e, project, host[..dash], index.value);
        ReplicaByLookup(e', project, host[..dash], index.value);
      }
    }
  }

  /** Keys with a capital letter are never served: they change the answer to no query of a client. */
  lemma CapitalKeysUnserved(
    e: Entries, e': Entries, q: Query, trailing: seq<byte>, unicodeLower: Text -> Text)
    requires StandardQuery(q) && ClientLabels(q.question.name) && SameLowerKeys(e, e')
    ensures Handled(QueryWire(q, trailing), e, unicodeLower) == Handled(QueryWire(q, trailing), e', unicodeLower)
  {
    hide Handled, QueryWire, QuestionWire, Response, ResolveHost, ClientLabels, SameLowerKeys;
    HandledClientQuery(e, q, trailing, unicodeLower);
    HandledClientQuery(e', q, trailing, unicodeLower);
    var labels := LowerLabels(q.question.name);
    if |labels| == 3 {
      LowerIsLower(q.question.name[0]);
      LowerIsLower(q.question.name[1]);
      SameHost(e, e', labels[1], labels[0]);
    }
  }

  lemma CapitalRegistered(ip: Ip)
    ensures var e := Run([Register([112], [65], ip)]);
            Lookup(e, [112], [65]) == [ip] && Lookup(e, [112], [97]) == []
  {
    hide Registered;
    var op := Register([112], [65], ip);
    assert [op][..0] == [] && Run([]) == map[];
    assert [65] != [97] by { assert [65][0] != [97][0]; }
    LookupAfterRegister(map[], [112], [65], ip, [112], [65]);
    LookupAfterRegister(map[], [112], [65], ip, [112], [97]);
  }

  /** A deployment registered as `A`: no query for it, in either letter case, gets its address. */
  lemma CapitalKeyExample(ip: Ip, q: Query, trailing: seq<byte>, unicodeLower: Text -> Text)
    requires StandardQuery(q) && AsksFor(q.question.name, [112], [97])
    ensures var e := Run([Register([112], [65], ip)]);
            && Lookup(e, [112], [65]) == [ip]
            && Handled(QueryWire(q, trailing), e, unicodeLower) ==
               Answer(Response(q.id, QuestionWire(q.question), q.question.qtype, []))
  {
    hide Run, Handled, QueryWire, QuestionWire, Response, ResolveHost, Lookup, StandardQuery, ClientLabels, LowerLabels;
    var e := Run([Register([112], [65], ip)]);
    CapitalRegistered(ip);
    HandledClientQuery(e, q, trailing, unicodeLower);
    NoDashNoReplica(e, [112], [97]);
  }

  /** The name the deployment was registered under is such a query. */
  lemma CapitalNameAsks()
    ensures AsksFor([[65], [112], INTERNAL], [112], [97])
  {
    assert AsciiLower([65]) == [97] && AsciiLower([112]) == [112] && AsciiLower(INTERNAL) == INTERNAL;
  }
}
