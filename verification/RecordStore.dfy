/**
 * The DNS record index: project -> deployment -> addresses in registration order.
 */
module RecordStore {
  import opened Wrappers
  import opened Bytes

  type Octets4 = s: seq<byte> | |s| == 4 witness [0, 0, 0, 0]
  type Octets16 = s: seq<byte> | |s| == 16 witness [0, 0, 0, 0, 0, 0, 0, 0, 0, 0, 0, 0, 0, 0, 0, 0]

  datatype Ip = V4(v4: Octets4) | V6(v6: Octets16)

  type Entries = map<Text, map<Text, seq<Ip>>>

  function Without(ips: seq<Ip>, ip: Ip): seq<Ip> {
    if ips == [] then []
    else if ips[0] == ip then Without(ips[1..], ip)
    else [ips[0]] + Without(ips[1..], ip)
  }

  // ---- The operations as functions of the index ----

  function Lookup(e: Entries, project: Text, deployment: Text): seq<Ip> {
    if project in e && deployment in e[project] then e[project][deployment] else []
  }

  function LookupReplica(e: Entries, project: Text, deployment: Text, index: nat): Option<Ip> {
    if project in e && deployment in e[project] && index < |e[project][deployment]|
    then Some(e[project][deployment][index])
    else None
  }

  function Registered(e: Entries, project: Text, deployment: Text, ip: Ip): Entries {
    var pm := if project in e then e[project] else map[];
    var ips := if deployment in pm then pm[deployment] else [];
    e[project := pm[deployment := if ip in ips then ips else ips + [ip]]]
  }

  function Deregistered(e: Entries, project: Text, deployment: Text, ip: Ip): Entries {
    if project !in e then e
    else
      var pm := e[project];
      var pm' :=
        if deployment !in pm then pm
        else
          var ips := Without(pm[deployment], ip);
          if ips == [] then pm - {deployment} else pm[deployment := ips];
      if pm' == map[] then e - {project} else e[project := pm']
  }

  // ---- The shape every reachable index has ----

  predicate NoDuplicates(ips: seq<Ip>) {
    forall i, j :: 0 <= i < j < |ips| ==> ips[i] != ips[j]
  }

  /** No project without a deployment, no deployment without an address, no address twice. */
  predicate Canonical(e: Entries) {
    && (forall p <- e :: e[p] != map[])
    && (forall p <- e, d <- e[p] :: e[p][d] != [] && NoDuplicates(e[p][d]))
  }

  lemma {:induction false} WithoutElements(ips: seq<Ip>, ip: Ip)
    ensures forall x :: x in Without(ips, ip) <==> x in ips && x != ip
    ensures ip !in ips ==> Without(ips, ip) == ips
  {
    if ips != [] {
      WithoutElements(ips[1..], ip);
      assert ips == [ips[0]] + ips[1..];
    }
  }

  lemma {:induction false} WithoutDistinct(ips: seq<Ip>, ip: Ip)
    requires NoDuplicates(ips)
    ensures NoDuplicates(Without(ips, ip))
  {
    if ips != [] {
      var first, rest := ips[0], ips[1..];
      assert forall i :: 0 <= i < |rest| ==> rest[i] == ips[i + 1] != first;
      WithoutDistinct(rest, ip);
      WithoutElements(rest, ip);
      DistinctCons(first, Without(rest, ip));
      assert [] + Without(rest, ip) == Without(rest, ip);
    }
  }

  lemma DistinctCons(first: Ip, rest: seq<Ip>)
    requires NoDuplicates(rest) && first !in rest
    ensures NoDuplicates([first] + rest)
  {
    var all := [first] + rest;
    forall i, j | 0 <= i < j < |all|
      ensures all[i] != all[j]
    {
      assert all[j] == rest[j - 1];
      assert i > 0 ==> all[i] == rest[i - 1];
    }
  }

  lemma WithoutSpec(ips: seq<Ip>, ip: Ip)
    ensures forall x :: x in Without(ips, ip) <==> x in ips && x != ip
    ensures NoDuplicates(ips) ==> NoDuplicates(Without(ips, ip))
    ensures ip !in ips ==> Without(ips, ip) == ips
  {
    WithoutElements(ips, ip);
    if NoDuplicates(ips) {
      WithoutDistinct(ips, ip);
    }
  }

  lemma {:induction false} WithoutAppended(ips: seq<Ip>, ip: Ip)
    requires ip !in ips
    ensures Without(ips + [ip], ip) == ips
  {
    if ips != [] {
      assert (ips + [ip])[1..] == ips[1..] + [ip];
      WithoutAppended(ips[1..], ip);
    }
  }

  lemma RegisteredCanonical(e: Entries, project: Text, deployment: Text, ip: Ip)
    requires Canonical(e)
    ensures Canonical(Registered(e, project, deployment, ip))
  {
    var e' := Registered(e, project, deployment, ip);
    assert deployment in e'[project];
    var ips := Lookup(e, project, deployment);
    assert NoDuplicates(ips);
    assert NoDuplicates(Lookup(e', project, deployment));
  }

  lemma DeregisteredCanonical(e: Entries, project: Text, deployment: Text, ip: Ip)
    requires Canonical(e)
    ensures Canonical(Deregistered(e, project, deployment, ip))
  {
    hide Without, NoDuplicates;
    if project in e && deployment in e[project] {
      WithoutSpec(e[project][deployment], ip);
      assert forall p <- Deregistered(e, project, deployment, ip) :: p in e;
    }
  }

  /** Each operation changes the addresses of its own key only, and says how. */
  lemma LookupAfterRegister(e: Entries, project: Text, deployment: Text, ip: Ip, p: Text, d: Text)
    ensures Lookup(Registered(e, project, deployment, ip), p, d) ==
            var was := Lookup(e, p, d);
            if p == project && d == deployment && ip !in was then was + [ip] else was
  {
  }

  lemma LookupAfterDeregister(e: Entries, project: Text, deployment: Text, ip: Ip, p: Text, d: Text)
    ensures Lookup(Deregistered(e, project, deployment, ip), p, d) ==
            var was := Lookup(e, p, d);
            if p == project && d == deployment then Without(was, ip) else was
  {
    if p == project && project in e {
      var pm := e[project];
      assert d in pm && d != deployment ==> d in pm - {deployment};
      assert deployment in pm[deployment := Without(Lookup(e, p, deployment), ip)];
    }
  }

  /** Registering an address that was absent and deregistering it restores the index exactly. */
  lemma RegisterThenDeregister(e: Entries, project: Text, deployment: Text, ip: Ip)
    requires Canonical(e)
    requires ip !in Lookup(e, project, deployment)
    ensures Deregistered(Registered(e, project, deployment, ip), project, deployment, ip) == e
  {
    hide Without;
    var ips := Lookup(e, project, deployment);
    WithoutAppended(ips, ip);
    var pm := if project in e then e[project] else map[];
    var pm' := pm[deployment := ips + [ip]];
    assert Registered(e, project, deployment, ip) == e[project := pm'];
    if deployment in pm {
      assert pm'[deployment := ips] == pm;
      assert e[project := pm'][project := pm] == e;
    } else {
      assert pm' - {deployment} == pm;
      if project in e {
        assert e[project := pm'][project := pm] == e;
      } else {
        assert e[project := pm'] - {project} == e;
      }
    }
  }

  // ---- Histories ----

  datatype Op = Register(project: Text, deployment: Text, ip: Ip)
              | Deregister(project: Text, deployment: Text, ip: Ip)

  function Apply(e: Entries, op: Op): Entries {
    match op
    case Register(p, d, ip) => Registered(e, p, d, ip)
    case Deregister(p, d, ip) => Deregistered(e, p, d, ip)
  }

  /** The index after a history of operations on an empty store. */
  function Run(ops: seq<Op>): Entries {
    if ops == [] then map[] else Apply(Run(ops[..|ops| - 1]), ops[|ops| - 1])
  }

  /** Operation `k` registered the address and nothing later in the history took it out. */
  predicate StandsFrom(ops: seq<Op>, p: Text, d: Text, ip: Ip, k: nat) {
    && k < |ops|
    && ops[k] == Register(p, d, ip)
    && forall j :: k < j < |ops| ==> ops[j] != Deregister(p, d, ip)
  }

  /** The first registration since the address was last taken out. */
  predicate Birth(ops: seq<Op>, p: Text, d: Text, ip: Ip, k: nat) {
    StandsFrom(ops, p, d, ip, k) && forall j: nat :: j < k ==> !StandsFrom(ops, p, d, ip, j)
  }

  ghost predicate Live(ops: seq<Op>, p: Text, d: Text, ip: Ip) {
    exists k: nat :: Birth(ops, p, d, ip, k)
  }

  ghost predicate OrderedByBirth(ops: seq<Op>, p: Text, d: Text, ips: seq<Ip>) {
    forall i, j, a: nat, b: nat ::
      0 <= i < j < |ips| && Birth(ops, p, d, ips[i], a) && Birth(ops, p, d, ips[j], b) ==> a < b
  }

  /** What a history alone says the address list of a deployment is. */
  ghost predicate MatchesHistory(ops: seq<Op>, p: Text, d: Text, ips: seq<Ip>) {
    && NoDuplicates(ips)
    && (forall ip :: ip in ips <==> Live(ops, p, d, ip))
    && OrderedByBirth(ops, p, d, ips)
  }

  /** How one more operation changes the births. */
  lemma BirthStep(ops: seq<Op>, op: Op, p: Text, d: Text, ip: Ip, k: nat)
    ensures Birth(ops + [op], p, d, ip, k) <==>
              (op != Deregister(p, d, ip) && Birth(ops, p, d, ip, k)) ||
              (op == Register(p, d, ip) && k == |ops| && !Live(ops, p, d, ip))
  {
    var ops' := ops + [op];
    forall j: nat | j < |ops|
      ensures StandsFrom(ops', p, d, ip, j) <==> StandsFrom(ops, p, d, ip, j) && op != Deregister(p, d, ip)
    {
      assert forall i :: 0 <= i < |ops| ==> ops'[i] == ops[i];
      assert ops'[|ops|] == op;
    }
    if op == Register(p, d, ip) && k == |ops| {
      if j: nat :| j < k && StandsFrom(ops, p, d, ip, j) {
        var _ := StandingIsLive(ops, p, d, ip, j);
      }
    }
  }

  /** An address that stands from some point has a first such point. */
  lemma {:induction false} StandingIsLive(ops: seq<Op>, p: Text, d: Text, ip: Ip, k: nat) returns (b: nat)
    requires StandsFrom(ops, p, d, ip, k)
    ensures b <= k && Birth(ops, p, d, ip, b)
    decreases k
  {
    if j: nat :| j < k && StandsFrom(ops, p, d, ip, j) {
      b := StandingIsLive(ops, p, d, ip, j);
    } else {
      b := k;
    }
  }

  lemma LiveStep(ops: seq<Op>, op: Op, p: Text, d: Text, ip: Ip)
    ensures Live(ops + [op], p, d, ip) <==>
              op != Deregister(p, d, ip) && (op == Register(p, d, ip) || Live(ops, p, d, ip))
  {
    forall k: nat {
      BirthStep(ops, op, p, d, ip, k);
    }
    if op == Register(p, d, ip) && !Live(ops, p, d, ip) {
      assert Birth(ops + [op], p, d, ip, |ops|);
    } else if op != Deregister(p, d, ip) && Live(ops, p, d, ip) {
      var k: nat :| Birth(ops, p, d, ip, k);
      assert Birth(ops + [op], p, d, ip, k);
    }
  }

  lemma MatchesRegister(ops: seq<Op>, p: Text, d: Text, ip: Ip, ips: seq<Ip>)
    requires MatchesHistory(ops, p, d, ips)
    ensures MatchesHistory(ops + [Register(p, d, ip)], p, d, if ip in ips then ips else ips + [ip])
  {
    var op := Register(p, d, ip);
    var ips' := if ip in ips then ips else ips + [ip];
    forall x {
      LiveStep(ops, op, p, d, x);
    }
    forall i, j, a: nat, b: nat |
      0 <= i < j < |ips'| && Birth(ops + [op], p, d, ips'[i], a) && Birth(ops + [op], p, d, ips'[j], b)
      ensures a < b
    {
      BirthStep(ops, op, p, d, ips'[i], a);
      BirthStep(ops, op, p, d, ips'[j], b);
      assert ips'[i] in ips;
    }
  }

  lemma {:induction false} WithoutKeepsOrder(ops: seq<Op>, p: Text, d: Text, ip: Ip, ips: seq<Ip>)
    requires OrderedByBirth(ops, p, d, ips)
    ensures OrderedByBirth(ops, p, d, Without(ips, ip))
  {
    if ips != [] {
      WithoutSpec(ips[1..], ip);
      forall i, j, a: nat, b: nat |
        0 <= i < j < |ips[1..]| && Birth(ops, p, d, ips[1..][i], a) && Birth(ops, p, d, ips[1..][j], b)
        ensures a < b
      {
        assert ips[1..][i] == ips[i + 1] && ips[1..][j] == ips[j + 1];
      }
      WithoutKeepsOrder(ops, p, d, ip, ips[1..]);
      var rest := Without(ips[1..], ip);
      if ips[0] != ip {
        forall j, a: nat, b: nat |
          0 <= j < |rest| && Birth(ops, p, d, ips[0], a) && Birth(ops, p, d, rest[j], b)
          ensures a < b
        {
          assert rest[j] in ips[1..];
          var i :| 0 <= i < |ips[1..]| && ips[1..][i] == rest[j];
          assert ips[i + 1] == rest[j];
        }
      }
    }
  }

  lemma MatchesDeregister(ops: seq<Op>, p: Text, d: Text, ip: Ip, ips: seq<Ip>)
    requires MatchesHistory(ops, p, d, ips)
    ensures MatchesHistory(ops + [Deregister(p, d, ip)], p, d, Without(ips, ip))
  {
    var op := Deregister(p, d, ip);
    WithoutSpec(ips, ip);
    WithoutKeepsOrder(ops, p, d, ip, ips);
    forall x {
      LiveStep(ops, op, p, d, x);
    }
    forall x, k: nat {
      BirthStep(ops, op, p, d, x, k);
    }
  }

  lemma MatchesOther(ops: seq<Op>, op: Op, p: Text, d: Text, ips: seq<Ip>)
    requires MatchesHistory(ops, p, d, ips)
    requires op.project != p || op.deployment != d
    ensures MatchesHistory(ops + [op], p, d, ips)
  {
    forall x {
      LiveStep(ops, op, p, d, x);
    }
    forall x, k: nat {
      BirthStep(ops, op, p, d, x, k);
    }
  }

  /**
   * The index refines its history: after every run each address list is duplicate-free, holds
   * exactly the addresses whose latest operation was a registration, and is ordered by first
   * registration since the last removal; and no empty list or project is kept.
   */
  lemma {:induction false} RefinesHistory(ops: seq<Op>, p: Text, d: Text)
    ensures Canonical(Run(ops))
    ensures MatchesHistory(ops, p, d, Lookup(Run(ops), p, d))
  {
    if ops == [] {
    } else {
      var before, op := ops[..|ops| - 1], ops[|ops| - 1];
      var e := Run(before);
      RefinesHistory(before, p, d);
      assert before + [op] == ops;
      match op
      case Register(p', d', ip) =>
        RegisteredCanonical(e, p', d', ip);
        LookupAfterRegister(e, p', d', ip, p, d);
        if p == p' && d == d' {
          MatchesRegister(before, p, d, ip, Lookup(e, p, d));
        } else {
          MatchesOther(before, op, p, d, Lookup(e, p, d));
        }
      case Deregister(p', d', ip) =>
        DeregisteredCanonical(e, p', d', ip);
        LookupAfterDeregister(e, p', d', ip, p, d);
        if p == p' && d == d' {
          MatchesDeregister(before, p, d, ip, Lookup(e, p, d));
        } else {
          MatchesOther(before, op, p, d, Lookup(e, p, d));
        }
    }
  }

  lemma HasMember(ips: seq<Ip>)
    ensures ips == [] || exists ip :: ip in ips
  {
    if ips != [] {
      assert ips[0] in ips;
    }
  }

  lemma SameFirst(ops: seq<Op>, p: Text, d: Text, xs: seq<Ip>, ys: seq<Ip>)
    requires xs != [] && ys != [] && xs[0] in ys && ys[0] in xs
    requires Live(ops, p, d, xs[0]) && Live(ops, p, d, ys[0])
    requires OrderedByBirth(ops, p, d, xs) && OrderedByBirth(ops, p, d, ys)
    ensures xs[0] == ys[0]
  {
    hide Birth;
    var j :| 0 <= j < |ys| && ys[j] == xs[0];
    var i :| 0 <= i < |xs| && xs[i] == ys[0];
    var a: nat :| Birth(ops, p, d, xs[0], a);
    var b: nat :| Birth(ops, p, d, ys[0], b);
    assert j > 0 ==> b < a;
    assert i > 0 ==> a < b;
  }

  lemma OrderedTail(ops: seq<Op>, p: Text, d: Text, ips: seq<Ip>)
    requires ips != [] && OrderedByBirth(ops, p, d, ips)
    ensures OrderedByBirth(ops, p, d, ips[1..])
  {
    hide Birth;
    assert forall k :: 0 <= k < |ips[1..]| ==> ips[1..][k] == ips[k + 1];
  }

  lemma DistinctTail(ips: seq<Ip>)
    requires ips != [] && NoDuplicates(ips)
    ensures NoDuplicates(ips[1..])
    ensures forall ip :: ip in ips[1..] <==> ip in ips && ip != ips[0]
  {
    var tail := ips[1..];
    assert forall k :: 0 <= k < |tail| ==> tail[k] == ips[k + 1] && tail[k] != ips[0];
    assert ips == [ips[0]] + tail;
  }

  /** The history leaves no freedom: two lists that match it are the same list. */
  lemma {:induction false} HistoryDeterminesList(ops: seq<Op>, p: Text, d: Text, xs: seq<Ip>, ys: seq<Ip>)
    requires NoDuplicates(xs) && NoDuplicates(ys)
    requires forall ip :: ip in xs <==> ip in ys
    requires forall ip :: ip in xs ==> Live(ops, p, d, ip)
    requires OrderedByBirth(ops, p, d, xs) && OrderedByBirth(ops, p, d, ys)
    ensures xs == ys
    decreases |xs|
  {
    hide OrderedByBirth, Live, NoDuplicates;
    HasMember(xs);
    HasMember(ys);
    if xs != [] && ys != [] {
      assert xs[0] in xs && ys[0] in ys;
      SameFirst(ops, p, d, xs, ys);
      DistinctTail(xs);
      DistinctTail(ys);
      OrderedTail(ops, p, d, xs);
      OrderedTail(ops, p, d, ys);
      HistoryDeterminesList(ops, p, d, xs[1..], ys[1..]);
      assert xs == [xs[0]] + xs[1..] && ys == [ys[0]] + ys[1..];
    }
  }

  /** The address list of a deployment is the one list its history describes. */
  lemma LookupIsTheHistory(ops: seq<Op>, p: Text, d: Text, ips: seq<Ip>)
    ensures MatchesHistory(ops, p, d, ips) <==> ips == Lookup(Run(ops), p, d)
  {
    hide Run, Lookup, Canonical, NoDuplicates, OrderedByBirth;
    RefinesHistory(ops, p, d);
    if MatchesHistory(ops, p, d, ips) {
      HistoryDeterminesList(ops, p, d, ips, Lookup(Run(ops), p, d));
    }
  }

  // ---- The store itself ----

  class DnsRecordStore {
    var entries: Entries

    constructor ()
      ensures entries == Run([])
    {
      entries := map[];
    }

    /** `entry(..).or_default()` twice, then a push unless the address is there. */
    method Register(project: Text, deployment: Text, ip: Ip)
      modifies this
      ensures entries == Registered(old(entries), project, deployment, ip)
    {
      if project !in entries {
        entries := entries[project := map[]];
      }
      var projectMap := entries[project];
      if deployment !in projectMap {
        projectMap := projectMap[deployment := []];
      }
      var ips := projectMap[deployment];
      if ip !in ips {
        ips := ips + [ip];
      }
      projectMap := projectMap[deployment := ips];
      entries := entries[project := projectMap];
      ghost var was := if project in old(entries) then old(entries)[project] else map[];
      assert projectMap == was[deployment := ips];
      assert entries == old(entries)[project := projectMap];
    }

    method Deregister(project: Text, deployment: Text, ip: Ip)
      modifies this
      ensures entries == Deregistered(old(entries), project, deployment, ip)
    {
      if project in entries {
        var projectMap := entries[project];
        if deployment in projectMap {
          var ips := Without(projectMap[deployment], ip);
          projectMap := projectMap[deployment := ips];
          if ips == [] {
            projectMap := projectMap - {deployment};
            assert projectMap == old(entries)[project] - {deployment};
          }
        }
        entries := entries[project := projectMap];
        if projectMap == map[] {
          entries := entries - {project};
          assert entries == old(entries) - {project};
        } else {
          assert entries == old(entries)[project := projectMap];
        }
      }
    }
  }

  // ---- Any list can be reached ----

  /** Registering the addresses of a list, one after the other. */
  function Registrations(p: Text, d: Text, ips: seq<Ip>): (ops: seq<Op>)
    ensures |ops| == |ips|
  {
    seq(|ips|, i requires 0 <= i < |ips| => Register(p, d, ips[i]))
  }

  /** Every list without duplicates is the list of a reachable index. */
  lemma {:induction false} RegistrationsRead(p: Text, d: Text, ips: seq<Ip>)
    requires NoDuplicates(ips)
    ensures Lookup(Run(Registrations(p, d, ips)), p, d) == ips
  {
    if ips != [] {
      hide Lookup, Registered;
      var n := |ips| - 1;
      var init, last := ips[..n], ips[n];
      RegistrationsRead(p, d, init);
      assert Registrations(p, d, ips)[..n] == Registrations(p, d, init);
      LookupAfterRegister(Run(Registrations(p, d, init)), p, d, last, p, d);
      assert ips == init + [last];
    } else {
      NothingRegistered(p, d);
    }
  }

  lemma NothingRegistered(p: Text, d: Text)
    ensures Lookup(Run([]), p, d) == []
  {
  }
}
