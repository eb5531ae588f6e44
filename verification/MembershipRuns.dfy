/**
 * Whole runs of the membership machine: what one monitor pass conserves, what every run keeps,
 * and how soon a silent worker is noticed.
 */
module MembershipRuns {
  import opened Wrappers
  import opened Membership

  // ---- One pass conserves pods ----

  lemma {:induction false} PodsOnCount(pods: seq<Pod>, id: Id, p: Pod)
    ensures multiset(PodsOn(pods, id))[p] == if p.node == Some(id) then multiset(pods)[p] else 0
  {
    if pods != [] {
      assert pods == [pods[0]] + pods[1..];
      PodsOnCount(pods[1..], id, p);
    }
  }

  /** A worker's pods are all pods assigned to it, in order: `at` lists their places. */
  lemma {:induction false} PodsOnSpec(pods: seq<Pod>, id: Id) returns (at: seq<nat>)
    ensures |at| == |PodsOn(pods, id)|
    ensures forall i :: 0 <= i < |at| ==> at[i] < |pods| && PodsOn(pods, id)[i] == pods[at[i]]
    ensures forall i, j :: 0 <= i < j < |at| ==> at[i] < at[j]
    ensures forall k: nat :: k in at <==> k < |pods| && pods[k].node == Some(id)
  {
    at := [];
    if pods != [] {
      var n := |pods| - 1;
      assert pods == pods[..n] + [pods[n]];
      at := PodsOnSpec(pods[..n], id);
      PodsOnAppend(pods[..n], pods[n], id);
      if pods[n].node == Some(id) {
        at := at + [n];
      }
    }
  }

  lemma {:induction false} PodsOnAppend(pods: seq<Pod>, p: Pod, id: Id)
    ensures PodsOn(pods + [p], id) == PodsOn(pods, id) + if p.node == Some(id) then [p] else []
  {
    if pods != [] {
      assert (pods + [p])[1..] == pods[1..] + [p];
      PodsOnAppend(pods[1..], p, id);
    }
  }

  /** All pods handed over by a list of calls. */
  function Handed(calls: seq<Call>): multiset<Pod> {
    if calls == [] then multiset{} else multiset(calls[0].pods) + Handed(calls[1..])
  }

  lemma {:induction false} HandedAppend(a: seq<Call>, b: seq<Call>)
    ensures Handed(a + b) == Handed(a) + Handed(b)
  {
    if a == [] {
      assert a + b == b;
    } else {
      assert (a + b)[1..] == a[1..] + b;
      HandedAppend(a[1..], b);
    }
  }

  predicate DeadListed(listing: seq<Node>, now: int, id: Id) {
    exists i :: 0 <= i < |listing| && listing[i].id == id && Dead(listing[i], now)
  }

  predicate DistinctIds(listing: seq<Node>) {
    forall i, j :: 0 <= i < j < |listing| ==> listing[i].id != listing[j].id
  }

  lemma DeadListedStep(listing: seq<Node>, now: int, id: Id)
    requires listing != []
    ensures var n := |listing| - 1;
            DeadListed(listing, now, id) <==>
            DeadListed(listing[..n], now, id) || (listing[n].id == id && Dead(listing[n], now))
  {
    var n := |listing| - 1;
    if i :| 0 <= i < n && listing[i].id == id && Dead(listing[i], now) {
      assert listing[..n][i] == listing[i];
    }
    if i :| 0 <= i < n && listing[..n][i].id == id && Dead(listing[..n][i], now) {
      assert listing[i] == listing[..n][i];
    }
  }

  /** Each pod is handed over as often as it is stored if its worker is dead, and else never. */
  lemma {:induction false} HandedCount(listing: seq<Node>, pods: seq<Pod>, now: int, p: Pod)
    requires DistinctIds(listing)
    ensures Handed(PassCalls(listing, pods, now))[p] ==
            if p.node.Some? && DeadListed(listing, now, p.node.value) then multiset(pods)[p] else 0
  {
    if listing != [] {
      hide Dead, DeadListed, PodsOn;
      var n := |listing| - 1;
      var last := listing[n];
      HandedCount(listing[..n], pods, now, p);
      HandedAppend(PassCalls(listing[..n], pods, now), CallFor(last, pods, now));
      HandedOne(last, pods, now, p);
      if p.node.Some? {
        DeadListedStep(listing, now, p.node.value);
        NotListedTwice(listing, now);
      }
    }
  }

  lemma HandedOne(node: Node, pods: seq<Pod>, now: int, p: Pod)
    ensures Handed(CallFor(node, pods, now))[p] ==
            if Dead(node, now) && p.node == Some(node.id) then multiset(pods)[p] else 0
  {
    hide Dead;
    PodsOnCount(pods, node.id, p);
    var calls := CallFor(node, pods, now);
    if calls != [] {
      assert calls[1..] == [];
    } else {
      assert Dead(node, now) ==> multiset(PodsOn(pods, node.id)) == multiset{};
    }
  }

  lemma NotListedTwice(listing: seq<Node>, now: int)
    requires DistinctIds(listing) && listing != []
    ensures !DeadListed(listing[..|listing| - 1], now, listing[|listing| - 1].id)
  {
  }

  predicate OnDeadWorker(nodes: Nodes, now: int, p: Pod) {
    p.node.Some? && p.node.value in nodes && SilentFor(nodes[p.node.value], now, 60)
  }

  /** One pass hands over every stored pod on a dead worker exactly once, and no other pod. */
  lemma PassConservesPods(nodes: Nodes, listing: seq<Node>, pods: seq<Pod>, now: int, p: Pod)
    requires IsListing(listing, nodes)
    ensures Handed(PassCalls(listing, pods, now))[p] ==
            if OnDeadWorker(nodes, now, p) then multiset(pods)[p] else 0
  {
    hide Dead, PassCalls, SilentFor;
    HandedCount(listing, pods, now, p);
    if p.node.Some? && p.node.value in nodes {
      assert Listed(listing, p.node.value);
      Thresholds(nodes[p.node.value], now);
    }
  }

  lemma {:induction false} ListedCalls(listing: seq<Node>, pods: seq<Pod>, now: int)
    requires DistinctIds(listing)
    ensures forall i, j :: 0 <= i < j < |PassCalls(listing, pods, now)| ==>
              PassCalls(listing, pods, now)[i].node != PassCalls(listing, pods, now)[j].node
    ensures forall c :: c in PassCalls(listing, pods, now) <==>
              c.time == now && c.pods == PodsOn(pods, c.node) != [] && DeadListed(listing, now, c.node)
  {
    if listing != [] {
      hide Dead, PodsOn, DeadListed;
      var n := |listing| - 1;
      ListedCalls(listing[..n], pods, now);
      NotListedTwice(listing, now);
      forall c: Call {
        DeadListedStep(listing, now, c.node);
      }
    }
  }

  /** The calls come in the order of the listing: `at` lists the places of their nodes. */
  lemma {:induction false} PassCallsOrder(listing: seq<Node>, pods: seq<Pod>, now: int) returns (at: seq<nat>)
    ensures var calls := PassCalls(listing, pods, now);
            |at| == |calls| && forall i :: 0 <= i < |at| ==> at[i] < |listing| && calls[i].node == listing[at[i]].id
    ensures forall i, j :: 0 <= i < j < |at| ==> at[i] < at[j]
  {
    at := [];
    if listing != [] {
      hide Dead, PodsOn;
      var n := |listing| - 1;
      at := PassCallsOrder(listing[..n], pods, now);
      if CallFor(listing[n], pods, now) != [] {
        at := at + [n];
      }
    }
  }

  /** Exactly one call for each dead worker with pods, with exactly its pods; none for others. */
  lemma PassCallsExact(nodes: Nodes, listing: seq<Node>, pods: seq<Pod>, now: int)
    requires IsListing(listing, nodes)
    ensures var calls := PassCalls(listing, pods, now);
            && (forall i, j :: 0 <= i < j < |calls| ==> calls[i].node != calls[j].node)
            && (forall c :: c in calls <==>
                  && c.time == now && c.pods == PodsOn(pods, c.node) != []
                  && c.node in nodes && SilentFor(nodes[c.node], now, 60))
  {
    hide Dead, SilentFor, PodsOn, PassCalls;
    ListedCalls(listing, pods, now);
    forall id: Id
      ensures DeadListed(listing, now, id) <==> id in nodes && SilentFor(nodes[id], now, 60)
    {
      assert id in nodes ==> Listed(listing, id);
      if id in nodes {
        Thresholds(nodes[id], now);
      }
    }
  }

  /** A pass changes nothing but the status of stale workers: nodes, heartbeats and the rest stay. */
  lemma PassFrame(nodes: Nodes, now: int, id: Id)
    requires id in nodes
    ensures PassNodes(nodes, now).Keys == nodes.Keys
    ensures var n, n' := nodes[id], PassNodes(nodes, now)[id];
            && n' == n.(status := n'.status)
            && n'.lastHeartbeat == n.lastHeartbeat
            && (!SilentFor(n, now, 30) ==> n' == n)
            && (SilentFor(n, now, 30) ==> n'.status == NotReady)
  {
  }

  // ---- The machine ----

  datatype State = State(nodes: Nodes, pods: seq<Pod>, now: int, calls: seq<Call>)

  datatype Event =
    | Register(tokenValid: bool, id: Id, name: string, address: string, resources: Resources)
    | Ping(id: Id, status: string, reported: Option<Resources>)
    | Tick(elapsed: nat)
    | Monitor(listing: seq<Node>)
    | Drain(name: string)
    | Remove(name: string)
    | SetPods(pods: seq<Pod>)

  predicate Enabled(s: State, e: Event) {
    e.Monitor? ==> IsListing(e.listing, s.nodes)
  }

  function Step(s: State, e: Event): State {
    match e
    case Register(ok, id, name, address, resources) =>
      if ok then s.(nodes := Inserted(s.nodes, NewWorker(id, name, address, resources, s.now))) else s
    case Ping(id, status, reported) =>
      if id in s.nodes then s.(nodes := s.nodes[id := Pinged(s.nodes[id], status, reported, s.now)]) else s
    case Tick(elapsed) => s.(now := s.now + elapsed)
    case Monitor(listing) =>
      s.(nodes := PassNodes(s.nodes, s.now), calls := s.calls + PassCalls(listing, s.pods, s.now))
    case Drain(name) => s.(nodes := Drained(s.nodes, name))
    case Remove(name) => s.(nodes := RemovedByName(s.nodes, name))
    case SetPods(pods) => s.(pods := pods)
  }

  function Run(s: State, events: seq<Event>): State {
    if events == [] then s else Step(Run(s, events[..|events| - 1]), events[|events| - 1])
  }

  predicate ValidRun(s: State, events: seq<Event>) {
    forall k :: 0 <= k < |events| ==> Enabled(Run(s, events[..k]), events[k])
  }

  /** Keys are ids, names are unique, and no heartbeat lies in the future. */
  predicate Inv(s: State) {
    && Keyed(s.nodes) && UniqueNames(s.nodes)
    && forall id <- s.nodes :: s.nodes[id].lastHeartbeat <= s.now
  }

  lemma StepInv(s: State, e: Event)
    requires Inv(s)
    ensures Inv(Step(s, e))
    ensures s.now <= Step(s, e).now
  {
  }

  lemma {:induction false} RunInv(s: State, events: seq<Event>)
    requires Inv(s)
    ensures Inv(Run(s, events)) && s.now <= Run(s, events).now
  {
    hide Inv, Step;
    if events != [] {
      var before := events[..|events| - 1];
      RunInv(s, before);
      StepInv(Run(s, before), events[|events| - 1]);
    }
  }

  lemma PrefixOfPrefix(events: seq<Event>, i: nat, j: nat)
    requires i <= j <= |events|
    ensures events[..j][..i] == events[..i]
  {
  }

  lemma RunSnoc(s: State, events: seq<Event>, k: nat)
    requires k < |events|
    ensures Run(s, events[..k + 1]) == Step(Run(s, events[..k]), events[k])
  {
    hide Step;
    PrefixOfPrefix(events, k, k + 1);
    assert events[..k + 1][k] == events[k];
  }

  lemma {:induction false} TimeMonotone(s: State, events: seq<Event>, i: nat, j: nat)
    requires Inv(s) && i <= j <= |events|
    ensures Run(s, events[..i]).now <= Run(s, events[..j]).now
    decreases j
  {
    hide Inv, Step, Run;
    if i < j {
      RunSnoc(s, events, j - 1);
      RunInv(s, events[..j - 1]);
      StepInv(Run(s, events[..j - 1]), events[j - 1]);
      TimeMonotone(s, events, i, j - 1);
    }
  }

  lemma StepHeartbeat(s: State, e: Event, id: Id)
    requires Inv(s) && id in Step(s, e).nodes
    ensures id in s.nodes ==> s.nodes[id].lastHeartbeat <= Step(s, e).nodes[id].lastHeartbeat
    ensures id !in s.nodes ==> Step(s, e).nodes[id].lastHeartbeat == s.now
  {
  }

  lemma HeartbeatPast(s: State, events: seq<Event>, id: Id)
    requires Inv(s) && id in Run(s, events).nodes
    ensures Run(s, events).nodes[id].lastHeartbeat <= Run(s, events).now
  {
    RunInv(s, events);
  }

  /** Heartbeat times never go back, even for an id that is removed and registered again. */
  lemma {:induction false} HeartbeatMonotone(s: State, events: seq<Event>, i: nat, j: nat, id: Id)
    requires Inv(s) && i <= j <= |events|
    requires id in Run(s, events[..i]).nodes && id in Run(s, events[..j]).nodes
    ensures Run(s, events[..i]).nodes[id].lastHeartbeat <= Run(s, events[..j]).nodes[id].lastHeartbeat
    decreases j
  {
    if i < j {
      hide Step, Run, Inv;
      var before := Run(s, events[..j - 1]);
      RunSnoc(s, events, j - 1);
      HeartbeatPast(s, events[..i], id);
      RunInv(s, events[..j - 1]);
      StepHeartbeat(before, events[j - 1], id);
      TimeMonotone(s, events, i, j - 1);
      if id in before.nodes {
        HeartbeatMonotone(s, events, i, j - 1, id);
      }
    }
  }

  // ---- Every row is its own history ----

  /** A registration of this node that goes through: a valid token, a new id and a free name. */
  predicate Registers(s: State, e: Event, id: Id) {
    && e.Register? && e.tokenValid && e.id == id && id !in s.nodes
    && forall other <- s.nodes :: s.nodes[other].name != e.name
  }

  /** What a step makes of one row, told without the table. */
  function RowAfter(s: State, row: Option<Node>, e: Event, id: Id): Option<Node> {
    match e
    case Register(_, _, name, address, resources) =>
      if Registers(s, e, id) then Some(Node(id, name, address, Worker, Ready, resources, s.now)) else row
    case Ping(who, status, reported) =>
      if who != id || row.None? then row
      else
        var known := match status case "ready" => Ready case "draining" => Draining case _ => NotReady;
        var resources := if reported.Some? then reported.value else row.value.resources;
        Some(row.value.(lastHeartbeat := s.now, status := known, resources := resources))
    case Monitor(_) =>
      if row.Some? && SilentFor(row.value, s.now, 30) then Some(row.value.(status := NotReady)) else row
    case Drain(name) =>
      if row.Some? && row.value.name == name then Some(row.value.(status := Draining)) else row
    case Remove(name) =>
      if row.Some? && row.value.name == name && (row.value.status == Draining || row.value.role == Master)
      then None else row
    case Tick(_) => row
    case SetPods(_) => row
  }

  function RowOf(s: State, id: Id): Option<Node> {
    if id in s.nodes then Some(s.nodes[id]) else None
  }

  function RowHistory(s: State, events: seq<Event>, id: Id): Option<Node> {
    if events == [] then RowOf(s, id)
    else
      var before := events[..|events| - 1];
      RowAfter(Run(s, before), RowHistory(s, before, id), events[|events| - 1], id)
  }

  lemma StepRow(s: State, e: Event, id: Id)
    ensures RowOf(Step(s, e), id) == RowAfter(s, RowOf(s, id), e, id)
  {
    if id in s.nodes {
      Thresholds(s.nodes[id], s.now);
    }
  }

  /**
   * Over every run each row is what its own registrations, pings, drains, removals and the monitor
   * passes over it made of it: name, address, role, status, resources and heartbeat.
   */
  lemma {:induction false} RowIsItsHistory(s: State, events: seq<Event>, id: Id)
    ensures RowOf(Run(s, events), id) == RowHistory(s, events, id)
  {
    if events != [] {
      hide Step, RowAfter;
      var before := events[..|events| - 1];
      RowIsItsHistory(s, before, id);
      StepRow(Run(s, before), events[|events| - 1], id);
    }
  }

  // ---- Removal needs draining ----

  /** The status a step writes into a row, if it writes one. */
  function Written(s: State, e: Event, id: Id): Option<Status> {
    match e
    case Register(_, _, _, _, _) => if id !in s.nodes && id in Step(s, e).nodes then Some(Ready) else None
    case Ping(who, status, _) => if who == id && id in s.nodes then Some(ParseStatus(status)) else None
    case Monitor(_) => if id in s.nodes && Stale(s.nodes[id], s.now) then Some(NotReady) else None
    case Drain(name) => if id in s.nodes && s.nodes[id].name == name then Some(Draining) else None
    case Tick(_) => None
    case Remove(_) => None
    case SetPods(_) => None
  }

  /** The latest status written into a row during a run. */
  function LastWritten(s: State, events: seq<Event>, id: Id): Option<Status> {
    if events == [] then None
    else
      var before, e := events[..|events| - 1], events[|events| - 1];
      var w := Written(Run(s, before), e, id);
      if w.Some? then w else LastWritten(s, before, id)
  }

  lemma StepStatus(s: State, e: Event, id: Id)
    requires id in Step(s, e).nodes
    ensures var w := Written(s, e, id);
            if w.Some? then Step(s, e).nodes[id].status == w.value
            else id in s.nodes && Step(s, e).nodes[id].status == s.nodes[id].status
  {
  }

  lemma {:induction false} StatusIsLastWritten(s: State, events: seq<Event>, id: Id)
    requires id in Run(s, events).nodes
    ensures var w := LastWritten(s, events, id);
            if w.Some? then Run(s, events).nodes[id].status == w.value
            else id in s.nodes && Run(s, events).nodes[id].status == s.nodes[id].status
  {
    if events != [] {
      hide Step, Written;
      var before, e := events[..|events| - 1], events[|events| - 1];
      StepStatus(Run(s, before), e, id);
      if Written(Run(s, before), e, id).None? {
        StatusIsLastWritten(s, before, id);
      }
    }
  }

  /** The status a row has by the writes of a run, or by the start if none wrote it. */
  function CurrentStatus(s: State, events: seq<Event>, id: Id): Option<Status> {
    var w := LastWritten(s, events, id);
    if w.Some? then w else if id in s.nodes then Some(s.nodes[id].status) else None
  }

  /**
   * From any start, masters included, a row disappears exactly by a removal under its name, of a
   * master or of a worker whose latest status (by its registration, a drain, a ping or the monitor)
   * is Draining.
   */
  lemma {:induction false} DeletedExactly(s: State, events: seq<Event>, e: Event, id: Id)
    requires id in Run(s, events).nodes
    ensures var node := Run(s, events).nodes[id];
            id !in Step(Run(s, events), e).nodes <==>
              e == Remove(node.name) &&
              (node.role == Master || CurrentStatus(s, events, id) == Some(Draining))
  {
    StatusIsLastWritten(s, events, id);
    StepDeletes(Run(s, events), e, id);
  }

  lemma StepDeletes(s: State, e: Event, id: Id)
    requires id in s.nodes
    ensures id !in Step(s, e).nodes <==> e == Remove(s.nodes[id].name) && Removable(s.nodes[id])
  {
  }

  // ---- Draining is not sticky ----

  /** A step after which a row is not Draining any more, whatever it was. */
  predicate Undrains(s: State, e: Event, id: Id) {
    || (e.Ping? && e.id == id && id in s.nodes && e.status != "draining")
    || (e.Monitor? && id in s.nodes && SilentFor(s.nodes[id], s.now, 30))
    || (e.Register? && id !in s.nodes && id in Step(s, e).nodes)
  }

  /** A step after which a row is Draining, whatever it was. */
  predicate Drains(s: State, e: Event, id: Id) {
    || (e.Ping? && e.id == id && id in s.nodes && e.status == "draining")
    || (e.Drain? && id in s.nodes && s.nodes[id].name == e.name)
  }

  lemma WritesDraining(s: State, e: Event, id: Id)
    ensures Drains(s, e, id) <==> Written(s, e, id) == Some(Draining)
    ensures Undrains(s, e, id) <==> Written(s, e, id).Some? && Written(s, e, id) != Some(Draining)
  {
    hide Step;
  }

  /** Step `k` undoes the draining, and no later step of the run drains again. */
  predicate UndoneAt(s: State, events: seq<Event>, id: Id, k: nat) {
    && k < |events| && Undrains(Run(s, events[..k]), events[k], id)
    && forall m :: k < m < |events| ==> !Drains(Run(s, events[..m]), events[m], id)
  }

  lemma UndonePrefix(s: State, events: seq<Event>, id: Id, k: nat)
    requires events != [] && k < |events| - 1
    ensures var n := |events| - 1;
            UndoneAt(s, events, id, k) <==>
              UndoneAt(s, events[..n], id, k) && !Drains(Run(s, events[..n]), events[n], id)
  {
    hide Undrains, Drains, Run;
    var n := |events| - 1;
    assert forall m :: 0 <= m <= n ==> events[..n][..m] == events[..m];
  }

  ghost predicate Undone(s: State, events: seq<Event>, id: Id, i: nat) {
    exists k: nat :: i < k && UndoneAt(s, events, id, k)
  }

  lemma UndoneStep(s: State, events: seq<Event>, id: Id, i: nat)
    requires events != [] && i < |events| - 1
    ensures var n := |events| - 1;
            var at := Run(s, events[..n]);
            Undone(s, events, id, i) <==>
              Undrains(at, events[n], id) || (Undone(s, events[..n], id, i) && !Drains(at, events[n], id))
  {
    hide Undrains, Drains, Run;
    var n := |events| - 1;
    var at := Run(s, events[..n]);
    if Undrains(at, events[n], id) {
      assert UndoneAt(s, events, id, n);
    } else {
      assert !UndoneAt(s, events, id, n);
      hide UndoneAt;
      if k: nat :| i < k && UndoneAt(s, events, id, k) {
        UndoneEarly(s, events, id, k);
        UndonePrefix(s, events, id, k);
      }
      if k: nat :| i < k && UndoneAt(s, events[..n], id, k) {
        UndoneEarly(s, events[..n], id, k);
        UndonePrefix(s, events, id, k);
      }
    }
  }

  lemma UndoneEarly(s: State, events: seq<Event>, id: Id, k: nat)
    requires UndoneAt(s, events, id, k)
    ensures k < |events|
  {
  }

  /**
   * A node drained at step `i` has lost that status at the end of a run exactly when some later
   * step undid it (a ping with any status but "draining", a monitor pass that found it stale, or a
   * registration after its removal) and no step after that drained it again.
   */
  lemma {:induction false} DrainUndoneExactly(s: State, events: seq<Event>, id: Id, i: nat)
    requires i < |events| && Drains(Run(s, events[..i]), events[i], id)
    requires id in Run(s, events).nodes
    ensures Run(s, events).nodes[id].status != Draining <==> Undone(s, events, id, i)
    decreases |events|
  {
    var n := |events| - 1;
    var before, e := events[..n], events[n];
    var at := Run(s, before);
    if i == n {
      NothingAfter(s, events, id);
    }
    hide Step, Written, Drains, Undrains, Undone;
    StepStatus(at, e, id);
    WritesDraining(at, e, id);
    if i < n {
      assert before[..i] == events[..i];
      UndoneStep(s, events, id, i);
      if Written(at, e, id).None? {
        DrainUndoneExactly(s, before, id, i);
      }
    }
  }

  lemma NothingAfter(s: State, events: seq<Event>, id: Id)
    requires events != []
    ensures !Undone(s, events, id, |events| - 1)
  {
  }

  /** Two such steps for any worker: its next ready ping, and a pass that finds it stale. */
  lemma DrainUndone(s: State, id: Id, e: Event)
    requires id in s.nodes && s.nodes[id].role == Worker
    requires (e.Ping? && e.id == id && e.status == "ready") || (e.Monitor? && SilentFor(s.nodes[id], s.now, 30))
    ensures var name := s.nodes[id].name;
            var end := Run(s, [Drain(name), e, Remove(name)]);
            id in end.nodes && end.nodes[id].status == if e.Ping? then Ready else NotReady
  {
    var name := s.nodes[id].name;
    var events := [Drain(name), e, Remove(name)];
    assert events[..2] == [Drain(name), e] && events[..2][..1] == [Drain(name)];
    assert [Drain(name)][..0] == [];
    var s1 := Step(s, Drain(name));
    assert s1.nodes[id] == s.nodes[id].(status := Draining) && Run(s, [Drain(name)]) == s1;
    var s2 := Step(s1, e);
    assert s2.nodes[id].status != Draining && s2.nodes[id].role == Worker;
    assert Run(s, events[..2]) == s2;
  }

  // ---- Bounded detection ----

  /** No step of the run is a ping, drain or removal of this worker. */
  predicate Untouched(events: seq<Event>, id: Id, name: string) {
    forall k :: 0 <= k < |events| ==>
      && !(events[k].Ping? && events[k].id == id)
      && events[k] != Drain(name) && events[k] != Remove(name)
  }

  /** By the end of the run, a monitor pass happened no longer ago than ten seconds. */
  predicate RecentPass(s: State, events: seq<Event>, m: nat) {
    m < |events| && events[m].Monitor? &&
    Run(s, events[..m]).now >= Run(s, events).now - 10 * SECOND
  }

  /** Monitor passes are never further apart than ten seconds. */
  ghost predicate MonitorRegular(s: State, events: seq<Event>) {
    forall k :: 0 <= k <= |events| && Run(s, events[..k]).now > s.now + 10 * SECOND ==>
      exists m :: RecentPass(s, events[..k], m)
  }

  lemma StepUntouched(s: State, e: Event, id: Id)
    requires Inv(s) && id in s.nodes && s.nodes[id].role == Worker
    requires Untouched([e], id, s.nodes[id].name)
    ensures var s' := Step(s, e);
            && id in s'.nodes
            && s'.nodes[id] == s.nodes[id].(status := s'.nodes[id].status)
            && (s.nodes[id].status == NotReady ==> s'.nodes[id].status == NotReady)
            && (e.Monitor? && Stale(s.nodes[id], s.now) ==> s'.nodes[id].status == NotReady)
  {
    assert [e][0] == e;
  }

  lemma {:induction false} RunUntouched(s: State, events: seq<Event>, id: Id)
    requires Inv(s) && id in s.nodes && s.nodes[id].role == Worker
    requires Untouched(events, id, s.nodes[id].name)
    ensures var s' := Run(s, events);
            id in s'.nodes && s'.nodes[id] == s.nodes[id].(status := s'.nodes[id].status)
  {
    if events != [] {
      hide Step, Inv;
      var before, e := events[..|events| - 1], events[|events| - 1];
      RunInv(s, before);
      RunUntouched(s, before, id);
      assert Untouched([e], id, s.nodes[id].name);
      StepUntouched(Run(s, before), e, id);
    }
  }

  /** Once a pass found the worker stale, it is NotReady from then on. */
  lemma {:induction false} NotReadyFromPass(s: State, events: seq<Event>, id: Id, m: nat)
    requires Inv(s) && id in s.nodes && s.nodes[id].role == Worker
    requires Untouched(events, id, s.nodes[id].name)
    requires m < |events| && events[m].Monitor?
    requires Run(s, events[..m]).now - s.nodes[id].lastHeartbeat >= 30 * SECOND
    ensures id in Run(s, events).nodes && Run(s, events).nodes[id].status == NotReady
    decreases |events|
  {
    hide Step, Inv, Run;
    var n := |events| - 1;
    var before, e := events[..n], events[n];
    assert events[..|events|] == events;
    RunSnoc(s, events, n);
    RunInv(s, before);
    RunUntouched(s, before, id);
    assert Untouched([e], id, s.nodes[id].name);
    StepUntouched(Run(s, before), e, id);
    if m < n {
      PrefixOfPrefix(events, m, n);
      NotReadyFromPass(s, before, id, m);
    }
  }

  /**
   * Bounded detection: with regular passes, a worker last pinged at the start of the run and left
   * alone since is NotReady 40 seconds later.
   */
  lemma SilentWorkerDetected(s: State, events: seq<Event>, id: Id)
    requires Inv(s) && id in s.nodes && s.nodes[id].role == Worker && s.nodes[id].lastHeartbeat == s.now
    requires Untouched(events, id, s.nodes[id].name) && MonitorRegular(s, events)
    requires Run(s, events).now >= s.now + 40 * SECOND
    ensures id in Run(s, events).nodes && Run(s, events).nodes[id].status == NotReady
  {
    hide Step, Inv, Run, Untouched;
    assert events[..|events|] == events;
    var m: nat :| RecentPass(s, events[..|events|], m);
    PrefixOfPrefix(events, m, |events|);
    NotReadyFromPass(s, events, id, m);
  }

  /** The pod is assigned to the worker in every state of the run. */
  predicate StaysAssigned(s: State, events: seq<Event>, p: Pod, id: Id) {
    p.node == Some(id) && forall k :: 0 <= k <= |events| ==> p in Run(s, events[..k]).pods
  }

  lemma {:induction false} CallsGrow(s: State, events: seq<Event>, k: nat, c: Call)
    requires k <= |events| && c in Run(s, events[..k]).calls
    ensures c in Run(s, events).calls
    decreases |events|
  {
    var n := |events| - 1;
    if k <= n {
      PrefixOfPrefix(events, k, n);
      CallsGrow(s, events[..n], k, c);
    } else {
      assert events[..k] == events;
    }
  }

  lemma {:induction false} PodsOnMember(pods: seq<Pod>, p: Pod, id: Id)
    requires p in pods && p.node == Some(id)
    ensures p in PodsOn(pods, id)
  {
    if pods[0] != p {
      PodsOnMember(pods[1..], p, id);
    }
  }

  lemma PassHandsOver(s: State, listing: seq<Node>, p: Pod, id: Id)
    requires Enabled(s, Monitor(listing)) && id in s.nodes && Dead(s.nodes[id], s.now)
    requires p in s.pods && p.node == Some(id)
    ensures Call(s.now, id, PodsOn(s.pods, id)) in Step(s, Monitor(listing)).calls
    ensures p in PodsOn(s.pods, id)
  {
    Thresholds(s.nodes[id], s.now);
    hide Dead, SilentFor, PodsOn, PassCalls, PassNodes;
    PodsOnMember(s.pods, p, id);
    PassCallsExact(s.nodes, listing, s.pods, s.now);
    var c := Call(s.now, id, PodsOn(s.pods, id));
    assert c in PassCalls(listing, s.pods, s.now);
  }

  /** And 70 seconds later each pod that stayed assigned to it was handed to `reschedule`. */
  lemma SilentWorkerRescheduled(s: State, events: seq<Event>, id: Id, p: Pod) returns (c: Call)
    requires Inv(s) && id in s.nodes && s.nodes[id].role == Worker && s.nodes[id].lastHeartbeat == s.now
    requires ValidRun(s, events)
    requires Untouched(events, id, s.nodes[id].name) && MonitorRegular(s, events)
    requires StaysAssigned(s, events, p, id)
    requires Run(s, events).now >= s.now + 70 * SECOND
    ensures c in Run(s, events).calls && c.node == id && p in c.pods
    ensures s.now + 60 * SECOND <= c.time <= Run(s, events).now
  {
    hide Step, Run, PodsOn;
    assert events[..|events|] == events;
    var m: nat :| RecentPass(s, events[..|events|], m);
    PrefixOfPrefix(events, m, |events|);
    var at := Run(s, events[..m]);
    RunUntouched(s, events[..m], id);
    assert Enabled(at, events[m]);
    PassHandsOver(at, events[m].listing, p, id);
    c := Call(at.now, id, PodsOn(at.pods, id));
    RunSnoc(s, events, m);
    CallsGrow(s, events, m + 1, c);
    TimeMonotone(s, events, m, |events|);
  }

  // ---- Detection from the registration on ----

  /** A registration that goes through stores a Ready worker with what the request said. */
  lemma RegistrationStored(s: State, e: Event, id: Id)
    requires Registers(s, e, id)
    ensures RowOf(Step(s, e), id) == Some(Node(id, e.name, e.address, Worker, Ready, e.resources, s.now))
    ensures forall other :: other != id ==> RowOf(Step(s, e), other) == RowOf(s, other)
    ensures Step(s, e).now == s.now
  {
    assert e.Register?;
    StepTime(s, e);
    OthersNotRegistered(s, e, id);
    FreshRow(s, e, id);
    hide Step, Registers, RowOf, RowAfter;
    forall other: Id {
      StepRow(s, e, other);
    }
  }

  lemma StepTime(s: State, e: Event)
    requires e.Register?
    ensures Step(s, e).now == s.now
  {
  }

  lemma OthersNotRegistered(s: State, e: Event, id: Id)
    requires Registers(s, e, id)
    ensures forall other, row :: other != id ==> RowAfter(s, row, e, other) == row
  {
  }

  lemma FreshRow(s: State, e: Event, id: Id)
    requires Registers(s, e, id)
    ensures RowAfter(s, RowOf(s, id), e, id) ==
            Some(Node(id, e.name, e.address, Worker, Ready, e.resources, s.now))
  {
  }

  lemma RegisteredWorker(s: State, e: Event, id: Id)
    requires Inv(s) && Registers(s, e, id)
    ensures var s1 := Step(s, e);
            && Inv(s1) && id in s1.nodes && s1.now == s.now && s1.nodes[id].role == Worker
            && s1.nodes[id].name == e.name && s1.nodes[id].lastHeartbeat == s1.now
  {
    RegistrationStored(s, e, id);
    hide Step, Registers, Inv;
    StepInv(s, e);
  }

  /**
   * A node that registers and is never heard of again is NotReady 40 seconds later, if passes are
   * regular from then on.
   */
  lemma RegisteredDetected(s: State, e: Event, events: seq<Event>, id: Id)
    requires Inv(s) && Registers(s, e, id) && Untouched(events, id, e.name)
    requires MonitorRegular(Step(s, e), events)
    requires Run(Step(s, e), events).now >= s.now + 40 * SECOND
    ensures id in Run(Step(s, e), events).nodes && Run(Step(s, e), events).nodes[id].status == NotReady
  {
    hide Step, Inv, Run, Untouched, MonitorRegular, Registers;
    RegisteredWorker(s, e, id);
    SilentWorkerDetected(Step(s, e), events, id);
  }

  /** And 70 seconds later each pod that stayed assigned to it since was handed to `reschedule`. */
  lemma RegisteredRescheduled(s: State, e: Event, events: seq<Event>, id: Id, p: Pod) returns (c: Call)
    requires Inv(s) && Registers(s, e, id) && Untouched(events, id, e.name)
    requires MonitorRegular(Step(s, e), events) && ValidRun(Step(s, e), events)
    requires StaysAssigned(Step(s, e), events, p, id)
    requires Run(Step(s, e), events).now >= s.now + 70 * SECOND
    ensures c in Run(Step(s, e), events).calls && c.node == id && p in c.pods
    ensures s.now + 60 * SECOND <= c.time <= Run(Step(s, e), events).now
  {
    hide Step, Inv, Run, Untouched, MonitorRegular, Registers, ValidRun, StaysAssigned;
    RegisteredWorker(s, e, id);
    c := SilentWorkerRescheduled(Step(s, e), events, id, p);
  }
}
