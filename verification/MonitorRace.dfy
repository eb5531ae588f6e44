/**
 * The handlers are not atomic: the monitor lists the nodes, then reads the clock, then writes rows
 * back one at a time; a ping and a drain read a row and write it back later. A row is always written
 * whole, so a write of a row read earlier also restores its old heartbeat.
 */
module MonitorRace {
  import opened Wrappers
  import opened Membership

  datatype Phase =
    | Idle
    | Took(listing: seq<Node>, takenAt: int)
    | Checking(left: seq<Node>, clock: int)

  datatype State = State(nodes: Nodes, pods: seq<Pod>, now: int, calls: seq<Call>, phase: Phase)

  /**
   * Everything that writes the tables. A ping and a drain are the writes of their handlers: `row` is
   * the row they read some time before, and `stamp` the clock a ping read after that. An insert is a
   * registration that succeeds.
   */
  datatype Event =
    | Ping(row: Node, status: string, reported: Option<Resources>, stamp: int)
    | Drain(row: Node)
    | Insert(node: Node)
    | Delete(id: Id)
    | SetPods(pods: seq<Pod>)
    | Tick(elapsed: nat)
    | TakeListing(listing: seq<Node>)
    | ReadClock
    | CheckNext

  predicate Enabled(s: State, e: Event) {
    match e
    case Ping(_, _, _, stamp) => stamp <= s.now
    case Insert(node) => node.id !in s.nodes && !NameTaken(s.nodes, node.name) && node.lastHeartbeat <= s.now
    case TakeListing(listing) => s.phase.Idle? && IsListing(listing, s.nodes)
    case ReadClock => s.phase.Took?
    case CheckNext => s.phase.Checking?
    case _ => true
  }

  function CheckRow(s: State, row: Node, clock: int): State {
    s.(nodes := WrittenBack(s.nodes, row, clock), calls := s.calls + CallFor(row, s.pods, clock))
  }

  /** The rows that the monitor writes back: workers silent for 30 seconds and not NotReady. */
  predicate WritesBack(row: Node, clock: int) {
    SilentFor(row, clock, 30) && row.status != NotReady
  }

  function Step(s: State, e: Event): State
    requires Enabled(s, e)
  {
    match e
    case Ping(row, status, reported, stamp) => s.(nodes := Updated(s.nodes, Pinged(row, status, reported, stamp)))
    case Drain(row) => s.(nodes := Updated(s.nodes, row.(status := Draining)))
    case Insert(node) => s.(nodes := Inserted(s.nodes, node))
    case Delete(id) => s.(nodes := s.nodes - {id})
    case SetPods(pods) => s.(pods := pods)
    case Tick(elapsed) => s.(now := s.now + elapsed)
    case TakeListing(listing) => s.(phase := Took(listing, s.now))
    case ReadClock => s.(phase := Checking(s.phase.listing, s.now))
    case CheckNext =>
      if s.phase.left == [] then s.(phase := Idle)
      else CheckRow(s, s.phase.left[0], s.phase.clock).(phase := Checking(s.phase.left[1..], s.phase.clock))
  }

  predicate HasRow(s: State, row: Node) {
    row.id in s.nodes && s.nodes[row.id] == row
  }

  /** The row that a ping or a drain writes was read in one of these states. */
  predicate ReadBefore(states: seq<State>, e: Event) {
    e.Ping? || e.Drain? ==> exists j :: 0 <= j < |states| && HasRow(states[j], e.row)
  }

  /** A run: states and the events between them. */
  predicate IsRun(states: seq<State>, events: seq<Event>) {
    && |states| == |events| + 1
    && forall k :: 0 <= k < |events| ==>
         Enabled(states[k], events[k]) && states[k + 1] == Step(states[k], events[k]) &&
         ReadBefore(states[..k + 1], events[k])
  }

  // ---- No false alarm ----

  predicate Pings(e: Event, id: Id) {
    e.Ping? && e.row.id == id
  }

  predicate Drains(e: Event, id: Id) {
    e.Drain? && e.row.id == id
  }

  predicate Inserts(e: Event, id: Id) {
    e.Insert? && e.node.id == id
  }

  /** The clock that a ping or a registration of this node carries, if the event is one. */
  function Stamp(e: Event, id: Id): Option<int> {
    if Pings(e, id) then Some(e.stamp) else if Inserts(e, id) then Some(e.node.lastHeartbeat) else None
  }

  /** The stamp of the latest ping or registration, or a time to start with. */
  function LatestStamp(events: seq<Event>, id: Id, initial: int): int {
    if events == [] then initial
    else
      var stamp := Stamp(events[|events| - 1], id);
      if stamp.Some? then stamp.value else LatestStamp(events[..|events| - 1], id, initial)
  }

  /** The status of the latest ping, or the one to start with. */
  function LatestStatus(events: seq<Event>, id: Id, initial: Status): Status {
    if events == [] then initial
    else
      var e := events[|events| - 1];
      if Pings(e, id) then ParseStatus(e.status) else LatestStatus(events[..|events| - 1], id, initial)
  }

  /** At every point of the run the latest ping is at most `g` old. */
  predicate PingsWithin(states: seq<State>, events: seq<Event>, id: Id, initial: int, g: int)
    requires |states| == |events| + 1
  {
    forall k :: 0 <= k <= |events| ==> LatestStamp(events[..k], id, initial) >= states[k].now - g
  }

  /** The monitor reads its clock at most `d` after it listed the nodes. */
  predicate ClockWithin(states: seq<State>, events: seq<Event>, d: int)
    requires |states| == |events| + 1
  {
    forall k :: 0 <= k < |events| && events[k].ReadClock? && states[k].phase.Took? ==>
      states[k].now - states[k].phase.takenAt <= d
  }

  /** Nobody drains or deletes the node. */
  predicate LeftAlone(events: seq<Event>, id: Id) {
    forall k :: 0 <= k < |events| ==> !Drains(events[k], id) && events[k] != Delete(id)
  }

  predicate FreshRows(rows: seq<Node>, id: Id, at: int) {
    forall i :: 0 <= i < |rows| && rows[i].id == id ==> rows[i].lastHeartbeat > at
  }

  /** What every state of such a run keeps. */
  predicate Safe(s: State, id: Id, stamp: int, status: Status, d: int) {
    && id in s.nodes && s.nodes[id].id == id
    && s.nodes[id].lastHeartbeat == stamp && s.nodes[id].status == status
    && match s.phase
       case Idle => true
       case Took(listing, takenAt) => FreshRows(listing, id, takenAt + d - NOT_READY_THRESHOLD)
       case Checking(left, clock) => FreshRows(left, id, clock - NOT_READY_THRESHOLD)
  }

  lemma WriterSafe(s: State, e: Event, id: Id, stamp: int, status: Status, d: int)
    requires Safe(s, id, stamp, status, d) && Enabled(s, e) && !Drains(e, id) && e != Delete(id)
    requires !e.TakeListing? && !e.ReadClock? && !e.CheckNext?
    ensures Stamp(e, id).Some? ==> Pings(e, id)
    ensures Safe(Step(s, e), id, if Pings(e, id) then e.stamp else stamp,
                 if Pings(e, id) then ParseStatus(e.status) else status, d)
    ensures Step(s, e).calls == s.calls
  {
  }

  lemma ListingSafe(s: State, e: Event, id: Id, stamp: int, status: Status, g: int, d: int)
    requires Safe(s, id, stamp, status, d) && Enabled(s, e) && g + d < NOT_READY_THRESHOLD
    requires (e.TakeListing? && stamp >= s.now - g) || (e.ReadClock? && s.now - s.phase.takenAt <= d)
    ensures Safe(Step(s, e), id, stamp, status, d)
    ensures Step(s, e).calls == s.calls
  {
  }

  lemma CheckSafe(s: State, id: Id, stamp: int, status: Status, d: int)
    requires Safe(s, id, stamp, status, d) && Enabled(s, CheckNext)
    ensures Safe(Step(s, CheckNext), id, stamp, status, d)
    ensures Step(s, CheckNext).nodes[id] == s.nodes[id]
    ensures forall c :: c in Step(s, CheckNext).calls && c.node == id ==> c in s.calls
  {
    if s.phase.left != [] {
      var first := s.phase.left[0];
      assert first.id == id ==> first.lastHeartbeat > s.phase.clock - NOT_READY_THRESHOLD;
      assert first.id == id ==> !Stale(first, s.phase.clock) && !Dead(first, s.phase.clock);
      assert forall i :: 0 <= i < |s.phase.left[1..]| ==> s.phase.left[1..][i] == s.phase.left[i + 1];
    }
  }

  /**
   * No false alarm: if the latest ping of a worker is never more than `g` old, the clock is read at
   * most `d` after the listing, `g + d` is below 30 seconds and nobody drains or deletes the worker,
   * then its heartbeat and its status are always those of its latest ping (or those it started with),
   * no check ever changes its row, and its pods are never rescheduled.
   */
  lemma {:induction false} NoFalseAlarm(states: seq<State>, events: seq<Event>, id: Id, g: int, d: int, k: nat)
    requires IsRun(states, events) && k <= |events|
    requires states[0].phase.Idle? && id in states[0].nodes && states[0].nodes[id].id == id
    requires g + d < 30 * SECOND
    requires PingsWithin(states, events, id, states[0].nodes[id].lastHeartbeat, g)
    requires ClockWithin(states, events, d) && LeftAlone(events, id)
    ensures Safe(states[k], id, LatestStamp(events[..k], id, states[0].nodes[id].lastHeartbeat),
                 LatestStatus(events[..k], id, states[0].nodes[id].status), d)
    ensures k > 0 && events[k - 1].CheckNext? ==>
              id in states[k - 1].nodes && states[k].nodes[id] == states[k - 1].nodes[id]
    ensures forall c :: c in states[k].calls && c.node == id ==> c in states[0].calls
    decreases k
  {
    if k > 0 {
      NoFalseAlarm(states, events, id, g, d, k - 1);
      var s, e := states[k - 1], events[k - 1];
      var stamp := LatestStamp(events[..k - 1], id, states[0].nodes[id].lastHeartbeat);
      var status := LatestStatus(events[..k - 1], id, states[0].nodes[id].status);
      assert id in s.nodes;
      hide Step, Safe, Updated, CallFor, ReadBefore;
      assert states[k] == Step(s, e);
      assert events[..k][..k - 1] == events[..k - 1] && events[..k][k - 1] == e;
      match e {
        case TakeListing(_) => ListingSafe(s, e, id, stamp, status, g, d);
        case ReadClock => ListingSafe(s, e, id, stamp, status, g, d);
        case CheckNext => CheckSafe(s, id, stamp, status, d);
        case _ => WriterSafe(s, e, id, stamp, status, d);
      }
    }
  }

  // ---- What a racing check loses ----

  /** The row that a check step is about to look at. */
  predicate Checks(s: State, e: Event, id: Id) {
    e.CheckNext? && s.phase.Checking? && s.phase.left != [] && s.phase.left[0].id == id
  }

  /** A check that writes back a row listed before a newer heartbeat arrived. */
  predicate LosesToCheck(s: State, e: Event, id: Id) {
    && Checks(s, e, id) && id in s.nodes && WritesBack(s.phase.left[0], s.phase.clock)
    && s.phase.left[0].lastHeartbeat < s.nodes[id].lastHeartbeat
  }

  /** A drain that writes back a row read before a newer heartbeat arrived. */
  predicate LosesToDrain(s: State, e: Event, id: Id) {
    Drains(e, id) && id in s.nodes && e.row.lastHeartbeat < s.nodes[id].lastHeartbeat
  }

  /** Which single steps move a heartbeat back: no others, whoever takes them. */
  lemma GoesBackStep(s: State, e: Event, id: Id)
    requires Enabled(s, e) && id in s.nodes
    ensures id in Step(s, e).nodes <==> e != Delete(id)
    ensures e != Delete(id) ==>
              (Step(s, e).nodes[id].lastHeartbeat < s.nodes[id].lastHeartbeat <==>
                 || (Pings(e, id) && e.stamp < s.nodes[id].lastHeartbeat)
                 || LosesToDrain(s, e, id) || LosesToCheck(s, e, id))
  {
    hide CallFor;
  }

  /** `rows` is what is left to check of the listing taken at step `a`. */
  predicate LeftOf(rows: seq<Node>, states: seq<State>, events: seq<Event>, a: nat)
    requires a < |events| < |states|
  {
    events[a].TakeListing? && |rows| <= |events[a].listing| &&
    rows == events[a].listing[|events[a].listing| - |rows|..]
  }

  /** Step `a` took the listing and step `b` the clock that the monitor works with at state `k`. */
  predicate PassAt(states: seq<State>, events: seq<Event>, a: nat, b: nat, k: nat)
    requires IsRun(states, events) && a < |events| && k <= |events|
  {
    a < k &&
    match states[k].phase
    case Idle => false
    case Took(listing, takenAt) =>
      LeftOf(listing, states, events, a) && takenAt == states[a].now
    case Checking(left, clock) =>
      a < b < k && LeftOf(left, states, events, a) && events[b].ReadClock? && clock == states[b].now
  }

  function ClockStep(e: Event, k: nat, b: nat): nat {
    if e.ReadClock? then k else b
  }

  lemma PassStarts(states: seq<State>, events: seq<Event>, a: nat)
    requires IsRun(states, events) && a < |events| && events[a].TakeListing?
    ensures PassAt(states, events, a, a, a + 1)
  {
    assert states[a + 1] == Step(states[a], events[a]);
  }

  lemma NextPhase(s: State, e: Event)
    requires Enabled(s, e)
    ensures Step(s, e).phase ==
            match e
            case TakeListing(listing) => Took(listing, s.now)
            case ReadClock => Checking(s.phase.listing, s.now)
            case CheckNext => if s.phase.left == [] then Idle else Checking(s.phase.left[1..], s.phase.clock)
            case _ => s.phase
  {
    hide CallFor, Updated, Inserted;
  }

  lemma PassGoesOn(states: seq<State>, events: seq<Event>, a: nat, b: nat, k: nat)
    requires IsRun(states, events) && a < k < |events| && PassAt(states, events, a, b, k)
    requires !states[k + 1].phase.Idle?
    ensures !events[k].TakeListing? && PassAt(states, events, a, ClockStep(events[k], k, b), k + 1)
    ensures states[k].phase.Checking? ==>
              !events[k].ReadClock? && states[k + 1].phase.Checking? &&
              |states[k + 1].phase.left| <= |states[k].phase.left|
  {
    hide Step, ReadBefore, IsListing;
    assert states[k + 1] == Step(states[k], events[k]);
    NextPhase(states[k], events[k]);
    if events[k].CheckNext? {
      LeftShorter(states[k].phase.left, states, events, a);
    }
  }

  lemma LeftShorter(rows: seq<Node>, states: seq<State>, events: seq<Event>, a: nat)
    requires a < |events| < |states| && LeftOf(rows, states, events, a) && rows != []
    ensures LeftOf(rows[1..], states, events, a)
  {
  }

  lemma BusyOnlyAfterListing(s: State, e: Event)
    requires Enabled(s, e) && s.phase.Idle? && !Step(s, e).phase.Idle?
    ensures e.TakeListing?
  {
    hide Step;
    NextPhase(s, e);
  }

  /** Before the clock is read it does not matter which step will read it. */
  lemma ClockUnread(states: seq<State>, events: seq<Event>, a: nat, b: nat, b': nat, k: nat)
    requires IsRun(states, events) && a < |events| && k <= |events|
    requires PassAt(states, events, a, b, k) && !states[k].phase.Checking?
    ensures PassAt(states, events, a, b', k)
  {
  }

  /** Whenever the monitor is busy, it works on the listing and the clock of one pass. */
  lemma {:induction false} PassOrigin(states: seq<State>, events: seq<Event>, k: nat) returns (a: nat, b: nat)
    requires IsRun(states, events) && k <= |events| && states[0].phase.Idle? && !states[k].phase.Idle?
    ensures a < k && a < |events| && events[a].TakeListing? && PassAt(states, events, a, b, k)
    ensures forall i :: a < i < k ==> !events[i].TakeListing? && PassAt(states, events, a, b, i)
    ensures forall i :: a < i < k && states[i].phase.Checking? ==>
              states[k].phase.Checking? && |states[k].phase.left| <= |states[i].phase.left|
    decreases k
  {
    hide PassAt, Step, ReadBefore;
    var s, e := states[k - 1], events[k - 1];
    assert states[k] == Step(s, e);
    if s.phase.Idle? {
      BusyOnlyAfterListing(s, e);
      a, b := k - 1, k - 1;
      PassStarts(states, events, a);
    } else {
      var clock;
      a, clock := PassOrigin(states, events, k - 1);
      b := ClockStep(e, k - 1, clock);
      PassGoesOn(states, events, a, clock, k - 1);
      forall i | a < i < k
        ensures !events[i].TakeListing? && PassAt(states, events, a, b, i)
      {
        if !states[i].phase.Checking? {
          ClockUnread(states, events, a, clock, b, i);
        }
      }
    }
  }

  /** The heartbeat in the latest write of the row by anyone but the monitor. */
  function LatestBeat(events: seq<Event>, id: Id, initial: int): int {
    if events == [] then initial
    else
      var e := events[|events| - 1];
      if Pings(e, id) then e.stamp
      else if Drains(e, id) then e.row.lastHeartbeat
      else LatestBeat(events[..|events| - 1], id, initial)
  }

  /** Until its own check, a listed row that is not deleted has the heartbeat of its latest write. */
  lemma {:induction false} HeartbeatBeforeCheck(
    states: seq<State>, events: seq<Event>, a: nat, b: nat, c: nat, id: Id, k: nat)
    requires IsRun(states, events) && a < k <= c < |events|
    requires events[a].TakeListing? && id in states[a].nodes
    requires states[c].phase.Checking? && states[c].phase.left != [] && states[c].phase.left[0].id == id
    requires forall i :: a < i <= c ==>
               && PassAt(states, events, a, b, i)
               && (states[i].phase.Checking? ==> |states[c].phase.left| <= |states[i].phase.left|)
    requires forall i :: a < i < c ==> events[i] != Delete(id)
    ensures id in states[k].nodes
    ensures states[k].nodes[id].lastHeartbeat ==
            LatestBeat(events[a..k], id, states[a].nodes[id].lastHeartbeat)
    decreases k
  {
    hide Step, PassAt, ReadBefore;
    var s, e := states[k - 1], events[k - 1];
    assert states[k] == Step(s, e);
    assert events[a..k][..k - 1 - a] == events[a..k - 1] && events[a..k][k - 1 - a] == e;
    if k == a + 1 {
      assert events[a..a] == [];
    } else {
      HeartbeatBeforeCheck(states, events, a, b, c, id, k - 1);
      if e.CheckNext? {
        CheckedLater(states, events, a, b, c, k - 1);
      }
    }
    UncheckedHeartbeat(s, e, id);
  }

  lemma UncheckedHeartbeat(s: State, e: Event, id: Id)
    requires Enabled(s, e) && id in s.nodes && !Checks(s, e, id) && e != Delete(id)
    ensures id in Step(s, e).nodes
    ensures Step(s, e).nodes[id].lastHeartbeat ==
            if Pings(e, id) then e.stamp else if Drains(e, id) then e.row.lastHeartbeat
            else s.nodes[id].lastHeartbeat
  {
    hide CallFor;
  }

  /** A check before the one at `c` in the same pass looks at another row. */
  lemma CheckedLater(states: seq<State>, events: seq<Event>, a: nat, b: nat, c: nat, k: nat)
    requires IsRun(states, events) && a < k < c < |events| && events[a].TakeListing?
    requires events[k].CheckNext? && PassAt(states, events, a, b, k) && PassAt(states, events, a, b, k + 1)
    requires PassAt(states, events, a, b, c) && states[c].phase.Checking? && states[c].phase.left != []
    requires states[k + 1].phase.Checking? ==> |states[c].phase.left| <= |states[k + 1].phase.left|
    ensures states[k].phase.left != [] && states[k].phase.left[0].id != states[c].phase.left[0].id
  {
    hide Step, ReadBefore;
    var listing := events[a].listing;
    assert Enabled(states[a], events[a]) && Enabled(states[k], events[k]);
    var before, after := states[k].phase.left, states[c].phase.left;
    assert states[k + 1] == Step(states[k], events[k]);
    NextPhase(states[k], events[k]);
    assert before[0] == listing[|listing| - |before|] && after[0] == listing[|listing| - |after|];
  }

  /**
   * What a racing write meets, in any run from an idle monitor over any table, with any pings,
   * drains, registrations, removals and ticks in between. The row checked at step `c` was listed at
   * an earlier step `a` and is judged by the clock of step `b`. The check writes the whole listed row
   * back, marked NotReady, if it was stale by that clock and not NotReady already, and nothing
   * otherwise; a deleted row stays deleted. Before the check a row that was not deleted has the
   * heartbeat of its latest ping or drain since the listing. So that heartbeat survives exactly when
   * the listed row gave nothing to write, or is no older.
   */
  lemma RacingPingSurvives(states: seq<State>, events: seq<Event>, id: Id, c: nat) returns (a: nat, b: nat)
    requires IsRun(states, events) && states[0].phase.Idle?
    requires c < |events| && Checks(states[c], events[c], id)
    ensures a < b < c && events[a].TakeListing? && events[b].ReadClock?
    ensures forall i :: a < i < c ==> !events[i].TakeListing?
    ensures id in states[a].nodes
    ensures var listed := states[a].nodes[id];
            && states[c + 1].nodes ==
               (if WritesBack(listed, states[b].now) then Updated(states[c].nodes, listed.(status := NotReady))
                else states[c].nodes)
            && ((forall i :: a < i < c ==> events[i] != Delete(id)) ==>
                  var latest := LatestBeat(events[a..c], id, listed.lastHeartbeat);
                  && id in states[c].nodes && id in states[c + 1].nodes
                  && states[c].nodes[id].lastHeartbeat == latest
                  && (states[c + 1].nodes[id].lastHeartbeat == latest <==>
                        !WritesBack(listed, states[b].now) || latest == listed.lastHeartbeat))
  {
    hide ReadBefore;
    a, b := PassOrigin(states, events, c);
    var listing, left := events[a].listing, states[c].phase.left;
    assert Enabled(states[a], events[a]);
    assert left[0] == listing[|listing| - |left|];
    assert states[a].nodes[id] == left[0];
    if forall i :: a < i < c ==> events[i] != Delete(id) {
      HeartbeatBeforeCheck(states, events, a, b, c, id, c);
    }
    hide CallFor;
    assert states[c + 1] == Step(states[c], events[c]);
  }

  // ---- Whole runs: when heartbeats go back ----

  /** Each ping or registration carries a clock at least as late as those written before it. */
  predicate StampsOrdered(events: seq<Event>, id: Id, initial: int) {
    forall k :: 0 <= k < |events| ==>
      var stamp := Stamp(events[k], id);
      stamp.Some? ==> LatestStamp(events[..k], id, initial) <= stamp.value
  }

  lemma {:induction false} LatestMonotone(events: seq<Event>, id: Id, initial: int, j: nat, k: nat)
    requires StampsOrdered(events, id, initial) && j <= k <= |events|
    ensures LatestStamp(events[..j], id, initial) <= LatestStamp(events[..k], id, initial)
    decreases k
  {
    if j < k {
      assert events[..k][..k - 1] == events[..k - 1] && events[..k][k - 1] == events[k - 1];
      LatestMonotone(events, id, initial, j, k - 1);
    }
  }

  predicate NoneAfter(rows: seq<Node>, id: Id, latest: int) {
    forall i :: 0 <= i < |rows| && rows[i].id == id ==> rows[i].lastHeartbeat <= latest
  }

  /** Neither the row nor a listing of it is ahead of the latest stamp. */
  predicate Behind(s: State, id: Id, latest: int) {
    && (id in s.nodes ==> s.nodes[id].lastHeartbeat <= latest)
    && match s.phase
       case Idle => true
       case Took(listing, _) => NoneAfter(listing, id, latest)
       case Checking(left, _) => NoneAfter(left, id, latest)
  }

  lemma BehindStep(s: State, e: Event, id: Id, latest: int)
    requires Behind(s, id, latest) && Enabled(s, e)
    requires Stamp(e, id).Some? ==> latest <= Stamp(e, id).value
    requires Drains(e, id) ==> e.row.lastHeartbeat <= latest
    ensures Behind(Step(s, e), id, if Stamp(e, id).Some? then Stamp(e, id).value else latest)
  {
    hide CallFor;
    if e.CheckNext? && s.phase.left != [] {
      var left := s.phase.left;
      assert forall i :: 0 <= i < |left[1..]| ==> left[1..][i] == left[i + 1];
    }
  }

  lemma BehindRow(s: State, id: Id, latest: int, later: int)
    requires Behind(s, id, latest) && latest <= later
    ensures id in s.nodes ==> s.nodes[id].lastHeartbeat <= later
  {
  }

  lemma {:induction false} BehindRun(states: seq<State>, events: seq<Event>, id: Id, initial: int, k: nat)
    requires IsRun(states, events) && states[0].phase.Idle? && k <= |events|
    requires id in states[0].nodes ==> states[0].nodes[id].lastHeartbeat <= initial
    requires StampsOrdered(events, id, initial)
    ensures Behind(states[k], id, LatestStamp(events[..k], id, initial))
    decreases k
  {
    if k > 0 {
      hide Step, Behind;
      var s, e := states[k - 1], events[k - 1];
      BehindRun(states, events, id, initial, k - 1);
      var latest := LatestStamp(events[..k - 1], id, initial);
      assert states[k] == Step(s, e);
      assert events[..k][..k - 1] == events[..k - 1] && events[..k][k - 1] == e;
      if Drains(e, id) {
        assert ReadBefore(states[..k], e);
        var j :| 0 <= j < k && HasRow(states[..k][j], e.row);
        BehindRun(states, events, id, initial, j);
        LatestMonotone(events, id, initial, j, k - 1);
        BehindRow(states[j], id, LatestStamp(events[..j], id, initial), latest);
      }
      BehindStep(s, e, id, latest);
    }
  }

  /**
   * Over any run from an idle monitor whose pings and registrations carry ordered stamps, with any
   * other writes, the heartbeat of a row goes back at a step if and only if that step is a check or
   * a drain that writes a row older than the one it overwrites.
   */
  lemma GoesBackExactly(states: seq<State>, events: seq<Event>, id: Id, initial: int, k: nat)
    requires IsRun(states, events) && states[0].phase.Idle? && k < |events|
    requires id in states[0].nodes ==> states[0].nodes[id].lastHeartbeat <= initial
    requires StampsOrdered(events, id, initial)
    requires id in states[k].nodes && id in states[k + 1].nodes
    ensures states[k + 1].nodes[id].lastHeartbeat < states[k].nodes[id].lastHeartbeat <==>
              LosesToCheck(states[k], events[k], id) || LosesToDrain(states[k], events[k], id)
  {
    hide Step, Behind, LosesToCheck, LosesToDrain, ReadBefore;
    var latest := LatestStamp(events[..k], id, initial);
    BehindRun(states, events, id, initial, k);
    BehindRow(states[k], id, latest, latest);
    assert states[k + 1] == Step(states[k], events[k]);
    GoesBackStep(states[k], events[k], id);
  }

  const NOTHING: Resources := Resources(0.0, 0, 0.0, 0, 0)
  const MASTER_ROW: Node := Node(0, "m", "", Master, Ready, NOTHING, 0)
  const WORKER_ROW: Node := Node(1, "w", "", Worker, Ready, NOTHING, 0)

  function TwoRows(heartbeat: int, status: Status, phase: Phase): State {
    var worker := WORKER_ROW.(lastHeartbeat := heartbeat, status := status);
    State(map[0 := MASTER_ROW, 1 := worker], [], NOT_READY_THRESHOLD, [], phase)
  }

  lemma TwoRowsListed()
    ensures IsListing([MASTER_ROW, WORKER_ROW], TwoRows(0, Ready, Idle).nodes)
  {
    var listing := [MASTER_ROW, WORKER_ROW];
    assert Listed(listing, 0) by { assert listing[0].id == 0; }
    assert Listed(listing, 1) by { assert listing[1].id == 1; }
  }

  lemma MasterChecked(now: int)
    requires now == NOT_READY_THRESHOLD
    ensures Step(TwoRows(now, Ready, Checking([MASTER_ROW, WORKER_ROW], now)), CheckNext) ==
            TwoRows(now, Ready, Checking([WORKER_ROW], now))
  {
    hide PodsOn;
    assert [MASTER_ROW, WORKER_ROW][1..] == [WORKER_ROW];
    assert !Stale(MASTER_ROW, now) && CallFor(MASTER_ROW, [], now) == [];
  }

  lemma WorkerChecked(now: int)
    requires now == NOT_READY_THRESHOLD
    ensures Step(TwoRows(now, Ready, Checking([WORKER_ROW], now)), CheckNext) ==
            TwoRows(0, NotReady, Checking([], now))
  {
    hide PodsOn;
    var s := TwoRows(now, Ready, Checking([WORKER_ROW], now));
    assert [WORKER_ROW][1..] == [];
    assert Stale(WORKER_ROW, now) && !Dead(WORKER_ROW, now) && CallFor(WORKER_ROW, [], now) == [];
    var back := WORKER_ROW.(status := NotReady);
    assert Updated(s.nodes, back) == map[0 := MASTER_ROW, 1 := back];
    assert back == WORKER_ROW.(lastHeartbeat := 0, status := NotReady);
  }

  lemma TwoRowsPinged(now: int, phase: Phase)
    requires now == NOT_READY_THRESHOLD
    ensures Step(TwoRows(0, Ready, phase), Ping(WORKER_ROW, "ready", None, now)) == TwoRows(now, Ready, phase)
  {
  }

  /** The loss is real, beside a master's row: a worker's ping is overwritten by an older listing. */
  lemma PingLost() returns (states: seq<State>, events: seq<Event>)
    ensures IsRun(states, events) && states[0] == TwoRows(0, Ready, Idle) && |events| == 5
    ensures LeftAlone(events, 1) && events[1].Ping? && states[2] == TwoRows(states[2].now, Ready, states[2].phase)
    ensures LosesToCheck(states[4], events[4], 1) && states[5] == TwoRows(0, NotReady, states[5].phase)
  {
    var now, listing := NOT_READY_THRESHOLD, [MASTER_ROW, WORKER_ROW];
    TwoRowsListed();
    TwoRowsPinged(now, Took(listing, now));
    MasterChecked(now);
    WorkerChecked(now);
    states := [TwoRows(0, Ready, Idle), TwoRows(0, Ready, Took(listing, now)),
               TwoRows(now, Ready, Took(listing, now)), TwoRows(now, Ready, Checking(listing, now)),
               TwoRows(now, Ready, Checking([WORKER_ROW], now)), TwoRows(0, NotReady, Checking([], now))];
    events := [TakeListing(listing), Ping(WORKER_ROW, "ready", None, now), ReadClock, CheckNext, CheckNext];
    hide IsListing, CheckRow, Updated, Pinged;
    assert HasRow(states[..2][0], WORKER_ROW);
  }

  lemma TwoRowsDrained(now: int)
    requires now == NOT_READY_THRESHOLD
    ensures Step(TwoRows(now, Ready, Idle), Drain(WORKER_ROW)) == TwoRows(0, Draining, Idle)
  {
    assert WORKER_ROW.(status := Draining) == WORKER_ROW.(lastHeartbeat := 0, status := Draining);
  }

  /** And without any monitor: a drain that read the row before the ping and writes after it. */
  lemma PingLostToDrain() returns (states: seq<State>, events: seq<Event>)
    ensures IsRun(states, events) && states[0] == TwoRows(0, Ready, Idle) && |events| == 2
    ensures StampsOrdered(events, 1, 0) && events[0].Ping? && states[1] == TwoRows(states[1].now, Ready, Idle)
    ensures LosesToDrain(states[1], events[1], 1) && states[2] == TwoRows(0, Draining, Idle)
  {
    var now := NOT_READY_THRESHOLD;
    TwoRowsPinged(now, Idle);
    TwoRowsDrained(now);
    states := [TwoRows(0, Ready, Idle), TwoRows(now, Ready, Idle), TwoRows(0, Draining, Idle)];
    events := [Ping(WORKER_ROW, "ready", None, now), Drain(WORKER_ROW)];
    hide Updated, Pinged;
    assert HasRow(states[..1][0], WORKER_ROW) && HasRow(states[..2][0], WORKER_ROW);
    assert events[..1] == [events[0]] && events[..1][..0] == [];
  }
}
