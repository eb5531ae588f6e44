/**
 * Cluster membership: the node rows, and what registration, heartbeat pings, the heartbeat
 * monitor, draining and removal do to them. Every handler is one atomic step here.
 */
module Membership {
  import opened Wrappers

  type Id = nat

  datatype Role = Master | Worker
  datatype Status = Ready | NotReady | Draining
  datatype Resources = Resources(
    cpuCores: real, memoryBytes: nat, cpuAvailable: real, memoryAvailable: nat, runningPods: nat)
  datatype Node = Node(
    id: Id, name: string, address: string, role: Role, status: Status, resources: Resources,
    lastHeartbeat: int)
  datatype Pod = Pod(id: Id, node: Option<Id>)

  /** What `reschedule` was called with, and when. */
  datatype Call = Call(time: int, node: Id, pods: seq<Pod>)

  type Nodes = map<Id, Node>

  // Times are in nanoseconds.
  const SECOND: int := 1_000_000_000
  const MONITOR_INTERVAL: int := 10 * SECOND
  const NOT_READY_THRESHOLD: int := 30 * SECOND
  const DEAD_THRESHOLD: int := 60 * SECOND

  // ---- Rows ----

  /** Rows are kept under their primary key. */
  predicate Keyed(nodes: Nodes) {
    forall id <- nodes :: nodes[id].id == id
  }

  predicate NameTaken(nodes: Nodes, name: string) {
    exists id <- nodes :: nodes[id].name == name
  }

  /** `insert_node`: the id is the primary key and the name is unique. */
  function Inserted(nodes: Nodes, node: Node): Nodes {
    if node.id in nodes || NameTaken(nodes, node.name) then nodes else nodes[node.id := node]
  }

  /** `update_node` overwrites the whole row of that id, if there is one. */
  function Updated(nodes: Nodes, node: Node): Nodes {
    if node.id in nodes then nodes[node.id := node] else nodes
  }

  function NewWorker(id: Id, name: string, address: string, resources: Resources, now: int): Node {
    Node(id, name, address, Worker, Ready, resources, now)
  }

  function ParseStatus(s: string): Status {
    if s == "ready" then Ready else if s == "draining" then Draining else NotReady
  }

  /** What a ping writes into the row it finds. */
  function Pinged(node: Node, status: string, resources: Option<Resources>, now: int): Node {
    node.(lastHeartbeat := now, status := ParseStatus(status),
          resources := if resources.Some? then resources.value else node.resources)
  }

  function Drained(nodes: Nodes, name: string): Nodes {
    map id <- nodes :: if nodes[id].name == name then nodes[id].(status := Draining) else nodes[id]
  }

  predicate Removable(node: Node) {
    node.status == Draining || node.role == Master
  }

  function RemovedByName(nodes: Nodes, name: string): Nodes {
    map id <- nodes | !(nodes[id].name == name && Removable(nodes[id])) :: nodes[id]
  }

  // ---- One monitor pass ----

  function Elapsed(now: int, node: Node): int {
    if now < node.lastHeartbeat then 0 else now - node.lastHeartbeat
  }

  predicate Stale(node: Node, now: int) {
    node.role == Worker && Elapsed(now, node) >= NOT_READY_THRESHOLD
  }

  predicate Dead(node: Node, now: int) {
    node.role == Worker && Elapsed(now, node) >= DEAD_THRESHOLD
  }

  /** In other words: a worker without a heartbeat for this many seconds. */
  predicate SilentFor(node: Node, now: int, seconds: nat) {
    node.role == Worker && now - node.lastHeartbeat >= seconds * SECOND
  }

  lemma Thresholds(node: Node, now: int)
    ensures Stale(node, now) <==> SilentFor(node, now, 30)
    ensures Dead(node, now) <==> SilentFor(node, now, 60)
  {
  }

  /** The rows after the monitor looked at a row of its listing: it writes that row back if it is stale. */
  function WrittenBack(nodes: Nodes, row: Node, now: int): Nodes {
    if Stale(row, now) && row.status != NotReady then Updated(nodes, row.(status := NotReady)) else nodes
  }

  function Checked(node: Node, now: int): Node {
    if Stale(node, now) then node.(status := NotReady) else node
  }

  function PassNodes(nodes: Nodes, now: int): Nodes {
    map id <- nodes :: Checked(nodes[id], now)
  }

  function PodsOn(pods: seq<Pod>, id: Id): seq<Pod> {
    if pods == [] then []
    else (if pods[0].node == Some(id) then [pods[0]] else []) + PodsOn(pods[1..], id)
  }

  function CallFor(node: Node, pods: seq<Pod>, now: int): seq<Call> {
    if Dead(node, now) && PodsOn(pods, node.id) != []
    then [Call(now, node.id, PodsOn(pods, node.id))]
    else []
  }

  function PassCalls(listing: seq<Node>, pods: seq<Pod>, now: int): seq<Call> {
    if listing == [] then []
    else PassCalls(listing[..|listing| - 1], pods, now) + CallFor(listing[|listing| - 1], pods, now)
  }

  predicate Listed(listing: seq<Node>, id: Id) {
    exists i :: 0 <= i < |listing| && listing[i].id == id
  }

  /** A listing of the table: every row once, in whatever order the store returns them. */
  predicate IsListing(listing: seq<Node>, nodes: Nodes) {
    && (forall i :: 0 <= i < |listing| ==> listing[i].id in nodes && nodes[listing[i].id] == listing[i])
    && (forall i, j :: 0 <= i < j < |listing| ==> listing[i].id != listing[j].id)
    && (forall id <- nodes :: Listed(listing, id))
  }

  // ---- The handlers ----

  datatype Reply = Accepted | Rejected | Failed | NotFound | Conflict

  class StateStore {
    var nodes: Nodes
    var pods: seq<Pod>

    constructor ()
      ensures nodes == map[] && pods == []
    {
      nodes, pods := map[], [];
    }

    method UpdateNode(node: Node)
      modifies this`nodes
      ensures nodes == Updated(old(nodes), node)
    {
      if node.id in nodes {
        nodes := nodes[node.id := node];
      }
    }

    method ListNodes() returns (listing: seq<Node>)
      requires Keyed(nodes)
      ensures IsListing(listing, nodes)
    {
      listing := [];
      var left := nodes.Keys;
      while left != {}
        invariant left <= nodes.Keys
        invariant forall i :: 0 <= i < |listing| ==>
                    listing[i].id in nodes.Keys - left && nodes[listing[i].id] == listing[i]
        invariant forall i, j :: 0 <= i < j < |listing| ==> listing[i].id != listing[j].id
        invariant forall id <- nodes :: id in left || Listed(listing, id)
        decreases left
      {
        var id :| id in left;
        ghost var before := listing;
        listing := listing + [nodes[id]];
        left := left - {id};
        assert listing[|before|].id == id;
        assert forall i :: 0 <= i < |before| ==> listing[i] == before[i];
        assert forall other :: Listed(before, other) ==> Listed(listing, other);
      }
    }
  }

  method Register(
    store: StateStore, tokenValid: bool, id: Id, name: string, address: string, resources: Resources,
    now: int)
    returns (reply: Reply)
    modifies store`nodes
    ensures store.nodes ==
            if tokenValid then Inserted(old(store.nodes), NewWorker(id, name, address, resources, now))
            else old(store.nodes)
    ensures reply ==
            if !tokenValid || NameTaken(old(store.nodes), name) then Rejected
            else if id in old(store.nodes) then Failed
            else Accepted
  {
    if !tokenValid || NameTaken(store.nodes, name) {
      return Rejected;
    }
    var node := NewWorker(id, name, address, resources, now);
    if node.id in store.nodes {
      return Failed;
    }
    store.nodes := store.nodes[node.id := node];
    return Accepted;
  }

  method HandlePing(store: StateStore, id: Id, status: string, resources: Option<Resources>, now: int)
    requires Keyed(store.nodes)
    modifies store`nodes
    ensures store.nodes ==
            if id in old(store.nodes) then old(store.nodes)[id := Pinged(old(store.nodes)[id], status, resources, now)]
            else old(store.nodes)
  {
    if id in store.nodes {
      var node := store.nodes[id];
      node := node.(lastHeartbeat := now);
      node := node.(status := match status case "ready" => Ready case "draining" => Draining case _ => NotReady);
      if resources.Some? {
        node := node.(resources := resources.value);
      }
      store.UpdateNode(node);
    }
  }

  /** The UNIQUE constraint on names. */
  predicate UniqueNames(nodes: Nodes) {
    forall a, b :: a in nodes && b in nodes && nodes[a].name == nodes[b].name ==> a == b
  }

  method DrainNode(store: StateStore, name: string) returns (reply: Reply)
    requires Keyed(store.nodes) && UniqueNames(store.nodes)
    modifies store`nodes
    ensures store.nodes == Drained(old(store.nodes), name)
    ensures reply == if NameTaken(old(store.nodes), name) then Accepted else NotFound
  {
    if id :| id in store.nodes && store.nodes[id].name == name {
      var node := store.nodes[id].(status := Draining);
      store.UpdateNode(node);
      reply := Accepted;
    } else {
      reply := NotFound;
    }
  }

  method RemoveNode(store: StateStore, name: string) returns (reply: Reply)
    requires Keyed(store.nodes) && UniqueNames(store.nodes)
    modifies store`nodes
    ensures store.nodes == RemovedByName(old(store.nodes), name)
    ensures reply == NotFound <==> !NameTaken(old(store.nodes), name)
    ensures reply == Accepted <==> store.nodes != old(store.nodes)
    ensures reply == Accepted || reply == NotFound || reply == Conflict
  {
    if id :| id in store.nodes && store.nodes[id].name == name {
      var node := store.nodes[id];
      if node.status != Draining && node.role != Master {
        return Conflict;
      }
      store.nodes := store.nodes - {node.id};
      assert id !in store.nodes;
      reply := Accepted;
    } else {
      reply := NotFound;
    }
  }

  /** The rows after the first `i` rows of the listing were checked. */
  function PartlyChecked(nodes: Nodes, listing: seq<Node>, i: nat, now: int): Nodes
    requires i <= |listing|
  {
    map id <- nodes :: if Listed(listing[..i], id) then Checked(nodes[id], now) else nodes[id]
  }

  lemma CheckOne(nodes: Nodes, listing: seq<Node>, i: nat, now: int)
    requires IsListing(listing, nodes) && i < |listing|
    ensures PartlyChecked(nodes, listing, i, now)[listing[i].id := Checked(listing[i], now)] ==
            PartlyChecked(nodes, listing, i + 1, now)
    ensures listing[i].id in PartlyChecked(nodes, listing, i, now)
    ensures PartlyChecked(nodes, listing, i, now)[listing[i].id] == listing[i]
  {
    hide Checked;
    var a, b := listing[..i], listing[..i + 1];
    assert b == a + [listing[i]];
    assert b[i] == listing[i];
    forall id
      ensures Listed(b, id) <==> Listed(a, id) || id == listing[i].id
    {
      if j :| 0 <= j < |a| && a[j].id == id {
        assert b[j].id == id;
      }
    }
  }

  lemma CheckAll(nodes: Nodes, listing: seq<Node>, now: int)
    requires IsListing(listing, nodes)
    ensures PartlyChecked(nodes, listing, 0, now) == nodes
    ensures PartlyChecked(nodes, listing, |listing|, now) == PassNodes(nodes, now)
  {
    hide Checked;
    assert listing[..|listing|] == listing;
  }

  /** A row that is still as it was listed. */
  lemma WriteBackCurrent(nodes: Nodes, row: Node, now: int)
    requires row.id in nodes && nodes[row.id] == row
    ensures WrittenBack(nodes, row, now) == nodes[row.id := Checked(row, now)]
  {
    assert Stale(row, now) && row.status == NotReady ==> row.(status := NotReady) == row;
  }

  /** The body of the monitor's loop, for any row of its listing. */
  method CheckNode(store: StateStore, row: Node, now: int) returns (calls: seq<Call>)
    modifies store`nodes
    ensures store.nodes == WrittenBack(old(store.nodes), row, now)
    ensures calls == CallFor(row, store.pods, now)
  {
    calls := [];
    var node := row;
    if node.role == Master {
      return;
    }
    var elapsed := if now < node.lastHeartbeat then 0 else now - node.lastHeartbeat;
    if elapsed >= DEAD_THRESHOLD {
      if node.status != NotReady {
        node := node.(status := NotReady);
        store.UpdateNode(node);
      }
      var nodePods := PodsOn(store.pods, node.id);
      if nodePods != [] {
        calls := [Call(now, node.id, nodePods)];
      }
    } else if elapsed >= NOT_READY_THRESHOLD && node.status != NotReady {
      node := node.(status := NotReady);
      store.UpdateNode(node);
    }
  }

  method CheckNodes(store: StateStore, now: int) returns (calls: seq<Call>, ghost listing: seq<Node>)
    requires Keyed(store.nodes)
    modifies store`nodes
    ensures IsListing(listing, old(store.nodes))
    ensures store.nodes == PassNodes(old(store.nodes), now)
    ensures calls == PassCalls(listing, store.pods, now)
  {
    hide Checked, CallFor, PartlyChecked, PassNodes, IsListing, WrittenBack;
    var rows := store.ListNodes();
    listing := rows;
    calls := [];
    CheckAll(store.nodes, rows, now);
    for i := 0 to |rows|
      invariant store.nodes == PartlyChecked(old(store.nodes), rows, i, now)
      invariant calls == PassCalls(rows[..i], store.pods, now)
    {
      assert rows[..i + 1][..i] == rows[..i];
      CheckOne(old(store.nodes), rows, i, now);
      WriteBackCurrent(store.nodes, rows[i], now);
      var call := CheckNode(store, rows[i], now);
      calls := calls + call;
    }
    assert rows[..|rows|] == rows;
  }
}
