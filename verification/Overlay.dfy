/**
 * Overlay subnets: an atomic 8-bit counter that wraps, and the route store's table of which node
 * and project uses which subnet.
 */
module Overlay {
  import opened Wrappers
  import opened Subnets

  // ---- The allocator ----

  class SubnetAllocator {
    const baseFirst: Octet
    const baseSecond: Octet
    var nextThirdOctet: Octet

    constructor (first: Octet, second: Octet)
      ensures baseFirst == first && baseSecond == second && nextThirdOctet == CounterAfter(0)
    {
      baseFirst, baseSecond, nextThirdOctet := first, second, 1;
    }

    /** `fetch_add` returns the old value and wraps at 256. */
    method Allocate() returns (r: Option<string>)
      modifies this
      ensures nextThirdOctet == (old(nextThirdOctet) + 1) % 256
      ensures r == if old(nextThirdOctet) == 0 then None
                   else Some(Cidr(baseFirst, baseSecond, old(nextThirdOctet)))
      ensures forall n: nat :: old(nextThirdOctet) == CounterAfter(n) ==> nextThirdOctet == CounterAfter(n + 1)
    {
      var third := nextThirdOctet;
      nextThirdOctet := (nextThirdOctet + 1) % 256;
      if third == 0 {
        return None;
      }
      return Some(Cidr(baseFirst, baseSecond, third));
    }
  }

  function MasterSubnet(first: Octet, second: Octet): string {
    Cidr(first, second, 0)
  }

  /** The counter after `n` calls, in whatever order concurrent callers reached it. */
  function CounterAfter(n: nat): Octet {
    if n == 0 then 1 else (CounterAfter(n - 1) + 1) % 256
  }

  /** The third octets of the calls among the first `n` that yielded a subnet. */
  function Successes(n: nat): seq<Octet> {
    if n == 0 then []
    else Successes(n - 1) + if CounterAfter(n - 1) == 0 then [] else [CounterAfter(n - 1)]
  }

  /** Call `n` yields no subnet iff 256 divides `n + 1`, and otherwise the remainder. */
  lemma {:induction false} CounterClosedForm(n: nat)
    ensures CounterAfter(n) == (n + 1) % 256
  {
    if n > 0 {
      CounterClosedForm(n - 1);
      NextRemainder(n);
    }
  }

  lemma NextRemainder(n: nat)
    ensures (n % 256 + 1) % 256 == (n + 1) % 256
  {
  }

  lemma WrapArithmetic(n: nat)
    ensures (n + 1) / 256 == n / 256 + (if (n + 1) % 256 == 0 then 1 else 0)
    ensures (n + 1) % 256 != 0 ==> (n - n / 256) % 255 + 1 == (n + 1) % 256
  {
    var q, r := n / 256, n % 256;
    assert n - q == 255 * q + r;
    if r < 255 {
      ModMultiple(q, r);
    }
  }

  lemma {:induction false} ModMultiple(q: nat, r: nat)
    requires r < 255
    ensures (255 * q + r) % 255 == r
  {
    if q > 0 {
      ModMultiple(q - 1, r);
      assert 255 * q + r == (255 * (q - 1) + r) + 255;
    }
  }

  lemma SuccessesStep(n: nat)
    ensures Successes(n + 1) == Successes(n) + if (n + 1) % 256 == 0 then [] else [(n + 1) % 256]
  {
    CounterClosedForm(n);
  }

  predicate Cycles(octets: seq<Octet>) {
    forall k :: 0 <= k < |octets| ==> octets[k] == k % 255 + 1
  }

  lemma CyclesOn(octets: seq<Octet>, next: Octet)
    requires Cycles(octets) && next == |octets| % 255 + 1
    ensures Cycles(octets + [next]) && octets + [] == octets
  {
  }

  /** The k-th success is octet k mod 255 + 1: zero is skipped and the cycle has length 255. */
  lemma {:induction false} SuccessesCycle(n: nat)
    ensures |Successes(n)| == n - n / 256
    ensures forall k :: 0 <= k < |Successes(n)| ==> Successes(n)[k] == k % 255 + 1
  {
    if n > 0 {
      SuccessesCycle(n - 1);
      SuccessesStep(n - 1);
      WrapArithmetic(n - 1);
      var before := Successes(n - 1);
      assert Cycles(before);
      hide Successes, Cycles;
      if n % 256 == 0 {
        assert before + [] == before;
      } else {
        CyclesOn(before, n % 256);
      }
      CyclesMeans(Successes(n));
    }
  }

  lemma CyclesMeans(octets: seq<Octet>)
    requires Cycles(octets)
    ensures forall k :: 0 <= k < |octets| ==> octets[k] == k % 255 + 1
  {
  }

  lemma {:induction false} SameRemainder(i: nat, j: nat)
    requires i <= j && i % 255 == j % 255
    ensures i == j || j - i >= 255
  {
    assert j - i == 255 * (j / 255 - i / 255);
  }

  /** Any two of 255 consecutive successes differ, and none is the master's own subnet. */
  lemma WindowDistinct(n: nat, i: nat, j: nat, first: Octet, second: Octet)
    requires i < j < |Successes(n)| && j - i < 255
    ensures Cidr(first, second, Successes(n)[i]) != Cidr(first, second, Successes(n)[j])
    ensures Cidr(first, second, Successes(n)[i]) != MasterSubnet(first, second)
  {
    SuccessesCycle(n);
    if i % 255 == j % 255 {
      SameRemainder(i, j);
    }
    CidrInjective(first, second, Successes(n)[i], first, second, Successes(n)[j]);
    CidrInjective(first, second, Successes(n)[i], first, second, 0);
  }

  // ---- The table of allocations ----

  datatype Allocation = Allocation(nodeId: string, project: string, subnet: string)
  datatype Outcome = Stored | KeyTaken | SubnetTaken

  predicate HasKey(subnets: seq<Allocation>, nodeId: string, project: string) {
    exists i :: 0 <= i < |subnets| && subnets[i].nodeId == nodeId && subnets[i].project == project
  }

  predicate HasSubnet(subnets: seq<Allocation>, subnet: string) {
    exists i :: 0 <= i < |subnets| && subnets[i].subnet == subnet
  }

  function Added(subnets: seq<Allocation>, a: Allocation): (seq<Allocation>, Outcome) {
    if HasKey(subnets, a.nodeId, a.project) then (subnets, KeyTaken)
    else if HasSubnet(subnets, a.subnet) then (subnets, SubnetTaken)
    else (subnets + [a], Stored)
  }

  function Retained(subnets: seq<Allocation>, nodeId: string, project: string): seq<Allocation> {
    if subnets == [] then []
    else
      var n := |subnets| - 1;
      var last := subnets[n];
      Retained(subnets[..n], nodeId, project) +
      if last.nodeId == nodeId && last.project == project then [] else [last]
  }

  function Found(subnets: seq<Allocation>, nodeId: string, project: string): Option<Allocation> {
    if subnets == [] then None
    else if subnets[0].nodeId == nodeId && subnets[0].project == project then Some(subnets[0])
    else Found(subnets[1..], nodeId, project)
  }

  class InMemoryRouteStore {
    var subnets: seq<Allocation>

    constructor ()
      ensures subnets == []
    {
      subnets := [];
    }

    method AllocateSubnet(alloc: Allocation) returns (outcome: Outcome)
      modifies this
      ensures (subnets, outcome) == Added(old(subnets), alloc)
    {
      var keyTaken := HasKey(subnets, alloc.nodeId, alloc.project);
      if keyTaken {
        return KeyTaken;
      }
      var subnetTaken := HasSubnet(subnets, alloc.subnet);
      if subnetTaken {
        return SubnetTaken;
      }
      subnets := subnets + [alloc];
      return Stored;
    }

    method DeallocateSubnet(nodeId: string, project: string) returns (removed: bool)
      modifies this
      ensures subnets == Retained(old(subnets), nodeId, project)
      ensures removed == HasKey(old(subnets), nodeId, project)
    {
      var lenBefore := |subnets|;
      RetainedMembers(subnets, nodeId, project);
      subnets := Retained(subnets, nodeId, project);
      removed := |subnets| < lenBefore;
    }
  }

  /** No key twice and no subnet twice. */
  predicate InjectiveTable(subnets: seq<Allocation>) {
    forall i, j :: 0 <= i < j < |subnets| ==>
      subnets[i].subnet != subnets[j].subnet &&
      (subnets[i].nodeId != subnets[j].nodeId || subnets[i].project != subnets[j].project)
  }

  lemma {:induction false} RetainedMembers(subnets: seq<Allocation>, nodeId: string, project: string)
    ensures forall a :: a in Retained(subnets, nodeId, project) <==>
              a in subnets && !(a.nodeId == nodeId && a.project == project)
    ensures |Retained(subnets, nodeId, project)| <= |subnets|
    ensures |Retained(subnets, nodeId, project)| < |subnets| <==> HasKey(subnets, nodeId, project)
    ensures !HasKey(subnets, nodeId, project) ==> Retained(subnets, nodeId, project) == subnets
  {
    if subnets != [] {
      hide HasKey;
      var n := |subnets| - 1;
      var init, last := subnets[..n], subnets[n];
      RetainedMembers(init, nodeId, project);
      assert subnets == init + [last];
      HasKeyAppend(init, last, nodeId, project);
    }
  }

  lemma {:induction false} RetainedInjective(subnets: seq<Allocation>, nodeId: string, project: string)
    requires InjectiveTable(subnets)
    ensures InjectiveTable(Retained(subnets, nodeId, project))
  {
    if subnets != [] {
      hide HasKey, InjectiveTable;
      var n := |subnets| - 1;
      var init, last := subnets[..n], subnets[n];
      assert subnets == init + [last];
      InjectiveInit(init, last);
      RetainedInjective(init, nodeId, project);
      RetainedMembers(init, nodeId, project);
      InjectiveAppend(Retained(init, nodeId, project), last);
    }
  }

  lemma InjectiveAppend(init: seq<Allocation>, last: Allocation)
    requires InjectiveTable(init)
    requires forall a <- init :: a.subnet != last.subnet && (a.nodeId != last.nodeId || a.project != last.project)
    ensures InjectiveTable(init + [last]) && init + [] == init
  {
    assert forall i :: 0 <= i < |init| ==> init[i] in init;
  }

  lemma HasKeyAppend(init: seq<Allocation>, last: Allocation, nodeId: string, project: string)
    ensures HasKey(init + [last], nodeId, project) <==>
              HasKey(init, nodeId, project) || (last.nodeId == nodeId && last.project == project)
  {
    var all := init + [last];
    assert all[|init|] == last;
    assert forall i :: 0 <= i < |init| ==> all[i] == init[i];
  }

  lemma InjectiveInit(init: seq<Allocation>, last: Allocation)
    requires InjectiveTable(init + [last])
    ensures InjectiveTable(init)
    ensures forall a <- init :: a.subnet != last.subnet && (a.nodeId != last.nodeId || a.project != last.project)
  {
    var all := init + [last];
    assert all[|init|] == last;
    assert forall i :: 0 <= i < |init| ==> all[i] == init[i];
  }

  lemma AddedInjective(subnets: seq<Allocation>, a: Allocation)
    requires InjectiveTable(subnets)
    ensures InjectiveTable(Added(subnets, a).0)
  {
    if Added(subnets, a).1 == Stored {
      InjectiveAppend(subnets, a);
    }
  }

  /** A taken key is refused before a taken subnet; otherwise the entry is appended. */
  lemma AddedExactly(subnets: seq<Allocation>, a: Allocation)
    ensures var keyTaken := exists x :: x in subnets && x.nodeId == a.nodeId && x.project == a.project;
            var subnetTaken := exists x :: x in subnets && x.subnet == a.subnet;
            Added(subnets, a) ==
            if keyTaken then (subnets, KeyTaken)
            else if subnetTaken then (subnets, SubnetTaken)
            else (subnets + [a], Stored)
  {
    if x :| x in subnets && x.nodeId == a.nodeId && x.project == a.project {
      var i :| 0 <= i < |subnets| && subnets[i] == x;
    }
    if x :| x in subnets && x.subnet == a.subnet {
      var i :| 0 <= i < |subnets| && subnets[i] == x;
    }
  }

  /** `r` is the elements of `s` at these places, in order. */
  predicate Picks(s: seq<Allocation>, r: seq<Allocation>, at: seq<nat>) {
    && |at| == |r|
    && (forall i :: 0 <= i < |at| ==> at[i] < |s| && r[i] == s[at[i]])
    && (forall i, j :: 0 <= i < j < |at| ==> at[i] < at[j])
  }

  lemma PicksLast(s: seq<Allocation>, r: seq<Allocation>, at: seq<nat>)
    requires s != [] && Picks(s[..|s| - 1], r, at)
    ensures Picks(s, r, at) && Picks(s, r + [s[|s| - 1]], at + [|s| - 1])
  {
    var n := |s| - 1;
    forall i | 0 <= i < |at|
      ensures at[i] < n && r[i] == s[at[i]]
    {
      assert s[..n][at[i]] == s[at[i]];
    }
  }

  /** Deallocating keeps all entries of other keys, in order: `at` lists their places. */
  lemma {:induction false} RetainedSpec(subnets: seq<Allocation>, nodeId: string, project: string) returns (at: seq<nat>)
    ensures Picks(subnets, Retained(subnets, nodeId, project), at)
    ensures forall k: nat :: k in at <==>
              k < |subnets| && !(subnets[k].nodeId == nodeId && subnets[k].project == project)
  {
    at := [];
    if subnets != [] {
      hide Picks;
      var n := |subnets| - 1;
      at := RetainedSpec(subnets[..n], nodeId, project);
      var kept := Retained(subnets[..n], nodeId, project);
      PicksLast(subnets, kept, at);
      if !(subnets[n].nodeId == nodeId && subnets[n].project == project) {
        at := at + [n];
      } else {
        assert kept + [] == kept;
      }
    }
  }

  datatype Event = Allocate(alloc: Allocation) | Deallocate(nodeId: string, project: string)

  function Run(events: seq<Event>): seq<Allocation> {
    if events == [] then []
    else
      var before := Run(events[..|events| - 1]);
      match events[|events| - 1]
      case Allocate(a) => Added(before, a).0
      case Deallocate(nodeId, project) => Retained(before, nodeId, project)
  }

  /** After any run the table is an injective partial map from (node, project) to subnets. */
  lemma {:induction false} RunInjective(events: seq<Event>)
    ensures InjectiveTable(Run(events))
  {
    if events != [] {
      hide InjectiveTable, Added, Retained;
      var before := events[..|events| - 1];
      RunInjective(before);
      match events[|events| - 1]
      case Allocate(a) => AddedInjective(Run(before), a);
      case Deallocate(nodeId, project) => RetainedInjective(Run(before), nodeId, project);
    }
  }

  /** The reader finds the first entry of the key, if there is one. */
  lemma {:induction false} FoundSpec(subnets: seq<Allocation>, nodeId: string, project: string)
    ensures Found(subnets, nodeId, project).Some? <==> HasKey(subnets, nodeId, project)
    ensures Found(subnets, nodeId, project).Some? ==>
              exists i :: 0 <= i < |subnets| && FirstWithKey(subnets, i, nodeId, project) &&
                          Found(subnets, nodeId, project).value == subnets[i]
  {
    if subnets != [] {
      var first, rest := subnets[0], subnets[1..];
      FoundSpec(rest, nodeId, project);
      assert forall i :: 0 <= i < |rest| ==> rest[i] == subnets[i + 1];
      if first.nodeId == nodeId && first.project == project {
        assert FirstWithKey(subnets, 0, nodeId, project);
      } else if Found(rest, nodeId, project).Some? {
        var i :| 0 <= i < |rest| && FirstWithKey(rest, i, nodeId, project) &&
                 Found(rest, nodeId, project).value == rest[i];
        assert FirstWithKey(subnets, i + 1, nodeId, project);
      }
    }
  }

  predicate FirstWithKey(subnets: seq<Allocation>, i: int, nodeId: string, project: string)
    requires 0 <= i < |subnets|
  {
    && subnets[i].nodeId == nodeId && subnets[i].project == project
    && forall j :: 0 <= j < i ==> subnets[j].nodeId != nodeId || subnets[j].project != project
  }

  /** A stored allocation is found under its key, and deallocating it restores the table. */
  lemma StoreRoundTrip(subnets: seq<Allocation>, a: Allocation)
    requires InjectiveTable(subnets) && Added(subnets, a).1 == Stored
    ensures var stored := Added(subnets, a).0;
            && Found(stored, a.nodeId, a.project) == Some(a)
            && Retained(stored, a.nodeId, a.project) == subnets
  {
    var stored := subnets + [a];
    HasKeyAppend(subnets, a, a.nodeId, a.project);
    FoundSpec(stored, a.nodeId, a.project);
    RetainedMembers(subnets, a.nodeId, a.project);
    assert stored[..|subnets|] == subnets;
    var f := Found(stored, a.nodeId, a.project).value;
    assert f in subnets ==> HasKey(subnets, f.nodeId, f.project);
  }

  // ---- Allocator and table together ----

  /** The calls that store the successes of the allocator under the given keys, in order. */
  function StoreCalls(keys: seq<(string, string)>, octets: seq<Octet>, first: Octet, second: Octet): seq<Event>
    requires |keys| <= |octets|
  {
    seq(|keys|, i requires 0 <= i < |keys| =>
      Allocate(Allocation(keys[i].0, keys[i].1, Cidr(first, second, octets[i]))))
  }

  /** The table of the first `n` subnets under the given keys. */
  function FirstEntries(keys: seq<(string, string)>, n: nat, first: Octet, second: Octet): seq<Allocation>
    requires n <= |keys| && n <= 255
  {
    seq(n, i requires 0 <= i < n => Allocation(keys[i].0, keys[i].1, Cidr(first, second, i + 1)))
  }

  function AtMost255(n: nat): nat {
    if n < 255 then n else 255
  }

  predicate DistinctKeys(keys: seq<(string, string)>) {
    forall i, j :: 0 <= i < j < |keys| ==> keys[i] != keys[j]
  }

  /** Storing success `i` into a table of the successes before it. */
  lemma StoreNext(keys: seq<(string, string)>, i: nat, first: Octet, second: Octet)
    requires i < |keys| && DistinctKeys(keys)
    ensures var table := FirstEntries(keys, AtMost255(i), first, second);
            Added(table, Allocation(keys[i].0, keys[i].1, Cidr(first, second, i % 255 + 1))) ==
            (FirstEntries(keys, AtMost255(i + 1), first, second), if i < 255 then Stored else SubnetTaken)
  {
    hide Cidr;
    var table := FirstEntries(keys, AtMost255(i), first, second);
    var octet := i % 255 + 1;
    forall k | 0 <= k < |table|
      ensures table[k].subnet == Cidr(first, second, octet) <==> k + 1 == octet
      ensures (table[k].nodeId, table[k].project) != keys[i]
    {
      CidrInjective(first, second, k + 1, first, second, octet);
    }
    if i < 255 {
      assert octet == i + 1;
      assert FirstEntries(keys, i + 1, first, second) ==
             table + [Allocation(keys[i].0, keys[i].1, Cidr(first, second, octet))];
    } else {
      assert table[octet - 1].subnet == Cidr(first, second, octet);
    }
  }

  lemma CallsPrefix(keys: seq<(string, string)>, octets: seq<Octet>, first: Octet, second: Octet, i: nat)
    requires i < |keys| <= |octets|
    ensures var calls := StoreCalls(keys, octets, first, second);
            calls[..i + 1][..i] == calls[..i] && calls[..i + 1][i] == calls[i]
  {
  }

  /**
   * Storing the allocator's successes one after the other under different keys in an empty table
   * succeeds for exactly the first 255 of them; from then on every subnet is taken and the table
   * stays as it is.
   */
  lemma {:induction false} FirstSubnetsStored(
    keys: seq<(string, string)>, n: nat, first: Octet, second: Octet, i: nat)
    requires i < |keys| <= |Successes(n)| && DistinctKeys(keys)
    ensures var calls := StoreCalls(keys, Successes(n), first, second);
            && Run(calls[..i]) == FirstEntries(keys, AtMost255(i), first, second)
            && Run(calls[..i + 1]) == FirstEntries(keys, AtMost255(i + 1), first, second)
            && Added(Run(calls[..i]), calls[i].alloc).1 == if i < 255 then Stored else SubnetTaken
    decreases i
  {
    hide Successes, Cidr, Added, FirstEntries;
    SuccessesCycle(n);
    CallsPrefix(keys, Successes(n), first, second, i);
    if i > 0 {
      FirstSubnetsStored(keys, n, first, second, i - 1);
    } else {
      NoEntries(keys, first, second);
    }
    StoreNext(keys, i, first, second);
  }

  lemma NoEntries(keys: seq<(string, string)>, first: Octet, second: Octet)
    ensures FirstEntries(keys, 0, first, second) == []
  {
  }
}
