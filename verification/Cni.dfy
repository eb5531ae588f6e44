/**
 * CNI networks: a sequential allocator of /24 networks inside 172.20.0.0/16, and the directory of
 * conflist files that it feeds.
 */
module Cni {
  import opened Wrappers
  import opened Subnets

  datatype Conflist = Conflist(name: string, bridge: string, subnet: string)

  function CniCidr(octet: Octet): string {
    Cidr(172, 20, octet)
  }

  function ConflistFor(name: string, octet: Octet): Conflist {
    Conflist(name, "cni-" + name, CniCidr(octet))
  }

  // ---- The state, and what each call does to it ----

  datatype State = State(allocations: map<string, Octet>, next: Octet, conf: map<string, Conflist>)

  const INITIAL: State := State(map[], 1, map[])

  /** The octet a name gets, and the state after it, unless the pool is exhausted. */
  function Allocated(s: State, name: string): Option<(Octet, State)> {
    if name in s.allocations then Some((s.allocations[name], s))
    else if s.next == 0 then None
    else Some((s.next, s.(allocations := s.allocations[name := s.next], next := (s.next + 1) % 256)))
  }

  /** Calls on the manager; the flags say whether the file operation succeeds. */
  datatype Event = Ensure(name: string, writes: bool) | Remove(name: string, deletes: bool)

  function Step(s: State, e: Event): State {
    match e
    case Ensure(name, writes) =>
      if name in s.conf then s
      else
        var got := Allocated(s, name);
        if got.None? then s
        else if !writes then got.value.1
        else got.value.1.(conf := s.conf[name := ConflistFor(name, got.value.0)])
    case Remove(name, deletes) =>
      if name in s.conf && !deletes then s
      else s.(conf := s.conf - {name}, allocations := s.allocations - {name})
  }

  predicate Succeeds(s: State, e: Event) {
    match e
    case Ensure(name, writes) => name in s.conf || (Allocated(s, name).Some? && writes)
    case Remove(name, deletes) => name in s.conf ==> deletes
  }

  // ---- The objects ----

  class SubnetAllocator {
    var allocations: map<string, Octet>
    var nextOctet: Octet

    constructor ()
      ensures allocations == INITIAL.allocations && nextOctet == INITIAL.next
    {
      allocations, nextOctet := map[], 1;
    }

    method Allocate(name: string) returns (r: Option<string>)
      modifies this
      ensures var s := State(old(allocations), old(nextOctet), map[]);
              match Allocated(s, name)
              case None => r == None && allocations == old(allocations) && nextOctet == old(nextOctet)
              case Some(got) =>
                r == Some(CniCidr(got.0)) && allocations == got.1.allocations && nextOctet == got.1.next
    {
      if name in allocations {
        return Some(CniCidr(allocations[name]));
      }
      if nextOctet == 0 {
        return None;
      }
      var octet := nextOctet;
      nextOctet := (nextOctet + 1) % 256;
      allocations := allocations[name := octet];
      return Some(CniCidr(octet));
    }

    method Release(name: string)
      modifies this
      ensures allocations == old(allocations) - {name} && nextOctet == old(nextOctet)
    {
      allocations := allocations - {name};
    }
  }

  class CniManager {
    const allocator: SubnetAllocator
    var conf: map<string, Conflist>

    ghost function Abstract(): State
      reads this, allocator
    {
      State(allocator.allocations, allocator.nextOctet, conf)
    }

    constructor ()
      ensures Abstract() == INITIAL && fresh(allocator)
    {
      allocator := new SubnetAllocator();
      conf := map[];
    }

    method EnsureNetwork(name: string, writes: bool) returns (ok: bool)
      modifies this, allocator
      ensures Abstract() == Step(old(Abstract()), Ensure(name, writes))
      ensures ok == Succeeds(old(Abstract()), Ensure(name, writes))
    {
      if name in conf {
        return true;
      }
      var subnet := allocator.Allocate(name);
      if subnet.None? || !writes {
        return false;
      }
      conf := conf[name := Conflist(name, "cni-" + name, subnet.value)];
      return true;
    }

    method RemoveNetwork(name: string, deletes: bool) returns (ok: bool)
      modifies this, allocator
      ensures Abstract() == Step(old(Abstract()), Remove(name, deletes))
      ensures ok == Succeeds(old(Abstract()), Remove(name, deletes))
    {
      if name in conf {
        if !deletes {
          return false;
        }
        conf := conf - {name};
      } else {
        assert conf - {name} == conf;
      }
      allocator.Release(name);
      return true;
    }
  }

  // ---- Runs ----

  function Run(events: seq<Event>): State {
    if events == [] then INITIAL else Step(Run(events[..|events| - 1]), events[|events| - 1])
  }

  /** The octets newly handed out by a call. */
  function IssuedBy(s: State, e: Event): seq<Octet> {
    if e.Ensure? && e.name !in s.conf && e.name !in s.allocations && Allocated(s, e.name).Some?
    then [Allocated(s, e.name).value.0]
    else []
  }

  /** All octets ever handed out, in order. */
  function Issued(events: seq<Event>): seq<Octet> {
    if events == [] then []
    else
      var before := events[..|events| - 1];
      Issued(before) + IssuedBy(Run(before), events[|events| - 1])
  }

  /** The state after `n` octets were handed out. */
  predicate Inv(s: State, n: nat) {
    && n <= 255 && s.next == (n + 1) % 256
    && (forall name <- s.allocations :: 1 <= s.allocations[name] <= n)
    && (forall a <- s.allocations, b <- s.allocations :: s.allocations[a] == s.allocations[b] ==> a == b)
    && (forall name <- s.conf :: name in s.allocations && s.conf[name] == ConflistFor(name, s.allocations[name]))
  }

  lemma StepInv(s: State, e: Event, n: nat)
    requires Inv(s, n)
    ensures IssuedBy(s, e) == [] || (n < 255 && IssuedBy(s, e) == [n + 1])
    ensures Inv(Step(s, e), n + |IssuedBy(s, e)|)
  {
    hide CniCidr;
  }

  /**
   * Over any run from an empty directory the octets issued are 1, 2, 3, ... without a gap or a
   * repetition, at most 255 of them, whatever was released in between; and the state agrees.
   */
  lemma {:induction false} NeverReused(events: seq<Event>)
    ensures Inv(Run(events), |Issued(events)|)
    ensures |Issued(events)| <= 255
    ensures forall i :: 0 <= i < |Issued(events)| ==> Issued(events)[i] == i + 1
  {
    if events != [] {
      hide Inv, Step, IssuedBy;
      var before, e := events[..|events| - 1], events[|events| - 1];
      NeverReused(before);
      StepInv(Run(before), e, |Issued(before)|);
      InvBound(Run(events), |Issued(events)|);
    } else {
      InvBound(INITIAL, 0);
    }
  }

  lemma InvBound(s: State, n: nat)
    ensures Inv(s, n) ==> n <= 255
    ensures Inv(INITIAL, 0)
  {
  }

  /** After 255 networks every new name fails and changes nothing, for good. */
  lemma ExhaustedForGood(events: seq<Event>, more: seq<Event>, name: string, writes: bool)
    requires |Issued(events)| == 255
    requires name !in Run(events + more).allocations
    ensures Issued(events + more) == Issued(events)
    ensures !Succeeds(Run(events + more), Ensure(name, writes))
    ensures Step(Run(events + more), Ensure(name, writes)) == Run(events + more)
  {
    hide Run, Issued, Inv, Step, Succeeds;
    IssuedGrow(events, more);
    NeverReused(events + more);
    ExhaustedStep(Run(events + more), name, writes);
  }

  lemma ExhaustedStep(s: State, name: string, writes: bool)
    requires Inv(s, 255) && name !in s.allocations
    ensures !Succeeds(s, Ensure(name, writes)) && Step(s, Ensure(name, writes)) == s
  {
  }

  lemma {:induction false} IssuedGrow(events: seq<Event>, more: seq<Event>)
    ensures Issued(events) <= Issued(events + more)
  {
    hide Run, IssuedBy;
    var all := events + more;
    if more == [] {
      assert all == events;
    } else {
      var n := |more| - 1;
      assert all[..|all| - 1] == events + more[..n];
      IssuedGrow(events, more[..n]);
    }
  }

  lemma ConflistOctet(s: State, n: nat, name: string)
    requires Inv(s, n) && name in s.conf
    ensures name in s.allocations && s.conf[name] == ConflistFor(name, s.allocations[name])
  {
  }

  lemma KeepsStep(s: State, e: Event, name: string)
    requires name in s.conf && name in s.allocations && (e.Remove? ==> e.name != name)
    ensures name in Step(s, e).conf && Step(s, e).conf[name] == s.conf[name]
    ensures name in Step(s, e).allocations && Step(s, e).allocations[name] == s.allocations[name]
  {
  }

  /**
   * From any reachable state a name with a conflist keeps that conflist and the allocator keeps its
   * octet, through any further calls but a removal of the name itself: also once the pool is
   * exhausted, and whatever fails.
   */
  lemma {:induction false} KeepsNetwork(events: seq<Event>, more: seq<Event>, name: string)
    requires name in Run(events).conf
    requires forall e <- more :: e.Remove? ==> e.name != name
    ensures var s, s' := Run(events), Run(events + more);
            && name in s'.conf && s'.conf[name] == s.conf[name]
            && name in s.allocations && name in s'.allocations && s'.allocations[name] == s.allocations[name]
            && s'.conf[name] == ConflistFor(name, s.allocations[name])
  {
    hide Step, ConflistFor, Inv, Issued;
    NeverReused(events);
    ConflistOctet(Run(events), |Issued(events)|, name);
    var all := events + more;
    if more == [] {
      assert all == events;
    } else {
      var n := |more| - 1;
      assert all[..|all| - 1] == events + more[..n];
      KeepsNetwork(events, more[..n], name);
      assert more[n] in more;
      KeepsStep(Run(events + more[..n]), more[n], name);
    }
  }

  /**
   * In any reachable state the conflist of a name is for that name and bridge and covers exactly the
   * addresses 172.20.x.0 to 172.20.x.255, where x is the octet the allocator holds for the name.
   */
  lemma NetworkExactly(events: seq<Event>, name: string, addr: Address)
    requires name in Run(events).conf
    ensures var s := Run(events);
            && s.conf[name].name == name && s.conf[name].bridge == "cni-" + name
            && name in s.allocations && s.allocations[name] != 0
            && (Covers(s.conf[name].subnet, addr) <==>
                  addr.a == 172 && addr.b == 20 && addr.c == s.allocations[name])
  {
    hide Cidr, Run, Covers;
    NeverReused(events);
    CidrCovers(172, 20, Run(events).allocations[name], addr);
  }

  /** No two conflists of a reachable state cover a common address. */
  lemma DisjointNetworks(events: seq<Event>, a: string, b: string, addr: Address)
    requires a in Run(events).conf && b in Run(events).conf && a != b
    ensures !(Covers(Run(events).conf[a].subnet, addr) && Covers(Run(events).conf[b].subnet, addr))
  {
    hide Run, Covers;
    NetworkExactly(events, a, addr);
    NetworkExactly(events, b, addr);
    NeverReused(events);
  }

  /**
   * In any reachable state a network is made for a name, given that its file can be written, exactly
   * when there is one already, or its octet is still held, or fewer than 255 octets were issued; a
   * new name gets the next octet.
   */
  lemma EnsuredExactly(events: seq<Event>, name: string, writes: bool)
    ensures var s, e := Run(events), Ensure(name, writes);
            var s' := Step(s, e);
            && (Succeeds(s, e) <==>
                  name in s.conf || (writes && (name in s.allocations || |Issued(events)| < 255)))
            && (name in s'.conf <==> Succeeds(s, e))
            && (name !in s.allocations && |Issued(events)| < 255 ==>
                  name in s'.allocations && s'.allocations[name] == |Issued(events)| + 1)
            && (name in s.allocations ==> name in s'.allocations && s'.allocations[name] == s.allocations[name])
            && (forall other :: other != name ==>
                  && (other in s'.conf <==> other in s.conf)
                  && (other in s'.conf ==> s'.conf[other] == s.conf[other])
                  && (other in s'.allocations <==> other in s.allocations)
                  && (other in s'.allocations ==> s'.allocations[other] == s.allocations[other]))
  {
    hide Run, Issued, CniCidr;
    NeverReused(events);
  }

  /** A removal that succeeds takes the file and the octet of that name and nothing else. */
  lemma RemovedExactly(s: State, name: string, deletes: bool)
    ensures var e := Remove(name, deletes);
            var s' := Step(s, e);
            && (Succeeds(s, e) <==> name !in s.conf || deletes)
            && (!Succeeds(s, e) ==> s' == s)
            && (Succeeds(s, e) ==> name !in s'.conf && name !in s'.allocations)
            && s'.next == s.next
            && (forall other :: other != name ==>
                  && (other in s'.conf <==> other in s.conf)
                  && (other in s'.conf ==> s'.conf[other] == s.conf[other])
                  && (other in s'.allocations <==> other in s.allocations)
                  && (other in s'.allocations ==> s'.allocations[other] == s.allocations[other]))
  {
  }
}
