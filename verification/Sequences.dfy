/** Searching in sequences, and the decimal digits of a number. */
module Sequences {
  /** The first position of an element, or the length when it is absent. */
  function Find<T(==)>(s: seq<T>, x: T): (k: nat)
    ensures k <= |s| && (k < |s| ==> s[k] == x)
    ensures forall i :: 0 <= i < k ==> s[i] != x
  {
    if s == [] || s[0] == x then 0 else 1 + Find(s[1..], x)
  }

  /** The last position of an element, or -1. */
  function RFind<T(==)>(s: seq<T>, x: T): (k: int)
    ensures -1 <= k < |s| && (0 <= k ==> s[k] == x)
    ensures forall i :: k < i < |s| ==> s[i] != x
  {
    if s == [] then -1
    else if s[|s| - 1] == x then |s| - 1
    else RFind(s[..|s| - 1], x)
  }

  lemma {:induction false} FindAt<T>(a: seq<T>, x: T, rest: seq<T>)
    requires x !in a
    ensures Find(a + [x] + rest, x) == |a|
  {
    var s := a + [x] + rest;
    if a != [] {
      assert s[1..] == a[1..] + [x] + rest;
      FindAt(a[1..], x, rest);
    }
  }

  lemma {:induction false} RFindAt<T>(a: seq<T>, x: T, rest: seq<T>)
    requires x !in rest
    ensures RFind(a + [x] + rest, x) == |a|
  {
    var s := a + [x] + rest;
    if rest == [] {
      assert s[|s| - 1] == x;
    } else {
      var shorter := rest[..|rest| - 1];
      assert s[..|s| - 1] == a + [x] + shorter;
      assert s[|s| - 1] == rest[|rest| - 1];
      RFindAt(a, x, shorter);
    }
  }

  /** The digits of a number as `format!` prints them, most significant first. */
  function Digits(n: nat): (ds: seq<nat>)
    ensures |ds| > 0
    ensures forall i :: 0 <= i < |ds| ==> ds[i] < 10
  {
    if n < 10 then [n] else Digits(n / 10) + [n % 10]
  }
}
