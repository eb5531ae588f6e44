/**
 * Turning a query name into addresses: `host.project.internal`, where a host of the form
 * `deployment-<index>` may name one replica of a deployment.
 */
module Resolver {
  import opened Wrappers
  import opened Bytes
  import opened Sequences
  import opened RecordStore

  const USIZE_MAX: nat := 0xFFFF_FFFF_FFFF_FFFF

  // ---- The string operations the resolver is made of ----

  /** `trim_end_matches('.')`. */
  function TrimEndDots(s: Text): Text {
    if s != [] && s[|s| - 1] == DOT then TrimEndDots(s[..|s| - 1]) else s
  }

  /** `splitn(3, '.')`, when it yields three parts. */
  function SplitThree(s: Text): Option<(Text, Text, Text)> {
    var i := Find(s, DOT);
    if i == |s| then None
    else
      var rest := s[i + 1..];
      var j := Find(rest, DOT);
      if j == |rest| then None else Some((s[..i], rest[..j], rest[j + 1..]))
  }

  predicate IsDigit(b: byte) {
    ZERO <= b <= ZERO + 9
  }

  predicate AllDigits(s: Text) {
    forall i :: 0 <= i < |s| ==> IsDigit(s[i])
  }

  function Value(digits: Text): nat
    requires AllDigits(digits)
  {
    if digits == [] then 0
    else
      assert IsDigit(digits[|digits| - 1]);
      Value(digits[..|digits| - 1]) * 10 + (digits[|digits| - 1] as int - ZERO as int)
  }

  /** `parse::<usize>()`: an optional plus sign, at least one digit, and no overflow. */
  function ParseUsize(s: Text): Option<nat> {
    var digits := if s != [] && s[0] == PLUS then s[1..] else s;
    if digits == [] || !AllDigits(digits) then None
    else if Value(digits) > USIZE_MAX then None
    else Some(Value(digits))
  }

  /** A number as `format!` prints it. */
  function DecimalText(n: nat): Text {
    seq(|Digits(n)|, i requires 0 <= i < |Digits(n)| => ZERO + Digits(n)[i] as byte)
  }

  // ---- resolve ----

  function ResolveReplica(e: Entries, project: Text, host: Text): Option<Ip> {
    var dash := RFind(host, DASH);
    if dash < 0 then None
    else
      match ParseUsize(host[dash + 1..])
      case None => None
      case Some(index) => LookupReplica(e, project, host[..dash], index)
  }

  function ResolveHost(e: Entries, project: Text, host: Text): Option<seq<Ip>> {
    var replica := ResolveReplica(e, project, host);
    if replica.Some? then Some([replica.value])
    else
      var ips := Lookup(e, project, host);
      if ips == [] then None else Some(ips)
  }

  function Resolve(e: Entries, name: Text): Option<seq<Ip>> {
    var parts := SplitThree(TrimEndDots(name));
    if parts.None? || parts.value.2 != INTERNAL then None
    else ResolveHost(e, parts.value.1, parts.value.0)
  }

  // ---- Names ----

  function InternalName(host: Text, project: Text): Text {
    host + [DOT] + project + [DOT] + INTERNAL
  }

  lemma {:induction false} TrimDots(s: Text, n: nat)
    requires s != [] && s[|s| - 1] != DOT
    ensures TrimEndDots(s + Dots(n)) == s
  {
    var t := s + Dots(n);
    if n == 0 {
      assert t == s;
    } else {
      assert t[..|t| - 1] == s + Dots(n - 1);
      TrimDots(s, n - 1);
    }
  }

  lemma {:induction false} TrimmedSuffix(s: Text) returns (n: nat)
    ensures s == TrimEndDots(s) + Dots(n)
  {
    if s != [] && s[|s| - 1] == DOT {
      var m := TrimmedSuffix(s[..|s| - 1]);
      n := m + 1;
      assert s == s[..|s| - 1] + [DOT];
    } else {
      n := 0;
    }
  }

  lemma SplitInternal(host: Text, project: Text)
    requires DotFree(host) && DotFree(project)
    ensures SplitThree(InternalName(host, project)) == Some((host, project, INTERNAL))
  {
    var s := InternalName(host, project);
    assert s == host + [DOT] + (project + [DOT] + INTERNAL);
    FindAt(host, DOT, project + [DOT] + INTERNAL);
    assert s[|host| + 1..] == project + [DOT] + INTERNAL;
    FindAt(project, DOT, INTERNAL);
    assert s[..|host|] == host;
    var rest := s[|host| + 1..];
    assert rest[..|project|] == project && rest[|project| + 1..] == INTERNAL;
  }

  /** Every spelling of an internal name, whatever its trailing dots, resolves as its host does. */
  lemma ResolveInternal(e: Entries, host: Text, project: Text, dots: nat)
    requires DotFree(host) && DotFree(project)
    ensures Resolve(e, InternalName(host, project) + Dots(dots)) == ResolveHost(e, project, host)
  {
    var s := InternalName(host, project);
    assert s[|s| - 1] == INTERNAL[7];
    TrimDots(s, dots);
    SplitInternal(host, project);
  }

  lemma SplitJoins(s: Text)
    requires SplitThree(s).Some?
    ensures var (a, b, c) := SplitThree(s).value;
            DotFree(a) && DotFree(b) && s == a + [DOT] + b + [DOT] + c
  {
    hide Find;
    var i := Find(s, DOT);
    var rest := s[i + 1..];
    var j := Find(rest, DOT);
    assert s == s[..i] + [DOT] + rest;
    assert rest == rest[..j] + [DOT] + rest[j + 1..];
  }

  /** No other name resolves, and no name resolves to an empty list. */
  lemma ResolveOnlyInternal(e: Entries, name: Text) returns (host: Text, project: Text, dots: nat)
    requires Resolve(e, name).Some?
    ensures DotFree(host) && DotFree(project)
    ensures name == InternalName(host, project) + Dots(dots)
    ensures Resolve(e, name) == ResolveHost(e, project, host)
    ensures Resolve(e, name).value != []
  {
    dots := TrimmedSuffix(name);
    SplitJoins(TrimEndDots(name));
    var parts := SplitThree(TrimEndDots(name)).value;
    host, project := parts.0, parts.1;
  }

  // ---- Replica names ----

  lemma DecimalEnd(n: nat)
    requires n >= 10
    ensures DecimalText(n) == DecimalText(n / 10) + [ZERO + (n % 10) as byte]
  {
  }

  lemma {:induction false} DecimalDigits(n: nat)
    ensures DecimalText(n) != [] && AllDigits(DecimalText(n))
    ensures Value(DecimalText(n)) == n
  {
    if n >= 10 {
      DecimalDigits(n / 10);
      DecimalEnd(n);
      var init := DecimalText(n / 10);
      assert DecimalText(n)[..|init|] == init;
    }
  }

  function Zeros(k: nat): Text {
    seq(k, _ => ZERO)
  }

  lemma {:induction false} ZerosDigits(k: nat, digits: Text)
    requires AllDigits(digits)
    ensures AllDigits(Zeros(k) + digits) && Value(Zeros(k) + digits) == Value(digits)
    decreases k + |digits|
  {
    var s := Zeros(k) + digits;
    if digits != [] {
      var n := |digits| - 1;
      assert IsDigit(digits[n]);
      ZerosDigits(k, digits[..n]);
      assert s[..|s| - 1] == Zeros(k) + digits[..n] && s[|s| - 1] == digits[n];
    } else if k > 0 {
      ZerosDigits(k - 1, []);
      assert s[..k - 1] == Zeros(k - 1) + [] && s[k - 1] == ZERO;
    } else {
      assert s == [];
    }
  }

  lemma {:induction false} DigitsSpell(digits: Text) returns (k: nat)
    requires digits != [] && AllDigits(digits)
    ensures digits == Zeros(k) + DecimalText(Value(digits))
  {
    var n := |digits| - 1;
    var init, last := digits[..n], digits[n];
    assert digits == init + [last] && IsDigit(last);
    var d := last as int - ZERO as int;
    if n == 0 {
      k := 0;
      assert Value(init) == 0 && DecimalText(d) == [last];
    } else {
      k := DigitsSpell(init);
      var v := Value(init);
      if v == 0 {
        assert DecimalText(0) == [ZERO] && DecimalText(d) == [last];
        assert init == Zeros(k + 1);
        k := k + 1;
      } else {
        DecimalEnd(v * 10 + d);
        assert (v * 10 + d) / 10 == v && (v * 10 + d) % 10 == d;
      }
    }
  }

  /** The text reads as this number: an optional plus sign, any zeros, and its decimal digits. */
  ghost predicate Spells(s: Text, n: nat) {
    exists k: nat :: s == Zeros(k) + DecimalText(n) || s == [PLUS] + (Zeros(k) + DecimalText(n))
  }

  /** A suffix parses to a number exactly when it spells that number and `usize` can hold it. */
  lemma ParseExactly(s: Text, n: nat)
    ensures ParseUsize(s) == Some(n) <==> n < 0x1_0000_0000_0000_0000 && Spells(s, n)
  {
    hide DecimalText, Value;
    if ParseUsize(s) == Some(n) {
      var digits := if s != [] && s[0] == PLUS then s[1..] else s;
      var k := DigitsSpell(digits);
      assert s == digits || s == [PLUS] + digits;
    }
    if k: nat :| s == Zeros(k) + DecimalText(n) || s == [PLUS] + (Zeros(k) + DecimalText(n)) {
      SpellingParses(s, n, k);
    }
  }

  lemma SpellingParses(s: Text, n: nat, k: nat)
    requires s == Zeros(k) + DecimalText(n) || s == [PLUS] + (Zeros(k) + DecimalText(n))
    ensures ParseUsize(s) == if n <= USIZE_MAX then Some(n) else None
  {
    hide DecimalText, Value;
    var digits := Zeros(k) + DecimalText(n);
    DecimalDigits(n);
    ZerosDigits(k, DecimalText(n));
    assert digits != [] && IsDigit(digits[0]);
    assert s == [PLUS] + digits ==> s[1..] == digits;
  }

  lemma ParseDecimal(n: nat)
    ensures ParseUsize(DecimalText(n)) == if n < 0x1_0000_0000_0000_0000 then Some(n) else None
    ensures DASH !in DecimalText(n) && DOT !in DecimalText(n)
    ensures Spells(DecimalText(n), n)
  {
    hide DecimalText, Value;
    DecimalDigits(n);
    assert DecimalText(n) == Zeros(0) + DecimalText(n);
    SpellingParses(DecimalText(n), n, 0);
  }

  /** `host` reads as replica `index` of deployment `d`. */
  ghost predicate ReplicaName(host: Text, d: Text, suffix: Text, index: nat) {
    host == d + [DASH] + suffix && DASH !in suffix && index <= USIZE_MAX && Spells(suffix, index)
  }

  /** A host name that reads as a replica in range resolves to that one address. */
  lemma ReplicaAnswer(e: Entries, project: Text, host: Text, d: Text, suffix: Text, index: nat)
    requires ReplicaName(host, d, suffix, index)
    requires index < |Lookup(e, project, d)|
    ensures ResolveHost(e, project, host) == Some([Lookup(e, project, d)[index]])
  {
    hide ParseUsize, Spells;
    ParseExactly(suffix, index);
    RFindAt(d, DASH, suffix);
    assert host[..|d|] == d && host[|d| + 1..] == suffix;
  }

  ghost predicate NamesReplica(e: Entries, project: Text, host: Text) {
    exists d, suffix, index: nat ::
      ReplicaName(host, d, suffix, index) && index < |Lookup(e, project, d)|
  }

  lemma ReplicaFound(e: Entries, project: Text, host: Text)
    requires ResolveReplica(e, project, host).Some?
    ensures NamesReplica(e, project, host)
  {
    hide ParseUsize, Spells;
    var dash := RFind(host, DASH);
    var d, suffix := host[..dash], host[dash + 1..];
    assert host == d + [DASH] + suffix;
    var index := ParseUsize(suffix).value;
    ParseExactly(suffix, index);
    assert ReplicaName(host, d, suffix, index);
  }

  /**
   * Any other host name (no dash, a suffix that is no number, one that overflows, or an index out
   * of range) resolves to the whole list of the deployment of that full name, or to nothing.
   */
  lemma WholeHostAnswer(e: Entries, project: Text, host: Text)
    requires !NamesReplica(e, project, host)
    ensures ResolveHost(e, project, host) ==
            if Lookup(e, project, host) == [] then None else Some(Lookup(e, project, host))
  {
    if ResolveReplica(e, project, host).Some? {
      ReplicaFound(e, project, host);
    }
  }

  lemma SuffixUnique(d: Text, suffix: Text, d': Text, suffix': Text)
    requires DASH !in suffix && DASH !in suffix' && d + [DASH] + suffix == d' + [DASH] + suffix'
    ensures suffix == suffix'
  {
    var host := d + [DASH] + suffix;
    RFindAt(d, DASH, suffix);
    RFindAt(d', DASH, suffix');
    assert suffix == host[|d| + 1..] == host[|d'| + 1..] == suffix';
  }

  /** A dash before text that spells no number does not make a replica name. */
  lemma DashedNameAnswer(e: Entries, project: Text, d: Text, suffix: Text)
    requires DASH !in suffix && forall n: nat :: n <= USIZE_MAX ==> !Spells(suffix, n)
    ensures var host := d + [DASH] + suffix;
            ResolveHost(e, project, host) ==
            if Lookup(e, project, host) == [] then None else Some(Lookup(e, project, host))
  {
    hide ResolveHost, Lookup, Spells;
    var host := d + [DASH] + suffix;
    forall d', suffix', index: nat
      ensures ReplicaName(host, d', suffix', index) ==> index <= USIZE_MAX && Spells(suffix, index)
    {
      if ReplicaName(host, d', suffix', index) {
        SuffixUnique(d, suffix, d', suffix');
      }
    }
    WholeHostAnswer(e, project, host);
  }

  /** Digits only, at least one, behind an optional plus sign. */
  predicate LooksNumeric(s: Text) {
    && s != [] && s != [43]
    && forall i :: 0 <= i < |s| ==> 48 <= s[i] <= 57 || (i == 0 && s[i] == 43)
  }

  lemma SpelledDigits(s: Text, n: nat)
    requires Spells(s, n)
    ensures LooksNumeric(s)
  {
    hide DecimalText, Value, AllDigits;
    DecimalDigits(n);
    var k: nat :| s == Zeros(k) + DecimalText(n) || s == [PLUS] + (Zeros(k) + DecimalText(n));
    ZerosDigits(k, DecimalText(n));
    NumericDigits(Zeros(k) + DecimalText(n));
  }

  lemma NumericDigits(digits: Text)
    requires AllDigits(digits) && digits != []
    ensures LooksNumeric(digits) && LooksNumeric([PLUS] + digits)
  {
    assert IsDigit(digits[0]);
    assert |[PLUS] + digits| > 1;
  }

  /** So a host whose part behind the last dash is no numeral is the full name of its deployment. */
  lemma WordSuffixAnswer(e: Entries, project: Text, d: Text, suffix: Text)
    requires DASH !in suffix && !LooksNumeric(suffix)
    ensures var host := d + [DASH] + suffix;
            ResolveHost(e, project, host) ==
            if Lookup(e, project, host) == [] then None else Some(Lookup(e, project, host))
  {
    hide Spells, LooksNumeric, ResolveHost, Lookup;
    forall n: nat
      ensures Spells(suffix, n) ==> LooksNumeric(suffix)
    {
      if Spells(suffix, n) {
        SpelledDigits(suffix, n);
      }
    }
    DashedNameAnswer(e, project, d, suffix);
  }

  /**
   * Replica names round-trip: in every reachable store, for every deployment name (dashes allowed)
   * and every index it has, the printed replica name resolves to exactly that address.
   */
  lemma ReplicaRoundTrip(ops: seq<Op>, project: Text, d: Text, index: nat, dots: nat)
    requires DotFree(project) && DotFree(d)
    requires index < |Lookup(Run(ops), project, d)| && index <= USIZE_MAX
    ensures Resolve(Run(ops), InternalName(d + [DASH] + DecimalText(index), project) + Dots(dots)) ==
            Some([Lookup(Run(ops), project, d)[index]])
  {
    ParseDecimal(index);
    var host := d + [DASH] + DecimalText(index);
    ResolveInternal(Run(ops), host, project, dots);
    ReplicaAnswer(Run(ops), project, host, d, DecimalText(index), index);
  }
}
