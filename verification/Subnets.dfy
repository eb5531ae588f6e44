/** How both subnet allocators print a /24 network, and what a reader of that text makes of it. */
module Subnets {
  import opened Wrappers
  import opened Sequences

  type Octet = x: int | 0 <= x < 256

  /** A number as `format!` prints it. */
  function Decimal(n: nat): (s: string)
    ensures |s| > 0
    ensures forall i :: 0 <= i < |s| ==> '0' <= s[i] <= '9'
  {
    seq(|Digits(n)|, i requires 0 <= i < |Digits(n)| => ('0' as int + Digits(n)[i]) as char)
  }

  function Cidr(first: Octet, second: Octet, third: Octet): string {
    Decimal(first) + "." + Decimal(second) + "." + Decimal(third) + ".0/24"
  }

  // ---- Reading a network ----

  predicate IsNumeral(s: string) {
    s != "" && forall i :: 0 <= i < |s| ==> '0' <= s[i] <= '9'
  }

  function NumberOf(s: string): nat
    requires forall i :: 0 <= i < |s| ==> '0' <= s[i] <= '9'
  {
    if s == "" then 0
    else NumberOf(s[..|s| - 1]) * 10 + (s[|s| - 1] as int - '0' as int)
  }

  /** Numbers with dots between them. */
  function ReadDotted(s: string): Option<seq<nat>>
    decreases |s|
  {
    var k := Find(s, '.');
    if !IsNumeral(s[..k]) then None
    else if k == |s| then Some([NumberOf(s[..k])])
    else
      var rest := ReadDotted(s[k + 1..]);
      if rest.None? then None else Some([NumberOf(s[..k])] + rest.value)
  }

  /** An address and the length of its network prefix (RFC 4632, section 3.1). */
  function ReadCidr(s: string): Option<(seq<nat>, nat)> {
    var k := Find(s, '/');
    if k == |s| || !IsNumeral(s[k + 1..]) then None
    else
      var address := ReadDotted(s[..k]);
      if address.None? then None else Some((address.value, NumberOf(s[k + 1..])))
  }

  function Pow2(n: nat): nat {
    if n == 0 then 1 else 2 * Pow2(n - 1)
  }

  lemma {:induction false} Pow2Positive(n: nat)
    ensures Pow2(n) > 0
  {
    if n > 0 {
      Pow2Positive(n - 1);
    }
  }

  datatype Address = Address(a: Octet, b: Octet, c: Octet, d: Octet)

  function AddressNumber(addr: Address): nat {
    ((addr.a * 256 + addr.b) * 256 + addr.c) * 256 + addr.d
  }

  /** The address lies in the network of that text: it agrees with it on the bits of the prefix. */
  ghost predicate Covers(cidr: string, addr: Address) {
    var read := ReadCidr(cidr);
    && read.Some? && |read.value.0| == 4 && read.value.1 <= 32
    && (forall i :: 0 <= i < 4 ==> read.value.0[i] < 256)
    && var net := Address(read.value.0[0], read.value.0[1], read.value.0[2], read.value.0[3]);
       var size := Pow2(32 - read.value.1);
       Pow2Positive(32 - read.value.1);
       AddressNumber(net) / size == AddressNumber(addr) / size
  }

  // ---- Printed networks read back ----

  lemma {:induction false} NumberOfDecimal(n: nat)
    ensures NumberOf(Decimal(n)) == n
  {
    var s := Decimal(n);
    if n >= 10 {
      NumberOfDecimal(n / 10);
      assert s[..|s| - 1] == Decimal(n / 10);
    } else {
      assert s[..0] == "";
    }
  }

  lemma ReadDottedStep(n: nat, rest: string)
    ensures ReadDotted(Decimal(n) + "." + rest) ==
            if ReadDotted(rest).None? then None else Some([n] + ReadDotted(rest).value)
  {
    hide Decimal, NumberOf;
    var s := Decimal(n) + "." + rest;
    assert '.' !in Decimal(n);
    FindAt(Decimal(n), '.', rest);
    assert s[..|Decimal(n)|] == Decimal(n) && s[|Decimal(n)| + 1..] == rest;
    NumberOfDecimal(n);
  }

  lemma ReadDottedLast(n: nat)
    ensures ReadDotted(Decimal(n)) == Some([n])
  {
    hide Decimal, NumberOf;
    var s := Decimal(n);
    assert Find(s, '.') == |s| && s[..|s|] == s;
    NumberOfDecimal(n);
  }

  lemma SmallNumerals()
    ensures Decimal(0) == "0" && Decimal(24) == "24"
  {
    assert Digits(24) == Digits(2) + [4];
  }

  /** The printed text is the network of its three octets, with a prefix of 24 bits. */
  lemma CidrReads(a: Octet, b: Octet, c: Octet)
    ensures ReadCidr(Cidr(a, b, c)) == Some(([a, b, c, 0], 24))
  {
    SmallNumerals();
    hide Decimal, ReadDotted, NumberOf;
    var tail := Decimal(c) + "." + Decimal(0);
    var rest := Decimal(b) + "." + tail;
    var dotted := Decimal(a) + "." + rest;
    ReadDottedLast(0);
    ReadDottedStep(c, Decimal(0));
    ReadDottedStep(b, tail);
    ReadDottedStep(a, rest);
    var octets: seq<nat> := [a] + ([b] + ([c] + [0]));
    assert octets == [a, b, c, 0];
    assert ReadDotted(dotted) == Some(octets);
    assert Cidr(a, b, c) == dotted + "/" + Decimal(24);
    NoSlash(a, b, c);
    FindAt(dotted, '/', Decimal(24));
    var s := dotted + "/" + Decimal(24);
    assert s[..|dotted|] == dotted && s[|dotted| + 1..] == Decimal(24);
    NumberOfDecimal(24);
  }

  lemma NoSlash(a: nat, b: nat, c: nat)
    ensures '/' !in Decimal(a) + "." + (Decimal(b) + "." + (Decimal(c) + "." + Decimal(0)))
  {
    hide Decimal;
    assert '/' !in Decimal(a) && '/' !in Decimal(b) && '/' !in Decimal(c) && '/' !in Decimal(0) && '/' !in ".";
  }

  /** Two networks print alike only if they are the same network. */
  lemma CidrInjective(a: Octet, b: Octet, c: Octet, a': Octet, b': Octet, c': Octet)
    ensures Cidr(a, b, c) == Cidr(a', b', c') <==> a == a' && b == b' && c == c'
  {
    hide Cidr, ReadCidr;
    CidrReads(a, b, c);
    CidrReads(a', b', c');
    assert [a, b, c, 0][0] == a && [a, b, c, 0][1] == b && [a, b, c, 0][2] == c;
    assert [a', b', c', 0][0] == a' && [a', b', c', 0][1] == b' && [a', b', c', 0][2] == c';
  }

  lemma BlockNumber(x: Address)
    ensures AddressNumber(x) / 256 == (x.a * 256 + x.b) * 256 + x.c
  {
  }

  lemma SameDigits(high: int, low: Octet, high': int, low': Octet)
    ensures high * 256 + low == high' * 256 + low' <==> high == high' && low == low'
  {
  }

  lemma SameBlock(x: Address, y: Address)
    ensures AddressNumber(x) / 256 == AddressNumber(y) / 256 <==> x.a == y.a && x.b == y.b && x.c == y.c
  {
    hide AddressNumber;
    BlockNumber(x);
    BlockNumber(y);
    SameDigits(x.a * 256 + x.b, x.c, y.a * 256 + y.b, y.c);
    SameDigits(x.a, x.b, y.a, y.b);
  }

  /** A printed network covers exactly the 256 addresses that start with its octets. */
  lemma CidrCovers(a: Octet, b: Octet, c: Octet, addr: Address)
    ensures Covers(Cidr(a, b, c), addr) <==> addr.a == a && addr.b == b && addr.c == c
  {
    hide Cidr, ReadCidr, AddressNumber;
    CidrReads(a, b, c);
    assert Pow2(8) == 256 by {
      assert Pow2(4) == 16 && Pow2(6) == 64;
    }
    SameBlock(Address(a, b, c, 0), addr);
  }
}
