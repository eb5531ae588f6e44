/**
 * What `std::str::from_utf8` accepts: exactly the encodings of sequences of Unicode scalar values.
 */
module Utf8 {
  import opened Bytes

  /** A code point that is no surrogate. */
  predicate IsScalar(c: int) {
    0 <= c < 0xD800 || 0xE000 <= c < 0x11_0000
  }

  function Tail(bits: nat): byte {
    (0x80 + bits % 64) as byte
  }

  /** The encoding of one scalar value (RFC 3629, section 3). */
  function EncodeScalar(c: int): Text
    requires IsScalar(c)
  {
    if c < 0x80 then [c as byte]
    else if c < 0x800 then [(0xC0 + c / 64) as byte, Tail(c)]
    else if c < 0x1_0000 then [(0xE0 + c / 4096) as byte, Tail(c / 64), Tail(c)]
    else [(0xF0 + c / 262144) as byte, Tail(c / 4096), Tail(c / 64), Tail(c)]
  }

  function EncodeText(cs: seq<int>): Text
    requires forall i :: 0 <= i < |cs| ==> IsScalar(cs[i])
  {
    if cs == [] then [] else EncodeScalar(cs[0]) + EncodeText(cs[1..])
  }

  lemma ValidOne(s: Text)
    requires s != [] && s[0] < 0x80
    ensures ValidUtf8(s) == ValidUtf8(s[1..])
  {
  }

  lemma ValidTwo(s: Text)
    requires |s| >= 2 && 0xC2 <= s[0] <= 0xDF && Continuation(s[1])
    ensures ValidUtf8(s) == ValidUtf8(s[2..])
  {
  }

  lemma ValidThree(s: Text)
    requires |s| >= 3 && 0xE0 <= s[0] <= 0xEF && Continuation(s[1]) && Continuation(s[2])
    requires (s[0] == 0xE0 ==> 0xA0 <= s[1]) && (s[0] == 0xED ==> s[1] <= 0x9F)
    ensures ValidUtf8(s) == ValidUtf8(s[3..])
  {
  }

  lemma ValidFour(s: Text)
    requires |s| >= 4 && 0xF0 <= s[0] <= 0xF4 && Continuation(s[1]) && Continuation(s[2]) && Continuation(s[3])
    requires (s[0] == 0xF0 ==> 0x90 <= s[1]) && (s[0] == 0xF4 ==> s[1] <= 0x8F)
    ensures ValidUtf8(s) == ValidUtf8(s[4..])
  {
  }

  lemma FrontTwo(c: int, rest: Text)
    requires 0x80 <= c < 0x800
    ensures ValidUtf8(EncodeScalar(c) + rest) == ValidUtf8(rest)
  {
    hide ValidUtf8;
    var s := EncodeScalar(c) + rest;
    ValidTwo(s);
    assert s[2..] == rest;
  }

  lemma ThreeBounds(c: int)
    requires 0x800 <= c < 0x1_0000 && IsScalar(c)
    ensures var a, b := (0xE0 + c / 4096) as byte, Tail(c / 64);
            && 0xE0 <= a <= 0xEF && Continuation(b)
            && (a == 0xE0 ==> 0xA0 <= b) && (a == 0xED ==> b <= 0x9F)
  {
  }

  lemma FrontThree(c: int, rest: Text)
    requires 0x800 <= c < 0x1_0000 && IsScalar(c)
    ensures ValidUtf8(EncodeScalar(c) + rest) == ValidUtf8(rest)
  {
    hide ValidUtf8;
    var s := EncodeScalar(c) + rest;
    ThreeBounds(c);
    ValidThree(s);
    assert s[3..] == rest;
  }

  lemma FourBounds(c: int)
    requires 0x1_0000 <= c < 0x11_0000
    ensures var a, b := (0xF0 + c / 262144) as byte, Tail(c / 4096);
            && 0xF0 <= a <= 0xF4 && Continuation(b)
            && (a == 0xF0 ==> 0x90 <= b) && (a == 0xF4 ==> b <= 0x8F)
  {
  }

  lemma FrontFour(c: int, rest: Text)
    requires 0x1_0000 <= c < 0x11_0000
    ensures ValidUtf8(EncodeScalar(c) + rest) == ValidUtf8(rest)
  {
    hide ValidUtf8;
    var s := EncodeScalar(c) + rest;
    FourBounds(c);
    ValidFour(s);
    assert s[4..] == rest;
  }

  /** An encoded scalar in front changes nothing. */
  lemma EncodedFront(c: int, rest: Text)
    requires IsScalar(c)
    ensures ValidUtf8(EncodeScalar(c) + rest) == ValidUtf8(rest)
  {
    if c < 0x80 {
      var s := EncodeScalar(c) + rest;
      ValidOne(s);
      assert s[1..] == rest;
    } else if c < 0x800 {
      FrontTwo(c, rest);
    } else if c < 0x1_0000 {
      FrontThree(c, rest);
    } else {
      FrontFour(c, rest);
    }
  }

  function Bits(b: byte): int {
    b as int % 64
  }

  /** Valid text that is not empty starts with an encoded scalar. */
  lemma FirstScalar(s: Text) returns (c: int)
    requires s != [] && ValidUtf8(s)
    ensures IsScalar(c) && |EncodeScalar(c)| <= |s| && s == EncodeScalar(c) + s[|EncodeScalar(c)|..]
    ensures ValidUtf8(s[|EncodeScalar(c)|..])
  {
    if s[0] < 0x80 {
      c := s[0] as int;
      assert EncodeScalar(c) == s[..1];
    } else if s[0] <= 0xDF {
      c := (s[0] as int - 0xC0) * 64 + Bits(s[1]);
      TwoBytes(s[0], s[1]);
      assert s[..2] == [s[0], s[1]];
    } else if s[0] <= 0xEF {
      c := (s[0] as int - 0xE0) * 4096 + Bits(s[1]) * 64 + Bits(s[2]);
      ThreeBytes(s[0], s[1], s[2]);
      assert s[..3] == [s[0], s[1], s[2]];
    } else {
      c := (s[0] as int - 0xF0) * 262144 + Bits(s[1]) * 4096 + Bits(s[2]) * 64 + Bits(s[3]);
      FourBytes(s[0], s[1], s[2], s[3]);
      assert s[..4] == [s[0], s[1], s[2], s[3]];
    }
  }

  lemma TailOfBits(b: byte, high: nat)
    requires Continuation(b)
    ensures Tail(high * 64 + Bits(b)) == b && (high * 64 + Bits(b)) / 64 == high
  {
  }

  lemma TwoBytes(a: byte, b: byte)
    requires 0xC2 <= a <= 0xDF && Continuation(b)
    ensures var c := (a as int - 0xC0) * 64 + Bits(b); IsScalar(c) && EncodeScalar(c) == [a, b]
  {
    TailOfBits(b, a as int - 0xC0);
  }

  lemma ThreeBytes(a: byte, b: byte, d: byte)
    requires 0xE0 <= a <= 0xEF && Continuation(b) && Continuation(d)
    requires (a == 0xE0 ==> 0xA0 <= b) && (a == 0xED ==> b <= 0x9F)
    ensures var c := (a as int - 0xE0) * 4096 + Bits(b) * 64 + Bits(d); IsScalar(c) && EncodeScalar(c) == [a, b, d]
  {
    var high := (a as int - 0xE0) * 64 + Bits(b);
    var c := (a as int - 0xE0) * 4096 + Bits(b) * 64 + Bits(d);
    assert c == high * 64 + Bits(d);
    TailOfBits(d, high);
    TailOfBits(b, a as int - 0xE0);
    assert c / 4096 == a as int - 0xE0;
  }

  lemma FourBytes(a: byte, b: byte, d: byte, e: byte)
    requires 0xF0 <= a <= 0xF4 && Continuation(b) && Continuation(d) && Continuation(e)
    requires (a == 0xF0 ==> 0x90 <= b) && (a == 0xF4 ==> b <= 0x8F)
    ensures var c := (a as int - 0xF0) * 262144 + Bits(b) * 4096 + Bits(d) * 64 + Bits(e);
            IsScalar(c) && EncodeScalar(c) == [a, b, d, e]
  {
    var top := (a as int - 0xF0) * 64 + Bits(b);
    var high := top * 64 + Bits(d);
    var c := (a as int - 0xF0) * 262144 + Bits(b) * 4096 + Bits(d) * 64 + Bits(e);
    assert c == high * 64 + Bits(e);
    TailOfBits(e, high);
    TailOfBits(d, top);
    TailOfBits(b, a as int - 0xF0);
    assert c / 64 == high && c / 4096 == top && c / 262144 == a as int - 0xF0;
  }

  lemma {:induction false} EncodedIsValid(cs: seq<int>)
    requires forall i :: 0 <= i < |cs| ==> IsScalar(cs[i])
    ensures ValidUtf8(EncodeText(cs))
  {
    if cs != [] {
      EncodedIsValid(cs[1..]);
      EncodedFront(cs[0], EncodeText(cs[1..]));
    }
  }

  lemma {:induction false} ValidIsEncoded(s: Text) returns (cs: seq<int>)
    requires ValidUtf8(s)
    ensures forall i :: 0 <= i < |cs| ==> IsScalar(cs[i])
    ensures EncodeText(cs) == s
    decreases |s|
  {
    cs := [];
    if s != [] {
      hide ValidUtf8;
      var c := FirstScalar(s);
      assert |EncodeScalar(c)| > 0;
      var rest := ValidIsEncoded(s[|EncodeScalar(c)|..]);
      cs := [c] + rest;
      assert cs[1..] == rest;
    }
  }

  ghost predicate IsEncoding(s: Text) {
    exists cs: seq<int> :: (forall i :: 0 <= i < |cs| ==> IsScalar(cs[i])) && EncodeText(cs) == s
  }

  /** Text is accepted exactly when it encodes scalar values. */
  lemma AcceptedExactly(s: Text)
    ensures ValidUtf8(s) <==> IsEncoding(s)
  {
    if ValidUtf8(s) {
      var cs := ValidIsEncoded(s);
    }
    if cs: seq<int> :| (forall i :: 0 <= i < |cs| ==> IsScalar(cs[i])) && EncodeText(cs) == s {
      EncodedIsValid(cs);
    }
  }
}
