/**
 * Bytes, big-endian integers and text as the embedded DNS server handles them.
 *
 * A Rust `str` is a sequence of bytes that is valid UTF-8, so names are modelled as byte
 * sequences and `std::str::from_utf8` as the predicate `ValidUtf8`.
 */
module Bytes {
  newtype byte = x: int | 0 <= x < 256
  type u16 = x: int | 0 <= x < 0x1_0000

  type Text = seq<byte>

  const DOT: byte := 0x2E
  const DASH: byte := 0x2D
  const PLUS: byte := 0x2B
  const ZERO: byte := 0x30

  /** The bytes of `internal`, the top-level label the server answers for. */
  const INTERNAL: Text := [105, 110, 116, 101, 114, 110, 97, 108]

  function Hi(x: u16): byte {
    (x / 256) as byte
  }

  function Lo(x: u16): byte {
    (x % 256) as byte
  }

  function U16(hi: byte, lo: byte): u16 {
    hi as int * 256 + lo as int
  }

  lemma BigEndian(x: u16)
    ensures U16(Hi(x), Lo(x)) == x
  {
  }

  // ---- UTF-8 ----

  predicate Continuation(b: byte) {
    0x80 <= b <= 0xBF
  }

  /** Well-formed UTF-8, as in table 3-7 of the Unicode Standard. */
  predicate ValidUtf8(s: Text)
    decreases |s|
  {
    if s == [] then true
    else if s[0] < 0x80 then ValidUtf8(s[1..])
    else if 0xC2 <= s[0] <= 0xDF then
      |s| >= 2 && Continuation(s[1]) && ValidUtf8(s[2..])
    else if 0xE0 <= s[0] <= 0xEF then
      && |s| >= 3
      && (s[0] == 0xE0 ==> 0xA0 <= s[1])
      && (s[0] == 0xED ==> s[1] <= 0x9F)
      && Continuation(s[1]) && Continuation(s[2]) && ValidUtf8(s[3..])
    else if 0xF0 <= s[0] <= 0xF4 then
      && |s| >= 4
      && (s[0] == 0xF0 ==> 0x90 <= s[1])
      && (s[0] == 0xF4 ==> s[1] <= 0x8F)
      && Continuation(s[1]) && Continuation(s[2]) && Continuation(s[3]) && ValidUtf8(s[4..])
    else false
  }

  predicate IsAscii(s: Text) {
    forall i :: 0 <= i < |s| ==> s[i] < 0x80
  }

  lemma {:induction false} AsciiIsUtf8(s: Text)
    requires IsAscii(s)
    ensures ValidUtf8(s)
  {
    if s != [] {
      AsciiIsUtf8(s[1..]);
    }
  }

  // ---- Letter case ----

  function LowerByte(b: byte): byte {
    if 65 <= b <= 90 then b + 32 else b
  }

  function AsciiLower(s: Text): (r: Text)
    ensures |r| == |s|
    ensures forall i :: 0 <= i < |s| ==> r[i] == LowerByte(s[i])
  {
    seq(|s|, i requires 0 <= i < |s| => LowerByte(s[i]))
  }

  /** The same byte but for the case of an ASCII letter. */
  predicate SameButCase(a: byte, b: byte) {
    a == b || (65 <= a <= 90 && b as int == a as int + 32) || (65 <= b <= 90 && a as int == b as int + 32)
  }

  /** Texts are alike in lower case exactly when they differ in the case of ASCII letters only. */
  lemma LowerAlike(a: Text, b: Text)
    ensures AsciiLower(a) == AsciiLower(b) <==>
              |a| == |b| && forall i :: 0 <= i < |a| ==> SameButCase(a[i], b[i])
  {
    if AsciiLower(a) == AsciiLower(b) {
      assert |a| == |AsciiLower(a)| == |b|;
      forall i | 0 <= i < |a|
        ensures SameButCase(a[i], b[i])
      {
        assert AsciiLower(a)[i] == AsciiLower(b)[i];
      }
    }
  }

  /**
   * `str::to_lowercase`. What it does outside ASCII comes from the Unicode tables, which stay a
   * parameter.
   */
  function ToLowercase(s: Text, unicodeLower: Text -> Text): Text {
    if IsAscii(s) then AsciiLower(s) else unicodeLower(s)
  }

  // ---- Dots ----

  predicate DotFree(s: Text) {
    DOT !in s
  }

  /** `labels.join(".")`. */
  function Join(labels: seq<Text>): Text {
    if |labels| == 0 then []
    else if |labels| == 1 then labels[0]
    else labels[0] + [DOT] + Join(labels[1..])
  }

  function Dots(n: nat): Text {
    seq(n, _ => DOT)
  }

  lemma SliceOfSlice<T>(s: seq<T>, a: nat, b: nat, c: nat, d: nat)
    requires a <= b <= |s| && c <= d <= b - a
    ensures s[a..b][c..d] == s[a + c..a + d]
  {
    var x, y := s[a..b][c..d], s[a + c..a + d];
    assert |x| == |y|;
    assert forall i :: 0 <= i < |x| ==> x[i] == s[a..b][c + i] == s[a + c + i] == y[i];
  }
}
