/**
 * The string operations that the proxy adapters use, on sequences of Unicode scalar values.
 */
module Strings {
  import opened Sequences

  /** The characters with the Unicode White_Space property. */
  predicate IsWhitespace(c: char) {
    var n := c as int;
    || 0x9 <= n <= 0xD || n == 0x20 || n == 0x85 || n == 0xA0 || n == 0x1680
    || 0x2000 <= n <= 0x200A || n == 0x2028 || n == 0x2029 || n == 0x202F || n == 0x205F
    || n == 0x3000
  }

  function TrimStart(s: string): string {
    if s != "" && IsWhitespace(s[0]) then TrimStart(s[1..]) else s
  }

  function TrimEnd(s: string): string {
    if s != "" && IsWhitespace(s[|s| - 1]) then TrimEnd(s[..|s| - 1]) else s
  }

  function Trim(s: string): string {
    TrimEnd(TrimStart(s))
  }

  predicate EndsWithChar(s: string, c: char) {
    s != "" && s[|s| - 1] == c
  }

  function StripCr(s: string): string {
    if EndsWithChar(s, '\r') then s[..|s| - 1] else s
  }

  /** `str::lines`: pieces ended by a newline, or a final piece without one. */
  function Lines(s: string): seq<string>
    decreases |s|
  {
    var k := Find(s, '\n');
    if s == "" then []
    else if k == |s| then [s]
    else [StripCr(s[..k])] + Lines(s[k + 1..])
  }

  function Unlines(ls: seq<string>): string {
    if ls == [] then "" else ls[0] + "\n" + Unlines(ls[1..])
  }

  function NonBlank(ls: seq<string>): seq<string> {
    if ls == [] then []
    else (if ls[0] == "" then [] else [ls[0]]) + NonBlank(ls[1..])
  }

  predicate CleanLine(s: string) {
    '\n' !in s && '\r' !in s
  }

  predicate CleanLines(ls: seq<string>) {
    forall i :: 0 <= i < |ls| ==> CleanLine(ls[i])
  }

  lemma {:induction false} LinesOfUnlines(ls: seq<string>)
    requires CleanLines(ls)
    ensures Lines(Unlines(ls)) == ls
  {
    if ls != [] {
      var s, rest := Unlines(ls), Unlines(ls[1..]);
      assert CleanLine(ls[0]);
      assert s == ls[0] + ['\n'] + rest;
      FindAt(ls[0], '\n', rest);
      assert s[..|ls[0]|] == ls[0] && s[|ls[0]| + 1..] == rest;
      assert ls == [ls[0]] + ls[1..];
      LinesOfUnlines(ls[1..]);
    }
  }

  lemma {:induction false} UnlinesAppend(a: seq<string>, b: seq<string>)
    ensures Unlines(a + b) == Unlines(a) + Unlines(b)
  {
    if a == [] {
      assert a + b == b;
    } else {
      assert (a + b)[1..] == a[1..] + b;
      UnlinesAppend(a[1..], b);
    }
  }

  lemma {:induction false} NonBlankAppend(a: seq<string>, b: seq<string>)
    ensures NonBlank(a + b) == NonBlank(a) + NonBlank(b)
  {
    if a == [] {
      assert a + b == b;
    } else {
      assert (a + b)[1..] == a[1..] + b;
      NonBlankAppend(a[1..], b);
    }
  }

  lemma {:induction false} NonBlankAll(a: seq<string>)
    requires "" !in a
    ensures NonBlank(a) == a
  {
    if a != [] {
      NonBlankAll(a[1..]);
    }
  }

  // ---- Trimming ----

  lemma {:induction false} TrimStartMembers(s: string)
    ensures forall c :: c in TrimStart(s) ==> c in s
  {
    if s != "" && IsWhitespace(s[0]) {
      TrimStartMembers(s[1..]);
    }
  }

  lemma {:induction false} TrimEndMembers(s: string)
    ensures forall c :: c in TrimEnd(s) ==> c in s
  {
    if s != "" && IsWhitespace(s[|s| - 1]) {
      TrimEndMembers(s[..|s| - 1]);
    }
  }

  lemma TrimMembers(s: string)
    ensures forall c :: c in Trim(s) ==> c in s
  {
    TrimStartMembers(s);
    TrimEndMembers(TrimStart(s));
  }

  predicate Solid(s: string) {
    s != "" && !IsWhitespace(s[0]) && !IsWhitespace(s[|s| - 1])
  }

  /** Four spaces of indentation disappear, and text without outer whitespace stays. */
  lemma TrimIndented(s: string)
    requires Solid(s)
    ensures Trim(s) == s && Trim("    " + s) == s
  {
    TrimSpace(s);
    TrimSpace(" " + s);
    TrimSpace(" " + (" " + s));
    TrimSpace(" " + (" " + (" " + s)));
    assert "    " + s == " " + (" " + (" " + (" " + s)));
  }

  lemma TrimSpace(s: string)
    ensures TrimStart(" " + s) == TrimStart(s)
  {
    assert (" " + s)[1..] == s;
  }

  // ---- Words ----

  predicate NoSpace(s: string) {
    ' ' !in s
  }

  /** Two words before a space: one is a prefix of the other's line only if they are equal. */
  lemma WordPrefix(d: string, w: string, rest: string)
    requires NoSpace(d) && NoSpace(w)
    ensures d + " " <= w + " " + rest <==> d == w
  {
    var line := w + " " + rest;
    assert line[|w|] == ' ';
    if d + " " <= line {
      assert line[|d|] == (d + " ")[|d|] == ' ';
      assert line[..|d|] == d;
      FindAt(w, ' ', rest);
      assert line == d + [' '] + line[|d| + 1..];
      FindAt(d, ' ', line[|d| + 1..]);
      assert d == line[..|d|] == line[..|w|] == w;
    }
  }

  /** `join(" ")`. */
  function JoinSpace(words: seq<string>): string {
    if |words| == 0 then ""
    else if |words| == 1 then words[0]
    else words[0] + " " + JoinSpace(words[1..])
  }

  /** `split(' ')`. */
  function Words(s: string): seq<string>
    decreases |s|
  {
    var k := Find(s, ' ');
    if k == |s| then [s] else [s[..k]] + Words(s[k + 1..])
  }

  lemma {:induction false} WordsOfJoin(words: seq<string>)
    requires words != []
    requires forall i :: 0 <= i < |words| ==> NoSpace(words[i])
    ensures Words(JoinSpace(words)) == words
  {
    assert NoSpace(words[0]);
    if |words| > 1 {
      hide Words, Find;
      WordsStep(words[0], JoinSpace(words[1..]));
      WordsOfJoin(words[1..]);
      assert words == [words[0]] + words[1..];
    } else {
      assert Find(words[0], ' ') == |words[0]|;
    }
  }

  lemma WordsStep(first: string, rest: string)
    requires NoSpace(first)
    ensures Words(first + " " + rest) == [first] + Words(rest)
  {
    var s := first + " " + rest;
    assert s == first + [' '] + rest;
    FindAt(first, ' ', rest);
    assert s[..|first|] == first && s[|first| + 1..] == rest;
  }

  lemma {:induction false} JoinMembers(words: seq<string>, c: char)
    requires c != ' '
    requires forall i :: 0 <= i < |words| ==> c !in words[i]
    ensures c !in JoinSpace(words)
  {
    if |words| > 1 {
      JoinMembers(words[1..], c);
    }
  }
}
