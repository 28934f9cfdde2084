/** The JavaScript string operations the extension relies on (`indexOf`, `slice`, `trim`,
    `startsWith`, `endsWith`, `join`, the `\s` and `.` character classes) and the
    offset-to-line mapping of an editor document, over `seq<char>`. */
module JsString {

  /** The characters of the `\s` class; `String.prototype.trim` removes the same set
      (ECMAScript WhiteSpace and LineTerminator). */
  predicate IsWhitespace(c: char) {
    || c == ' ' || c == '\t' || c == '\n' || c == '\U{B}' || c == '\U{C}' || c == '\r'
    || c == '\U{A0}' || c == '\U{1680}' || ('\U{2000}' <= c <= '\U{200A}')
    || c == '\U{2028}' || c == '\U{2029}' || c == '\U{202F}' || c == '\U{205F}'
    || c == '\U{3000}' || c == '\U{FEFF}'
  }

  /** The characters that the regular-expression atom `.` does not match. */
  predicate IsLineTerminator(c: char) {
    c == '\n' || c == '\r' || c == '\U{2028}' || c == '\U{2029}'
  }

  /** The class `['"]`. */
  predicate IsQuote(c: char) {
    c == '\'' || c == '"'
  }

  lemma QuoteNotWhitespace(c: char)
    requires IsQuote(c)
    ensures !IsWhitespace(c)
  {
  }

  predicate AllWhitespace(s: string) {
    forall i :: 0 <= i < |s| ==> IsWhitespace(s[i])
  }

  predicate OccursAt(s: string, sub: string, i: int) {
    0 <= i && i + |sub| <= |s| && s[i..i + |sub|] == sub
  }

  function IndexOfFrom(s: string, sub: string, from: nat): (r: int)
    ensures r == -1 || (from <= r && OccursAt(s, sub, r))
    ensures forall j :: from <= j && (r == -1 || j < r) ==> !OccursAt(s, sub, j)
    decreases |s| - from
  {
    if from + |sub| > |s| then -1
    else if s[from..from + |sub|] == sub then from
    else IndexOfFrom(s, sub, from + 1)
  }

  /** `s.indexOf(sub)`: the first index at which `sub` occurs in `s`, or -1. */
  function IndexOf(s: string, sub: string): (r: int)
    ensures r == -1 <==> forall j :: !OccursAt(s, sub, j)
    ensures r != -1 ==> OccursAt(s, sub, r) && forall j :: 0 <= j < r ==> !OccursAt(s, sub, j)
  {
    IndexOfFrom(s, sub, 0)
  }

  /** How `slice` reads an index: negative indices count from the end, and the result
      is clamped to `[0, len]`. */
  function SliceIndex(len: nat, k: int): (r: nat)
    ensures r <= len
    ensures 0 <= k <= len ==> r == k
    ensures -(len as int) <= k < 0 ==> r == len as int + k
  {
    if k < 0 then (if len + k < 0 then 0 else len + k)
    else if k > len then len
    else k
  }

  /** Out-of-range `slice` indices are clamped: below `-len` to 0, above `len` to `len`. */
  lemma SliceIndexClamped(len: nat, k: int)
    ensures k < -(len as int) ==> SliceIndex(len, k) == 0
    ensures k > len as int ==> SliceIndex(len, k) == len
  {
  }

  /** `s.slice(start, end)`. */
  function Slice(s: string, start: int, end: int): (r: string)
    ensures |r| <= |s|
  {
    var from := SliceIndex(|s|, start);
    var to := SliceIndex(|s|, end);
    if from < to then s[from..to] else ""
  }

  /** `x.slice(a, -b)` for indices inside `x`. */
  lemma SliceWithin(x: string, a: nat, b: nat)
    requires 1 <= b && a + b <= |x|
    ensures Slice(x, a, -(b as int)) == x[a..|x| - b]
  {
  }

  lemma SubSlice(s: string, a: nat, b: nat, c: nat, d: nat)
    requires a <= b <= |s| && c <= d <= b - a
    ensures s[a..b][c..d] == s[a + c..a + d]
  {
    assert |s[a..b][c..d]| == |s[a + c..a + d]|;
    forall j | 0 <= j < d - c ensures s[a..b][c..d][j] == s[a + c..a + d][j] {
    }
  }

  lemma SplitSlice(s: string, a: nat, b: nat, c: nat)
    requires a <= b <= c <= |s|
    ensures s[a..c] == s[a..b] + s[b..c]
  {
    assert |s[a..c]| == |s[a..b] + s[b..c]|;
    forall j | 0 <= j < c - a ensures s[a..c][j] == (s[a..b] + s[b..c])[j] {
    }
  }

  /** Text between a fixed prefix and a fixed suffix is determined by the whole. */
  lemma ConcatCancel(prefix: string, x: string, y: string, suffix: string)
    requires prefix + x + suffix == prefix + y + suffix
    ensures x == y
  {
    var s := prefix + x + suffix;
    assert |x| == |y|;
    assert x == s[|prefix|..|prefix| + |x|];
    assert y == (prefix + y + suffix)[|prefix|..|prefix| + |y|];
  }

  /** `s.trimStart()`: drops the leading whitespace. */
  function TrimStart(s: string): (r: string)
    ensures |r| <= |s|
  {
    if s != [] && IsWhitespace(s[0]) then TrimStart(s[1..]) else s
  }

  /** `trimStart` removes exactly the leading whitespace: what it drops is whitespace and
      what it keeps does not start with whitespace. */
  lemma {:induction false} TrimStartShape(s: string)
    ensures TrimStart(s) == s[|s| - |TrimStart(s)|..]
    ensures AllWhitespace(s[..|s| - |TrimStart(s)|])
    ensures TrimStart(s) != [] ==> !IsWhitespace(TrimStart(s)[0])
    decreases |s|
  {
    if s != [] && IsWhitespace(s[0]) {
      TrimStartShape(s[1..]);
      var d := |s[1..]| - |TrimStart(s[1..])|;
      assert s[1..][d..] == s[d + 1..];
      var dropped := s[..d + 1];
      forall j | 0 <= j < d + 1 ensures IsWhitespace(dropped[j]) {
        if j > 0 {
          assert dropped[j] == s[1..][..d][j - 1];
        }
      }
    }
  }

  /** `s.trimEnd()`: drops the trailing whitespace. */
  function TrimEnd(s: string): (r: string)
    ensures |r| <= |s|
  {
    if s != [] && IsWhitespace(s[|s| - 1]) then TrimEnd(s[..|s| - 1]) else s
  }

  /** `trimEnd` removes exactly the trailing whitespace. */
  lemma {:induction false} TrimEndShape(s: string)
    ensures TrimEnd(s) == s[..|TrimEnd(s)|]
    ensures AllWhitespace(s[|TrimEnd(s)|..])
    ensures TrimEnd(s) != [] ==> !IsWhitespace(TrimEnd(s)[|TrimEnd(s)| - 1])
    decreases |s|
  {
    if s != [] && IsWhitespace(s[|s| - 1]) {
      var t := s[..|s| - 1];
      TrimEndShape(t);
      var n := |TrimEnd(t)|;
      assert t[..n] == s[..n];
      forall j | 0 <= j < |s| - n ensures IsWhitespace(s[n..][j]) {
        if n + j < |s| - 1 {
          assert s[n..][j] == t[n..][j];
        }
      }
    }
  }

  /** `s.trim()`. */
  function Trim(s: string): string {
    TrimEnd(TrimStart(s))
  }

  /** Whitespace around a core that starts and ends with a non-whitespace character is
      exactly what `trim` removes. */
  lemma {:induction false} TrimAround(before: string, core: string, after: string)
    requires AllWhitespace(before) && AllWhitespace(after)
    requires core != [] && !IsWhitespace(core[0]) && !IsWhitespace(core[|core| - 1])
    ensures Trim(before + core + after) == core
  {
    TrimStartSkips(before, core + after);
    assert before + core + after == before + (core + after);
    TrimEndSkips(core, after);
  }

  lemma {:induction false} TrimStartSkips(before: string, rest: string)
    requires AllWhitespace(before)
    requires rest != [] && !IsWhitespace(rest[0])
    ensures TrimStart(before + rest) == rest
    decreases |before|
  {
    if before != [] {
      assert (before + rest)[1..] == before[1..] + rest;
      TrimStartSkips(before[1..], rest);
    }
  }

  lemma {:induction false} TrimEndSkips(rest: string, after: string)
    requires AllWhitespace(after)
    requires rest != [] && !IsWhitespace(rest[|rest| - 1])
    ensures TrimEnd(rest + after) == rest
    decreases |after|
  {
    if after == [] {
      assert rest + after == rest;
    } else {
      assert (rest + after)[..|rest + after| - 1] == rest + after[..|after| - 1];
      TrimEndSkips(rest, after[..|after| - 1]);
    }
  }

  /** `s.startsWith(prefix)`. */
  predicate StartsWith(s: string, prefix: string) {
    |prefix| <= |s| && s[..|prefix|] == prefix
  }

  /** `s.endsWith(suffix)`. */
  predicate EndsWith(s: string, suffix: string) {
    |suffix| <= |s| && s[|s| - |suffix|..] == suffix
  }

  /** `parts.join(separator)`. */
  function Join(parts: seq<string>, separator: string): string {
    if parts == [] then ""
    else if |parts| == 1 then parts[0]
    else parts[0] + separator + Join(parts[1..], separator)
  }

  /** `document.positionAt(offset)`, as an offset: out-of-range offsets are clamped to
      the document. */
  function PositionAt(text: string, offset: int): (r: nat)
    ensures r <= |text|
    ensures 0 <= offset <= |text| ==> r == offset
    ensures offset < 0 ==> r == 0
    ensures offset > |text| ==> r == |text|
  {
    if offset < 0 then 0 else if offset > |text| then |text| else offset
  }

  function CountNewlines(s: string): nat {
    if s == [] then 0
    else CountNewlines(s[..|s| - 1]) + (if s[|s| - 1] == '\n' then 1 else 0)
  }

  /** The lines of `text`, split at each `\n` (a line keeps a `\r` that precedes its
      `\n`; `LineText` drops it). */
  function Lines(text: string): (r: seq<string>)
    ensures |r| == CountNewlines(text) + 1
  {
    if text == [] then [""]
    else
      var ls := Lines(text[..|text| - 1]);
      var c := text[|text| - 1];
      if c == '\n' then ls + [""]
      else ls[..|ls| - 1] + [ls[|ls| - 1] + [c]]
  }

  /** `document.positionAt(offset).line`: the number of line breaks before `offset`. */
  function LineOf(text: string, offset: nat): (r: nat)
    requires offset <= |text|
    ensures r < |Lines(text)|
  {
    NewlinesInPrefix(text, offset);
    CountNewlines(text[..offset])
  }

  /** The offset at which line `k` of `lines` starts: the lengths of the lines before it,
      each with its line break. */
  function StartOf(lines: seq<string>, k: nat): nat
    requires k <= |lines|
  {
    if k == 0 then 0 else StartOf(lines, k - 1) + |lines[k - 1]| + 1
  }

  /** The offset at which line `k` of `text` starts. */
  function LineStart(text: string, k: nat): nat
    requires k < |Lines(text)|
  {
    StartOf(Lines(text), k)
  }

  lemma {:induction false} StartOfPrefix(ls: seq<string>, ms: seq<string>, k: nat)
    requires k <= |ls| && k <= |ms| && ls[..k] == ms[..k]
    ensures StartOf(ls, k) == StartOf(ms, k)
  {
    if k > 0 {
      assert ls[..k - 1] == ls[..k][..k - 1];
      assert ms[..k - 1] == ms[..k][..k - 1];
      assert ls[k - 1] == ls[..k][k - 1];
      assert ms[k - 1] == ms[..k][k - 1];
      StartOfPrefix(ls, ms, k - 1);
    }
  }

  /** The lines with their line breaks make up the whole text: the last line ends at the
      end of the text. */
  lemma {:induction false} LinesCover(text: string)
    ensures LineStart(text, |Lines(text)| - 1) + |Lines(text)[|Lines(text)| - 1]| == |text|
    decreases |text|
  {
    if text != [] {
      var t := text[..|text| - 1];
      var L := Lines(t);
      var n := |L|;
      var ls := Lines(text);
      LinesCover(t);
      if text[|text| - 1] == '\n' {
        assert ls == L + [""];
        assert ls[..n - 1] == L[..n - 1];
        StartOfPrefix(ls, L, n - 1);
        assert ls[n - 1] == L[n - 1];
      } else {
        assert ls == L[..n - 1] + [L[n - 1] + [text[|text| - 1]]];
        assert ls[..n - 1] == L[..n - 1];
        StartOfPrefix(ls, L, n - 1);
      }
    }
  }

  /** Offset `o` lies on line `LineOf(text, o)`: at or after its start and at most at its
      end, where its line break (or the end of the text) is. */
  lemma {:induction false} LineOfWithin(text: string, o: nat)
    requires o <= |text|
    ensures LineStart(text, LineOf(text, o)) <= o <= LineStart(text, LineOf(text, o)) + |Lines(text)[LineOf(text, o)]|
    decreases |text|
  {
    if text != [] {
      var t := text[..|text| - 1];
      var c := text[|text| - 1];
      var L := Lines(t);
      var n := |L|;
      var ls := Lines(text);
      if o <= |t| {
        assert text[..o] == t[..o];
        var k := LineOf(t, o);
        assert LineOf(text, o) == k;
        LineOfWithin(t, o);
        if c == '\n' {
          assert ls == L + [""];
          assert ls[..k] == L[..k];
          assert ls[k] == L[k];
        } else {
          assert ls == L[..n - 1] + [L[n - 1] + [c]];
          assert ls[..k] == L[..k];
          assert |ls[k]| >= |L[k]|;
        }
        StartOfPrefix(ls, L, k);
      } else {
        assert text[..o] == text;
        LinesCover(t);
        if c == '\n' {
          assert ls == L + [""];
          assert LineOf(text, o) == n;
          assert ls[..n - 1] == L[..n - 1];
          StartOfPrefix(ls, L, n - 1);
          assert ls[n - 1] == L[n - 1];
        } else {
          assert ls == L[..n - 1] + [L[n - 1] + [c]];
          assert LineOf(text, o) == n - 1;
          assert ls[..n - 1] == L[..n - 1];
          StartOfPrefix(ls, L, n - 1);
        }
      }
    }
  }

  /** `document.lineAt(k).text`: line `k` without its line break. */
  function LineText(text: string, k: nat): string
    requires k < |Lines(text)|
  {
    var line := Lines(text)[k];
    if line != [] && line[|line| - 1] == '\r' then line[..|line| - 1] else line
  }

  lemma {:induction false} NewlinesInPrefix(s: string, i: nat)
    requires i <= |s|
    ensures CountNewlines(s[..i]) <= CountNewlines(s)
    decreases |s|
  {
    if i < |s| {
      assert s[..|s| - 1][..i] == s[..i];
      NewlinesInPrefix(s[..|s| - 1], i);
    } else {
      assert s[..i] == s;
    }
  }
}
