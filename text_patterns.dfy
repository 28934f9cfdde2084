/** Hand-written scanners for the four regular expressions the extension matches against
    file text. Each `...At(s, i)` answers what the backtracking matcher answers when it
    tries the pattern at index `i` (the end of the match, or None); `MatchSpans` is the
    left-to-right, non-overlapping search of a `/g` pattern, as `String.prototype.match`
    performs it. */
module TextPatterns {
  import opened Wrappers
  import opened JsString

  /** Where a greedy `.*` that starts at `k` stops: the first line terminator at or
      after `k`, or the end of `s`. */
  function LineEnd(s: string, k: nat): (e: nat)
    requires k <= |s|
    ensures k <= e <= |s|
    ensures forall j :: k <= j < e ==> !IsLineTerminator(s[j])
    ensures e < |s| ==> IsLineTerminator(s[e])
    decreases |s| - k
  {
    if k == |s| || IsLineTerminator(s[k]) then k else LineEnd(s, k + 1)
  }

  /** Where a greedy `(\s)*` that starts at `k` stops. */
  function SkipWhitespace(s: string, k: nat): (e: nat)
    requires k <= |s|
    ensures k <= e <= |s|
    ensures forall j :: k <= j < e ==> IsWhitespace(s[j])
    ensures e < |s| ==> !IsWhitespace(s[e])
    decreases |s| - k
  {
    if k == |s| || !IsWhitespace(s[k]) then k else SkipWhitespace(s, k + 1)
  }

  // ---------------------------------------------------------------------------------
  // `/\/\/.*\n/g` (comments of a loader file)

  /** `s[i..e]` is a text `//.*\n`: two slashes, characters other than line terminators,
      and a `\n`. */
  ghost predicate LineCommentShape(s: string, i: nat, e: nat) {
    && i + 2 < e <= |s| && s[i] == '/' && s[i + 1] == '/' && s[e - 1] == '\n'
    && forall j :: i + 2 <= j < e - 1 ==> !IsLineTerminator(s[j])
  }

  /** `//.*\n` at `i`: `.*` runs to the end of the line, and the line must end in `\n`. */
  function LineCommentAt(s: string, i: nat): (r: Option<nat>)
    requires i <= |s|
    ensures r.Some? ==> i < r.value <= |s|
  {
    if i + 2 <= |s| && s[i] == '/' && s[i + 1] == '/' then
      var e := LineEnd(s, i + 2);
      if e < |s| && s[e] == '\n' then Some(e + 1) else None
    else None
  }

  /** A line comment matches at `i` and ends at `e` exactly when `s[i..e]` has the
      comment shape: the first line terminator after the slashes is a `\n`, and the
      match takes it. */
  lemma LineCommentAtIff(s: string, i: nat, e: nat)
    requires i <= |s|
    ensures LineCommentAt(s, i) == Some(e) <==> LineCommentShape(s, i, e)
  {
    if LineCommentShape(s, i, e) {
      var l := LineEnd(s, i + 2);
      assert IsLineTerminator(s[e - 1]);
      assert l == e - 1;
    }
  }

  // ---------------------------------------------------------------------------------
  // `/\((\s)*['"].*["'](\s)*\)/g` (prefix "") and `/hidden\((\s)*['"].*['"](\s)*\)/g`
  // (prefix "hidden")

  /** A quote at `c` that whitespace and then `)` follow: where `["'](\s)*\)` matches. */
  predicate ClosesArgument(s: string, c: nat)
    requires c < |s|
  {
    IsQuote(s[c]) && var q := SkipWhitespace(s, c + 1); q < |s| && s[q] == ')'
  }

  /** The backtracking of `.*["'](\s)*\)`: the closing quote is the LAST index below `p`
      (and at least `lo`) where `ClosesArgument` holds. */
  function ClosingQuote(s: string, lo: nat, p: nat): (r: Option<nat>)
    requires lo <= p <= |s|
    ensures r.Some? ==> lo <= r.value < p && ClosesArgument(s, r.value)
    ensures forall j :: lo <= j < p && (r.None? || r.value < j) ==> !ClosesArgument(s, j)
    decreases p
  {
    if p == lo then None
    else if ClosesArgument(s, p - 1) then Some(p - 1)
    else ClosingQuote(s, lo, p - 1)
  }

  /** `s[i..k + 1]` is a text `prefix\((\s)*['"]`: the prefix, `(`, whitespace, and a
      quote at `k`. */
  ghost predicate OpeningQuoteShape(s: string, prefix: string, i: nat, k: nat) {
    var n := i + |prefix|;
    && n < k < |s| && s[i..n] == prefix && s[n] == '('
    && (forall j :: n < j < k ==> IsWhitespace(s[j])) && IsQuote(s[k])
  }

  /** Index of the opening quote of a quoted-argument match at `i`, if the pattern's
      `prefix\((\s)*['"]` part matches there. */
  function OpeningQuote(s: string, prefix: string, i: nat): (r: Option<nat>)
    requires i <= |s|
    ensures r.Some? ==> i + |prefix| < r.value < |s| && IsQuote(s[r.value])
  {
    var n := i + |prefix|;
    if n < |s| && s[i..n] == prefix && s[n] == '(' then
      var k := SkipWhitespace(s, n + 1);
      if k < |s| && IsQuote(s[k]) then Some(k) else None
    else None
  }

  /** The opening part matches at `i` with its quote at `k` exactly when `s[i..k + 1]`
      has the opening shape; whitespace and a quote do not overlap, so `k` is unique. */
  lemma OpeningQuoteIff(s: string, prefix: string, i: nat, k: nat)
    requires i <= |s|
    ensures OpeningQuote(s, prefix, i) == Some(k) <==> OpeningQuoteShape(s, prefix, i, k)
  {
    var n := i + |prefix|;
    if OpeningQuoteShape(s, prefix, i, k) {
      QuoteNotWhitespace(s[k]);
      assert SkipWhitespace(s, n + 1) == k;
    }
  }

  /** `c` is the closing quote the backtracking settles on after an opening quote at `k`:
      the last index on the rest of `k`'s line where `ClosesArgument` holds. */
  ghost predicate LastClosingQuote(s: string, k: nat, c: nat)
    requires k < |s|
  {
    var l := LineEnd(s, k + 1);
    k < c < l && ClosesArgument(s, c) && forall j :: c < j < l ==> !ClosesArgument(s, j)
  }

  /** The end of the `.*["'](\s)*\)` part after the opening quote at `k`. */
  function ArgumentEnd(s: string, k: nat): (r: Option<nat>)
    requires k < |s|
    ensures r.Some? ==> k < r.value <= |s|
  {
    match ClosingQuote(s, k + 1, LineEnd(s, k + 1))
    case None => None
    case Some(c) => Some(SkipWhitespace(s, c + 1) + 1)
  }

  /** After an opening quote at `k` the rest of the pattern fails iff no index on the
      rest of the line closes the argument; otherwise it ends just past the `)` that
      follows the LAST index that does. */
  lemma ArgumentEndIff(s: string, k: nat, c: nat)
    requires k < |s|
    ensures ArgumentEnd(s, k).None? <==> forall j :: k < j < LineEnd(s, k + 1) ==> !ClosesArgument(s, j)
    ensures LastClosingQuote(s, k, c) ==> ArgumentEnd(s, k) == Some(SkipWhitespace(s, c + 1) + 1)
    ensures ArgumentEnd(s, k).Some? ==> LastClosingQuote(s, k, ClosingQuote(s, k + 1, LineEnd(s, k + 1)).value)
  {
    var l := LineEnd(s, k + 1);
    var r := ClosingQuote(s, k + 1, l);
    if LastClosingQuote(s, k, c) {
      assert r.Some? && r.value == c;
    }
  }

  /** A quoted-argument match at `i` with its opening quote at `k` and its closing quote
      at `c`. */
  ghost predicate QuotedArgumentShape(s: string, prefix: string, i: nat, k: nat, c: nat) {
    OpeningQuoteShape(s, prefix, i, k) && LastClosingQuote(s, k, c)
  }

  /** `prefix\((\s)*['"].*["'](\s)*\)` at `i`. */
  function QuotedArgumentAt(s: string, prefix: string, i: nat): (r: Option<nat>)
    requires i <= |s|
    ensures r.Some? ==> i < r.value <= |s|
  {
    match OpeningQuote(s, prefix, i)
    case None => None
    case Some(k) => ArgumentEnd(s, k)
  }

  /** The quoted-argument pattern matches at `i` iff its opening part matches and some
      index on the rest of the line closes the argument; a match of shape `(k, c)` ends
      just past the `)` that follows `c`, and every match has such a shape. */
  lemma QuotedArgumentAtIff(s: string, prefix: string, i: nat, k: nat, c: nat)
    requires i <= |s|
    ensures QuotedArgumentAt(s, prefix, i).None? <==>
              forall k': nat, c': nat :: OpeningQuoteShape(s, prefix, i, k') && k' < c' < LineEnd(s, k' + 1) ==> !ClosesArgument(s, c')
    ensures QuotedArgumentShape(s, prefix, i, k, c) ==> QuotedArgumentAt(s, prefix, i) == Some(SkipWhitespace(s, c + 1) + 1)
    ensures QuotedArgumentAt(s, prefix, i).Some? ==>
              exists k': nat, c': nat :: QuotedArgumentShape(s, prefix, i, k', c') && QuotedArgumentAt(s, prefix, i) == Some(SkipWhitespace(s, c' + 1) + 1)
  {
    var o := OpeningQuote(s, prefix, i);
    forall k': nat ensures OpeningQuoteShape(s, prefix, i, k') <==> o == Some(k') {
      OpeningQuoteIff(s, prefix, i, k');
    }
    if o.Some? {
      ArgumentEndIff(s, o.value, c);
      if QuotedArgumentAt(s, prefix, i).Some? {
        var c' := ClosingQuote(s, o.value + 1, LineEnd(s, o.value + 1)).value;
        assert QuotedArgumentShape(s, prefix, i, o.value, c');
      }
    }
  }

  /** What `x.slice(prefixLength + 1, -1).trim().slice(1, -1)` leaves of a match `x`:
      the argument between its quotes. */
  function ArgumentOf(x: string, prefixLength: nat): string {
    Slice(Trim(Slice(x, prefixLength + 1, -1)), 1, -1)
  }

  /** For every text of the quoted-argument shape, `ArgumentOf` returns exactly the text
      between the two quotes, whatever that text contains. */
  lemma QuotedArgumentKey(prefix: string, ws1: string, q1: char, key: string, q2: char, ws2: string)
    requires AllWhitespace(ws1) && AllWhitespace(ws2) && IsQuote(q1) && IsQuote(q2)
    ensures ArgumentOf(prefix + "(" + ws1 + [q1] + key + [q2] + ws2 + ")", |prefix|) == key
  {
    var x := prefix + "(" + ws1 + [q1] + key + [q2] + ws2 + ")";
    var inner := ws1 + [q1] + key + [q2] + ws2;
    assert x == (prefix + "(") + inner + ")";
    assert Slice(x, |prefix| + 1, -1) == inner;
    var core := [q1] + key + [q2];
    assert inner == ws1 + core + ws2;
    TrimAround(ws1, core, ws2);
    assert Slice(core, 1, -1) == key;
  }

  /** The pieces of a text of the quoted-argument shape, located by index in `s`. */
  lemma ArgumentOfPieces(s: string, prefix: string, i: nat, k: nat, c: nat, q: nat)
    requires i + |prefix| < k < c < q < |s|
    requires AllWhitespace(s[i + |prefix| + 1..k])
    requires IsQuote(s[k]) && IsQuote(s[c])
    requires AllWhitespace(s[c + 1..q])
    ensures ArgumentOf(s[i..q + 1], |prefix|) == s[k + 1..c]
  {
    var x := s[i..q + 1];
    DropEnds(x, |prefix|, i, q, s);
    UnquoteTrimmed(s, i + |prefix| + 1, k, c, q);
    ArgumentOfSteps(x, |prefix|, s[i + |prefix| + 1..q], s[k + 1..c]);
  }

  lemma ArgumentOfSteps(x: string, prefixLength: nat, inner: string, key: string)
    requires Slice(x, prefixLength + 1, -1) == inner
    requires Slice(Trim(inner), 1, -1) == key
    ensures ArgumentOf(x, prefixLength) == key
  {
  }

  /** `x.slice(p + 1, -1)` of the text `s[a..q + 1]`. */
  lemma DropEnds(x: string, p: nat, a: nat, q: nat, s: string)
    requires a + p < q < |s| && x == s[a..q + 1]
    ensures Slice(x, p + 1, -1) == s[a + p + 1..q]
  {
    SliceWithin(x, p + 1, 1);
    SubSlice(s, a, q + 1, p + 1, q - a);
  }

  lemma UnquoteTrimmed(s: string, a: nat, k: nat, c: nat, q: nat)
    requires a <= k < c < q <= |s|
    requires AllWhitespace(s[a..k])
    requires IsQuote(s[k]) && IsQuote(s[c])
    requires AllWhitespace(s[c + 1..q])
    ensures Slice(Trim(s[a..q]), 1, -1) == s[k + 1..c]
  {
    TrimQuoted(s, a, k, c, q);
    SliceWithin(s[k..c + 1], 1, 1);
    SubSlice(s, k, c + 1, 1, c - k);
  }

  lemma WhitespaceRun(s: string, a: nat, b: nat)
    requires a <= b <= |s|
    requires forall j :: a <= j < b ==> IsWhitespace(s[j])
    ensures AllWhitespace(s[a..b])
  {
    forall j | 0 <= j < b - a ensures IsWhitespace(s[a..b][j]) {
      assert s[a..b][j] == s[a + j];
    }
  }

  /** Trimming `ws1 'core' ws2`, located by index in `s`, leaves the quoted core. */
  lemma TrimQuoted(s: string, a: nat, k: nat, c: nat, q: nat)
    requires a <= k < c < q <= |s|
    requires IsQuote(s[k]) && IsQuote(s[c])
    requires AllWhitespace(s[a..k]) && AllWhitespace(s[c + 1..q])
    ensures Trim(s[a..q]) == s[k..c + 1]
  {
    var core := s[k..c + 1];
    assert core[0] == s[k] && core[|core| - 1] == s[c];
    QuoteNotWhitespace(s[k]);
    QuoteNotWhitespace(s[c]);
    SplitSlice(s, a, k, q);
    SplitSlice(s, k, c + 1, q);
    assert s[a..q] == s[a..k] + core + s[c + 1..q];
    TrimAround(s[a..k], core, s[c + 1..q]);
  }

  /** The indices a match found at `i` is made of. */
  lemma QuotedArgumentIndices(s: string, prefix: string, i: nat)
    returns (k: nat, c: nat, q: nat)
    requires i <= |s| && QuotedArgumentAt(s, prefix, i).Some?
    ensures OpeningQuote(s, prefix, i) == Some(k)
    ensures ClosingQuote(s, k + 1, LineEnd(s, k + 1)) == Some(c)
    ensures q == SkipWhitespace(s, c + 1)
    ensures QuotedArgumentAt(s, prefix, i) == Some(q + 1)
  {
    k := OpeningQuote(s, prefix, i).value;
    c := ClosingQuote(s, k + 1, LineEnd(s, k + 1)).value;
    q := SkipWhitespace(s, c + 1);
    assert QuotedArgumentAt(s, prefix, i) == ArgumentEnd(s, k);
  }

  lemma OpeningQuoteParts(s: string, prefix: string, i: nat, k: nat)
    requires i <= |s| && OpeningQuote(s, prefix, i) == Some(k)
    ensures s[i..i + |prefix|] == prefix && s[i + |prefix|] == '(' && IsQuote(s[k])
    ensures AllWhitespace(s[i + |prefix| + 1..k])
  {
    WhitespaceRun(s, i + |prefix| + 1, k);
  }

  lemma ClosingQuoteParts(s: string, k: nat, c: nat, q: nat)
    requires k < |s|
    requires ClosingQuote(s, k + 1, LineEnd(s, k + 1)) == Some(c)
    requires q == SkipWhitespace(s, c + 1)
    ensures k < c < q < |s| && IsQuote(s[c]) && s[q] == ')'
    ensures AllWhitespace(s[c + 1..q])
    ensures forall j :: k + 1 <= j < c ==> !IsLineTerminator(s[j])
  {
    WhitespaceRun(s, c + 1, q);
  }

  /** Where the pieces of a match found at `i` lie. */
  lemma QuotedArgumentParts(s: string, prefix: string, i: nat)
    returns (k: nat, c: nat, q: nat)
    requires i <= |s| && QuotedArgumentAt(s, prefix, i).Some?
    ensures OpeningQuote(s, prefix, i) == Some(k)
    ensures ClosingQuote(s, k + 1, LineEnd(s, k + 1)) == Some(c)
    ensures QuotedArgumentAt(s, prefix, i) == Some(q + 1)
    ensures i + |prefix| < k < c < q < |s|
    ensures s[i..i + |prefix|] == prefix && s[i + |prefix|] == '(' && s[q] == ')'
    ensures AllWhitespace(s[i + |prefix| + 1..k]) && AllWhitespace(s[c + 1..q])
    ensures IsQuote(s[k]) && IsQuote(s[c])
    ensures forall j :: k + 1 <= j < c ==> !IsLineTerminator(s[j])
  {
    k, c, q := QuotedArgumentIndices(s, prefix, i);
    OpeningQuoteParts(s, prefix, i, k);
    ClosingQuoteParts(s, k, c, q);
  }

  /** A match found at `i` has that shape, and its argument is the text between the
      opening quote after `(` and the closing quote (the last suitable one on the line),
      so it never spans a line break. */
  lemma QuotedArgumentMatchKey(s: string, prefix: string, i: nat)
    returns (k: nat, c: nat, e: nat)
    requires i <= |s| && QuotedArgumentAt(s, prefix, i).Some?
    ensures QuotedArgumentAt(s, prefix, i) == Some(e)
    ensures k < c < e <= |s|
    ensures ArgumentOf(s[i..e], |prefix|) == s[k + 1..c]
    ensures forall j :: k + 1 <= j < c ==> !IsLineTerminator(s[j])
  {
    var q;
    k, c, q := QuotedArgumentQuotes(s, prefix, i);
    ArgumentOfPieces(s, prefix, i, k, c, q);
    e := q + 1;
  }

  /** The quotes and the closing parenthesis of a match at `i`, and what lies between. */
  lemma QuotedArgumentQuotes(s: string, prefix: string, i: nat)
    returns (k: nat, c: nat, q: nat)
    requires i <= |s| && QuotedArgumentAt(s, prefix, i).Some?
    ensures QuotedArgumentAt(s, prefix, i) == Some(q + 1)
    ensures i + |prefix| < k < c < q < |s|
    ensures AllWhitespace(s[i + |prefix| + 1..k]) && AllWhitespace(s[c + 1..q])
    ensures IsQuote(s[k]) && IsQuote(s[c])
    ensures forall j :: k + 1 <= j < c ==> !IsLineTerminator(s[j])
  {
    k, c, q := QuotedArgumentParts(s, prefix, i);
  }

  // ---------------------------------------------------------------------------------
  // `/".*":/g` (keys of an env file)

  /** A `"` at `j` that a `:` follows: where `":` matches. */
  predicate QuoteColon(s: string, j: nat) {
    j + 1 < |s| && s[j] == '"' && s[j + 1] == ':'
  }

  /** The backtracking of `.*":`: the LAST `"` below `p` (and at least `lo`) that a `:`
      follows. */
  function KeyColon(s: string, lo: nat, p: nat): (r: Option<nat>)
    requires lo <= p <= |s|
    ensures r.Some? ==> lo <= r.value < p && r.value + 1 < |s|
    ensures r.Some? ==> QuoteColon(s, r.value)
    ensures forall j :: lo <= j < p && (r.None? || r.value < j) ==> !QuoteColon(s, j)
    decreases p
  {
    if p == lo then None
    else if QuoteColon(s, p - 1) then Some(p - 1)
    else KeyColon(s, lo, p - 1)
  }

  /** `".*":` at `i`. */
  function QuotedKeyColonAt(s: string, i: nat): (r: Option<nat>)
    requires i <= |s|
    ensures r.Some? ==> i < r.value <= |s|
  {
    if i < |s| && s[i] == '"' then
      match KeyColon(s, i + 1, LineEnd(s, i + 1))
      case None => None
      case Some(c) => Some(c + 2)
    else None
  }

  /** `".*":` matching at `i` with its closing `"` at `c`: a `"` at `i`, and `c` is the
      last `":` on the rest of the line. */
  ghost predicate LastKeyColon(s: string, i: nat, c: nat) {
    i < |s| && s[i] == '"' &&
    var l := LineEnd(s, i + 1);
    i < c < l && QuoteColon(s, c) && forall j :: c < j < l ==> !QuoteColon(s, j)
  }

  /** `".*":` matches at `i` iff `s[i]` is `"` and a `":` follows on the same line; the
      match then runs through the last such `":`. */
  lemma QuotedKeyColonAtIff(s: string, i: nat, c: nat)
    requires i <= |s|
    ensures QuotedKeyColonAt(s, i).None? <==>
              !(i < |s| && s[i] == '"') || forall j :: i < j < LineEnd(s, i + 1) ==> !QuoteColon(s, j)
    ensures QuotedKeyColonAt(s, i) == Some(c + 2) <==> LastKeyColon(s, i, c)
  {
    if i < |s| && s[i] == '"' {
      var r := KeyColon(s, i + 1, LineEnd(s, i + 1));
      if LastKeyColon(s, i, c) {
        assert r.Some? && r.value == c;
      }
    }
  }

  // ---------------------------------------------------------------------------------
  // Global search

  datatype Pattern = LineComment | QuotedArgument(prefix: string) | QuotedKeyColon

  function MatchAt(pattern: Pattern, s: string, i: nat): (r: Option<nat>)
    requires i <= |s|
    ensures r.Some? ==> i < r.value <= |s|
  {
    match pattern
    case LineComment => LineCommentAt(s, i)
    case QuotedArgument(prefix) => QuotedArgumentAt(s, prefix, i)
    case QuotedKeyColon => QuotedKeyColonAt(s, i)
  }

  /** A match: the half-open index range `[start, end)` it covers. */
  datatype Span = Span(start: nat, end: nat)

  /** What trying the pattern gives at each index `0..|s|` of `s`. */
  function MatchTable(pattern: Pattern, s: string): (t: seq<Option<nat>>)
    ensures |t| == |s| + 1 && forall i :: 0 <= i <= |s| ==> t[i] == MatchAt(pattern, s, i)
    ensures Advancing(t)
  {
    seq(|s| + 1, i requires 0 <= i <= |s| => MatchAt(pattern, s, i))
  }

  /** A table of match results over a text of length `|t| - 1`: a match that starts at
      `i` ends after `i`, within the text. */
  ghost predicate Advancing(t: seq<Option<nat>>) {
    |t| > 0 && forall i :: 0 <= i < |t| && t[i].Some? ==> i < t[i].value < |t|
  }

  /** The left-to-right, non-overlapping search over a table of match results, from
      index `from`: after a match the search resumes where the match ended. */
  function Search(t: seq<Option<nat>>, from: nat): (r: seq<Span>)
    requires Advancing(t) && from < |t|
    ensures forall m :: m in r ==> from <= m.start < m.end < |t| && t[m.start] == Some(m.end)
    ensures forall k :: 0 < k < |r| ==> r[k - 1].end <= r[k].start
    decreases |t| - from
  {
    if from == |t| - 1 then []
    else
      match t[from]
      case Some(e) => [Span(from, e)] + Search(t, e)
      case None => Search(t, from + 1)
  }

  /** The matches of a `/g` search that starts at `from`: the pattern is tried at each
      index in turn, and after a match the search resumes where the match ended. */
  function MatchSpans(pattern: Pattern, s: string, from: nat): (r: seq<Span>)
    requires from <= |s|
    ensures forall m :: m in r ==> from <= m.start < m.end <= |s| && MatchAt(pattern, s, m.start) == Some(m.end)
    ensures forall k :: 0 < k < |r| ==> r[k - 1].end <= r[k].start
  {
    Search(MatchTable(pattern, s), from)
  }

  /** No entry of the table in `[a, b)` is a match. */
  ghost predicate NoneIn(t: seq<Option<nat>>, a: nat, b: nat)
    requires b <= |t|
  {
    forall j :: a <= j < b ==> t[j].None?
  }

  /** Where a search finds its first match, or `end` when it finds none. */
  function FirstStart(r: seq<Span>, end: nat): nat {
    if r == [] then end else r[0].start
  }

  /** Where the span after `r[k]` starts, or `end` when `r[k]` is the last. */
  function NextStart(r: seq<Span>, k: nat, end: nat): nat
    requires k < |r|
  {
    if k + 1 < |r| then r[k + 1].start else end
  }

  /** No match starts between `from` and the first span the search finds (the end of
      the text when there is none). */
  lemma {:induction false} SearchFirst(t: seq<Option<nat>>, from: nat)
    requires Advancing(t) && from < |t|
    ensures FirstStart(Search(t, from), |t| - 1) < |t|
    ensures NoneIn(t, from, FirstStart(Search(t, from), |t| - 1))
    decreases |t| - from
  {
    if from < |t| - 1 && t[from].None? {
      SearchFirst(t, from + 1);
    }
  }

  /** No match starts between a span and the next one, or after the last one. */
  lemma {:induction false} SearchGaps(t: seq<Option<nat>>, from: nat, k: nat)
    requires Advancing(t) && from < |t|
    requires k < |Search(t, from)|
    ensures NextStart(Search(t, from), k, |t| - 1) < |t|
    ensures NoneIn(t, Search(t, from)[k].end, NextStart(Search(t, from), k, |t| - 1))
    decreases |t| - from
  {
    if t[from].Some? {
      var e := t[from].value;
      var rest := Search(t, e);
      var r := Search(t, from);
      assert r == [Span(from, e)] + rest;
      if k == 0 {
        SearchFirst(t, e);
      } else {
        assert r[k] == rest[k - 1];
        SearchGaps(t, e, k - 1);
      }
    } else {
      SearchGaps(t, from + 1, k);
    }
  }

  /** No match of the pattern starts in `[a, b)`. */
  ghost predicate NoMatchIn(pattern: Pattern, s: string, a: nat, b: nat)
    requires b <= |s|
  {
    forall j :: a <= j < b ==> MatchAt(pattern, s, j).None?
  }

  lemma NoMatchInTable(pattern: Pattern, s: string, a: nat, b: nat)
    requires b <= |s| && NoneIn(MatchTable(pattern, s), a, b)
    ensures NoMatchIn(pattern, s, a, b)
  {
    var t := MatchTable(pattern, s);
    forall j | a <= j < b ensures MatchAt(pattern, s, j).None? {
      assert t[j].None?;
    }
  }

  /** The search misses no match before its first span (or anywhere, when it finds
      none). With `MatchSpansGap`: each span starts at the first index, at or after the
      end of the previous one, where the pattern matches. */
  lemma MatchSpansFirst(pattern: Pattern, s: string, from: nat)
    requires from <= |s|
    ensures FirstStart(MatchSpans(pattern, s, from), |s|) <= |s|
    ensures NoMatchIn(pattern, s, from, FirstStart(MatchSpans(pattern, s, from), |s|))
  {
    SearchFirst(MatchTable(pattern, s), from);
    NoMatchInTable(pattern, s, from, FirstStart(MatchSpans(pattern, s, from), |s|));
  }

  /** The search misses no match between a span and the next one, or after the last. */
  lemma MatchSpansGap(pattern: Pattern, s: string, from: nat, k: nat)
    requires from <= |s| && k < |MatchSpans(pattern, s, from)|
    ensures NextStart(MatchSpans(pattern, s, from), k, |s|) <= |s|
    ensures NoMatchIn(pattern, s, MatchSpans(pattern, s, from)[k].end, NextStart(MatchSpans(pattern, s, from), k, |s|))
  {
    SearchGaps(MatchTable(pattern, s), from, k);
    NoMatchInTable(pattern, s, MatchSpans(pattern, s, from)[k].end, NextStart(MatchSpans(pattern, s, from), k, |s|));
  }

  function Texts(s: string, spans: seq<Span>): (r: seq<string>)
    requires forall m :: m in spans ==> m.start <= m.end <= |s|
    ensures |r| == |spans|
    ensures forall k :: 0 <= k < |r| ==> r[k] == s[spans[k].start..spans[k].end]
  {
    if spans == [] then [] else [s[spans[0].start..spans[0].end]] + Texts(s, spans[1..])
  }

  /** `s.match(pattern) ?? []` for a `/g` pattern: the matched texts, left to right. */
  function MatchAll(pattern: Pattern, s: string): (r: seq<string>)
    ensures |r| == |MatchSpans(pattern, s, 0)|
    ensures forall k :: 0 <= k < |r| ==> r[k] == s[MatchSpans(pattern, s, 0)[k].start..MatchSpans(pattern, s, 0)[k].end]
  {
    Texts(s, MatchSpans(pattern, s, 0))
  }

  /** The argument of every text that `match` returns for a quoted-argument pattern lies
      on one line. */
  lemma {:induction false} QuotedArgumentsOnOneLine(s: string, prefix: string, k: nat)
    requires k < |MatchAll(QuotedArgument(prefix), s)|
    ensures var a := ArgumentOf(MatchAll(QuotedArgument(prefix), s)[k], |prefix|);
            forall j :: 0 <= j < |a| ==> !IsLineTerminator(a[j])
  {
    var spans := MatchSpans(QuotedArgument(prefix), s, 0);
    var m := spans[k];
    assert m in spans;
    var o, c, e := QuotedArgumentMatchKey(s, prefix, m.start);
    var a := s[o + 1..c];
    assert ArgumentOf(MatchAll(QuotedArgument(prefix), s)[k], |prefix|) == a;
    forall j | 0 <= j < |a| ensures !IsLineTerminator(a[j]) {
      assert a[j] == s[o + 1 + j];
    }
  }

  /** `a` is the argument of the quoted-argument match `m`: the text strictly between
      the opening quote after `prefix(` and the closing quote the backtracking settles
      on, the last suitable one on that line. */
  ghost predicate ArgumentOfMatch(s: string, prefix: string, m: Span, a: string) {
    exists k: nat, c: nat :: QuotedArgumentShape(s, prefix, m.start, k, c) && m.end == SkipWhitespace(s, c + 1) + 1 && a == s[k + 1..c]
  }

  /** A match found at `i` has a shape, and its argument is the text between its quotes. */
  lemma QuotedArgumentMatchShape(s: string, prefix: string, i: nat, e: nat)
    requires i <= |s| && QuotedArgumentAt(s, prefix, i) == Some(e)
    ensures ArgumentOfMatch(s, prefix, Span(i, e), ArgumentOf(s[i..e], |prefix|))
  {
    var k, c, q := QuotedArgumentChosen(s, prefix, i);
    assert e == SkipWhitespace(s, c + 1) + 1;
  }

  lemma QuotedArgumentChosen(s: string, prefix: string, i: nat) returns (k: nat, c: nat, q: nat)
    requires i <= |s| && QuotedArgumentAt(s, prefix, i).Some?
    ensures QuotedArgumentShape(s, prefix, i, k, c)
    ensures q == SkipWhitespace(s, c + 1) && QuotedArgumentAt(s, prefix, i) == Some(q + 1)
    ensures ArgumentOf(s[i..q + 1], |prefix|) == s[k + 1..c]
  {
    k, c, q := QuotedArgumentIndices(s, prefix, i);
    OpeningQuoteIff(s, prefix, i, k);
    assert LastClosingQuote(s, k, c);
    OpeningQuoteParts(s, prefix, i, k);
    ClosingQuoteParts(s, k, c, q);
    ArgumentOfPieces(s, prefix, i, k, c, q);
  }

  /** Read through `ArgumentOf`, the texts a quoted-argument search returns are the
      arguments of its matches, in order. */
  lemma ArgumentsOfMatches(s: string, prefix: string, args: seq<string>)
    requires |args| == |MatchAll(QuotedArgument(prefix), s)|
    requires forall i :: 0 <= i < |args| ==> args[i] == ArgumentOf(MatchAll(QuotedArgument(prefix), s)[i], |prefix|)
    ensures forall i :: 0 <= i < |args| ==> ArgumentOfMatch(s, prefix, MatchSpans(QuotedArgument(prefix), s, 0)[i], args[i])
  {
    var spans := MatchSpans(QuotedArgument(prefix), s, 0);
    forall i | 0 <= i < |args| ensures ArgumentOfMatch(s, prefix, spans[i], args[i]) {
      var m := spans[i];
      assert m in spans;
      QuotedArgumentMatchShape(s, prefix, m.start, m.end);
    }
  }

  // ---------------------------------------------------------------------------------
  // `/\([\n\r\s]*['|"]/g` (completion trigger); `[\n\r\s]` is `\s`

  predicate IsTriggerQuote(c: char) {
    c == '\'' || c == '|' || c == '"'
  }

  /** The trigger pattern at `i`. */
  predicate TriggerAt(s: string, i: nat)
    requires i <= |s|
  {
    i < |s| && s[i] == '(' &&
    var k := SkipWhitespace(s, i + 1);
    k < |s| && IsTriggerQuote(s[k])
  }

  predicate TriggerFrom(s: string, from: nat)
    requires from <= |s|
    decreases |s| - from
  {
    from < |s| && (TriggerAt(s, from) || TriggerFrom(s, from + 1))
  }

  /** Whether `exec`/`match` of the unanchored trigger pattern finds a match in `s`. */
  predicate HasTrigger(s: string) {
    TriggerFrom(s, 0)
  }

  /** An opening parenthesis, then any whitespace, then one of `'`, `|`, `"`. */
  ghost predicate TriggerShapeAt(s: string, i: int, k: int) {
    0 <= i < k < |s| && s[i] == '(' && (forall j :: i < j < k ==> IsWhitespace(s[j])) && IsTriggerQuote(s[k])
  }

  lemma {:induction false} TriggerAtShape(s: string, i: nat)
    requires i <= |s|
    ensures TriggerAt(s, i) <==> exists k :: TriggerShapeAt(s, i, k)
  {
    if i < |s| && s[i] == '(' {
      var k := SkipWhitespace(s, i + 1);
      if TriggerAt(s, i) {
        assert TriggerShapeAt(s, i, k);
      }
      forall k' | TriggerShapeAt(s, i, k') ensures k' == k {
        assert !IsWhitespace(s[k']);
      }
    }
  }

  lemma {:induction false} TriggerFromShape(s: string, from: nat)
    requires from <= |s|
    ensures TriggerFrom(s, from) <==> exists i, k :: from <= i && TriggerShapeAt(s, i, k)
    decreases |s| - from
  {
    if from < |s| {
      TriggerAtShape(s, from);
      TriggerFromShape(s, from + 1);
      if exists i, k :: from <= i && TriggerShapeAt(s, i, k) {
        var i, k :| from <= i && TriggerShapeAt(s, i, k);
        if i > from {
          assert from + 1 <= i;
        }
      }
    }
  }

  /** The trigger pattern is unanchored: it matches iff `(`, whitespace and one of the
      three quote characters occur somewhere in `s`. */
  lemma HasTriggerShape(s: string)
    ensures HasTrigger(s) <==> exists i, k :: TriggerShapeAt(s, i, k)
  {
    TriggerFromShape(s, 0);
  }

  /** Prepending text never takes away a trigger match. */
  lemma HasTriggerPrepend(t: string, s: string)
    requires HasTrigger(s)
    ensures HasTrigger(t + s)
  {
    HasTriggerShape(s);
    var i, k :| TriggerShapeAt(s, i, k);
    var u := t + s;
    forall j | |t| + i < j < |t| + k ensures IsWhitespace(u[j]) {
      assert u[j] == s[j - |t|];
    }
    assert TriggerShapeAt(u, |t| + i, |t| + k);
    HasTriggerShape(u);
  }
}
