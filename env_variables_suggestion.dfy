/** The completion provider for env-variable names in loader files: the backward line
    scan `matchMultipleLines`, the decision whether to complete, and the candidate list
    built from the parsed env files. */
module EnvVariablesSuggestion {
  import opened Wrappers
  import opened JsString
  import opened Editor
  import opened Event
  import opened Helpers
  import opened TextPatterns
  import opened HighlighterPort

  // ---------------------------------------------------------------------------------
  // matchMultipleLines

  /** How many lines `provideCompletionItems` lets `matchMultipleLines` span. */
  const LookBackLines: int := 5

  /** The lowest line index the scan may read: above `line - maxLines` and not negative. */
  function Lowest(line: nat, maxLines: int): nat {
    if line - maxLines + 1 < 0 then 0 else line - maxLines + 1
  }

  /** The prefix after the scan has prepended lines `j` to `line - 1`, in document order
      and with no separator between them. */
  function Accumulated(text: string, j: nat, line: nat, linePrefix: string): string
    requires j <= line < |Lines(text)|
    decreases line - j
  {
    if j == line then linePrefix else LineText(text, j) + Accumulated(text, j + 1, line, linePrefix)
  }

  /** The prefix built from line `j` on matches the trigger pattern. */
  predicate MatchesFrom(text: string, j: nat, line: nat, linePrefix: string)
    requires j <= line < |Lines(text)|
  {
    HasTrigger(Accumulated(text, j, line, linePrefix))
  }

  /** Some prefix the scan may build matches the trigger pattern. */
  predicate LookBackMatches(text: string, line: nat, maxLines: int, linePrefix: string)
    requires line < |Lines(text)|
  {
    exists j: nat :: Lowest(line, maxLines) <= j < line && MatchesFrom(text, j, line, linePrefix)
  }

  /** `matchMultipleLines(document, position, maxLines, linePrefix, pattern)`. `read` lists
      the line indices passed to `lineAt`, in the order they are read: consecutive from
      `line - 1` downwards, never negative, and above `line - maxLines`, so at most
      `maxLines - 1` of them. The result is whether some accumulated prefix matches;
      when it does, the scan stopped at the first line that made it match. */
  method MatchMultipleLines(document: Document, line: nat, maxLines: int, linePrefix: string)
    returns (isMatching: bool, ghost read: seq<int>)
    requires line < |Lines(document.text)|
    ensures isMatching <==> LookBackMatches(document.text, line, maxLines, linePrefix)
    ensures forall k :: 0 <= k < |read| ==> read[k] == line - 1 - k
    ensures forall k :: 0 <= k < |read| ==> 0 <= read[k] && line - maxLines < read[k]
    ensures |read| <= line
    ensures isMatching ==>
              && MatchesFrom(document.text, line - |read|, line, linePrefix)
              && NoMatchFrom(document.text, line, linePrefix, line - |read| + 1)
  {
    isMatching := false;
    var lastLine: int := line - 1;
    var prefix := linePrefix;
    read := [];
    while !isMatching && lastLine > line - maxLines && lastLine >= 0
      invariant -1 <= lastLine <= line - 1
      invariant Scanned(document.text, line, maxLines, linePrefix, lastLine, prefix, isMatching, read)
      decreases lastLine + 1
    {
      ScanStep(document.text, line, maxLines, linePrefix, lastLine, prefix, read);
      prefix := LineText(document.text, lastLine) + prefix;
      isMatching := HasTrigger(prefix);
      read := read + [lastLine];
      lastLine := lastLine - 1;
    }
    ScanEnd(document.text, line, maxLines, linePrefix, lastLine, prefix, isMatching, read);
  }

  /** The state of the scan once it has read lines `line - 1` down to `lastLine + 1`. */
  ghost predicate Scanned(text: string, line: nat, maxLines: int, linePrefix: string,
                          lastLine: int, prefix: string, isMatching: bool, read: seq<int>)
    requires line < |Lines(text)|
    requires -1 <= lastLine <= line - 1
  {
    && |read| == line - 1 - lastLine
    && (forall k :: 0 <= k < |read| ==> read[k] == line - 1 - k)
    && (forall k :: 0 <= k < |read| ==> line - maxLines < read[k])
    && prefix == Accumulated(text, lastLine + 1, line, linePrefix)
    && (isMatching ==> Lowest(line, maxLines) <= lastLine + 1 < line && MatchesFrom(text, lastLine + 1, line, linePrefix))
    && NoMatchFrom(text, line, linePrefix, lastLine + 2)
    && (!isMatching ==> NoMatchFrom(text, line, linePrefix, lastLine + 1))
  }

  /** One more line read keeps the scan's state. */
  lemma ScanStep(text: string, line: nat, maxLines: int, linePrefix: string, lastLine: int, prefix: string, read: seq<int>)
    requires line < |Lines(text)|
    requires 0 <= lastLine <= line - 1 && lastLine > line - maxLines
    requires Scanned(text, line, maxLines, linePrefix, lastLine, prefix, false, read)
    ensures var next := LineText(text, lastLine) + prefix;
            Scanned(text, line, maxLines, linePrefix, lastLine - 1, next, HasTrigger(next), read + [lastLine])
  {
    var next := LineText(text, lastLine) + prefix;
    assert next == Accumulated(text, lastLine, line, linePrefix);
  }

  /** Where the scan stops, its answer is the look-back's. */
  lemma ScanEnd(text: string, line: nat, maxLines: int, linePrefix: string,
                lastLine: int, prefix: string, isMatching: bool, read: seq<int>)
    requires line < |Lines(text)|
    requires -1 <= lastLine <= line - 1
    requires Scanned(text, line, maxLines, linePrefix, lastLine, prefix, isMatching, read)
    requires !(!isMatching && lastLine > line - maxLines && lastLine >= 0)
    ensures isMatching <==> LookBackMatches(text, line, maxLines, linePrefix)
    ensures forall k :: 0 <= k < |read| ==> read[k] == line - 1 - k
    ensures forall k :: 0 <= k < |read| ==> 0 <= read[k] && line - maxLines < read[k]
    ensures |read| <= line
    ensures isMatching ==>
              && MatchesFrom(text, line - |read|, line, linePrefix)
              && NoMatchFrom(text, line, linePrefix, line - |read| + 1)
  {
    if isMatching {
      assert line - |read| == lastLine + 1;
      LookBackWitness(text, line, maxLines, linePrefix, lastLine + 1);
    } else {
      LookBackNone(text, line, maxLines, linePrefix, lastLine + 1);
    }
  }

  /** No prefix built from line `from` or a later one (up to `line - 1`) matches. */
  ghost predicate NoMatchFrom(text: string, line: nat, linePrefix: string, from: int)
    requires line < |Lines(text)|
  {
    forall j: nat :: from <= j < line ==> !MatchesFrom(text, j, line, linePrefix)
  }

  lemma LookBackWitness(text: string, line: nat, maxLines: int, linePrefix: string, j: nat)
    requires Lowest(line, maxLines) <= j < line < |Lines(text)|
    requires MatchesFrom(text, j, line, linePrefix)
    ensures LookBackMatches(text, line, maxLines, linePrefix)
  {
  }

  lemma LookBackNone(text: string, line: nat, maxLines: int, linePrefix: string, from: int)
    requires line < |Lines(text)|
    requires from <= Lowest(line, maxLines) || from <= 0
    requires NoMatchFrom(text, line, linePrefix, from)
    ensures !LookBackMatches(text, line, maxLines, linePrefix)
  {
  }

  /** A match of a shorter accumulated prefix survives every further line prepended. */
  lemma {:induction false} AccumulatedKeepsMatch(text: string, i: nat, j: nat, line: nat, linePrefix: string)
    requires i <= j <= line < |Lines(text)|
    requires MatchesFrom(text, j, line, linePrefix)
    ensures MatchesFrom(text, i, line, linePrefix)
    decreases j - i
  {
    if i < j {
      AccumulatedKeepsMatch(text, i + 1, j, line, linePrefix);
      HasTriggerPrepend(LineText(text, i), Accumulated(text, i + 1, line, linePrefix));
    }
  }

  /** Stopping at the first match loses nothing: the scan matches iff the longest prefix
      it may build matches, that is the lines from `Lowest` up to `line - 1` followed by
      the current line's prefix. */
  lemma LookBackLongest(text: string, line: nat, maxLines: int, linePrefix: string)
    requires line < |Lines(text)|
    ensures LookBackMatches(text, line, maxLines, linePrefix) <==>
              Lowest(line, maxLines) < line && MatchesFrom(text, Lowest(line, maxLines), line, linePrefix)
  {
    if LookBackMatches(text, line, maxLines, linePrefix) {
      var j: nat :| Lowest(line, maxLines) <= j < line && MatchesFrom(text, j, line, linePrefix);
      AccumulatedKeepsMatch(text, Lowest(line, maxLines), j, line, linePrefix);
    }
    if Lowest(line, maxLines) < line && MatchesFrom(text, Lowest(line, maxLines), line, linePrefix) {
      LookBackWitness(text, line, maxLines, linePrefix, Lowest(line, maxLines));
    }
  }

  /** Without a line above in reach (the first line, or `maxLines` at most 1) the scan
      never matches, whatever the prefix. */
  lemma LookBackNeedsLines(text: string, line: nat, maxLines: int, linePrefix: string)
    requires line < |Lines(text)|
    requires line == 0 || maxLines <= 1
    ensures !LookBackMatches(text, line, maxLines, linePrefix)
  {
  }

  // ---------------------------------------------------------------------------------
  // provideCompletionItems

  /** `document.lineAt(position).text.slice(0, position.character)`: the current line up
      to the cursor. */
  function LinePrefix(document: Document, line: nat, character: nat): (r: string)
    requires line < |Lines(document.text)|
    ensures var lineText := LineText(document.text, line);
            && |r| == (if character <= |lineText| then character else |lineText|)
            && r == lineText[..|r|]
  {
    Slice(LineText(document.text, line), 0, character)
  }

  /** `envsParsed.map(p => Object.keys(p))`: each parsed env file's own keys; an absent
      parse result makes `Object.keys` throw. */
  function ObjectKeys(envsParsed: seq<Option<EnvObject>>): (r: Result<seq<seq<string>>>)
    ensures r.Success? <==> forall i :: 0 <= i < |envsParsed| ==> envsParsed[i].Some?
    ensures r.Success? ==> |r.value| == |envsParsed| && forall i :: 0 <= i < |envsParsed| ==> r.value[i] == envsParsed[i].value.keys
  {
    var rs := seq(|envsParsed|, i requires 0 <= i < |envsParsed| =>
      if envsParsed[i].Some? then Success(envsParsed[i].value.keys)
      else Failure("Cannot convert undefined or null to object"));
    assert forall i :: 0 <= i < |rs| ==> (rs[i].Success? <==> envsParsed[i].Some?);
    AllOf(rs)
  }

  /** The candidate for key `c` of env file `env`. */
  function Candidate(c: string, env: string): CompletionItem {
    CompletionItem(c, "Configuru", " " + env)
  }

  /** `configKeys.map(c => new CompletionItem(...))` for one env file. */
  function EnvCandidates(env: string, configKeys: seq<string>): (r: seq<CompletionItem>)
    ensures |r| == |configKeys| && forall k :: 0 <= k < |r| ==> r[k] == Candidate(configKeys[k], env)
  {
    seq(|configKeys|, k requires 0 <= k < |configKeys| => Candidate(configKeys[k], env))
  }

  /** `keys.flatMap((configKeys, i) => ...)`, with `envs[i]` the name of the `i`-th env. */
  function Candidates(envs: seq<string>, keys: seq<seq<string>>): seq<CompletionItem>
    requires |envs| == |keys|
  {
    if keys == [] then []
    else Candidates(envs[..|envs| - 1], keys[..|keys| - 1]) + EnvCandidates(envs[|envs| - 1], keys[|keys| - 1])
  }

  /** How many keys the env files before index `n` have together. */
  function KeyCount(keys: seq<seq<string>>): nat {
    if keys == [] then 0 else KeyCount(keys[..|keys| - 1]) + |keys[|keys| - 1]|
  }

  /** Where the `k`-th key of the `i`-th env file sits: after the keys of the env files
      before it. */
  function Offset(keys: seq<seq<string>>, i: nat, k: nat): nat
    requires i <= |keys|
  {
    KeyCount(keys[..i]) + k
  }

  /** The candidates are laid out env file by env file, in order, and within one env file
      key by key in key order: the `k`-th key of the `i`-th env file comes after all keys
      of the earlier env files, and nothing else is listed. */
  lemma CandidatesLayout(envs: seq<string>, keys: seq<seq<string>>)
    requires |envs| == |keys|
    ensures |Candidates(envs, keys)| == KeyCount(keys)
    ensures forall i, k :: 0 <= i < |keys| && 0 <= k < |keys[i]| ==>
              Offset(keys, i, k) < KeyCount(keys) &&
              Candidates(envs, keys)[Offset(keys, i, k)] == Candidate(keys[i][k], envs[i])
  {
    CandidatesLength(envs, keys);
    forall i, k | 0 <= i < |keys| && 0 <= k < |keys[i]|
      ensures Offset(keys, i, k) < KeyCount(keys) &&
              Candidates(envs, keys)[Offset(keys, i, k)] == Candidate(keys[i][k], envs[i])
    {
      CandidateAt(envs, keys, i, k);
    }
  }

  lemma {:induction false} CandidatesLength(envs: seq<string>, keys: seq<seq<string>>)
    requires |envs| == |keys|
    ensures |Candidates(envs, keys)| == KeyCount(keys)
    decreases |keys|
  {
    if keys != [] {
      CandidatesLength(envs[..|keys| - 1], keys[..|keys| - 1]);
    }
  }

  lemma {:induction false} CandidateAt(envs: seq<string>, keys: seq<seq<string>>, i: nat, k: nat)
    requires |envs| == |keys| && i < |keys| && k < |keys[i]|
    ensures KeyCount(keys[..i]) + k < |Candidates(envs, keys)| == KeyCount(keys)
    ensures Candidates(envs, keys)[KeyCount(keys[..i]) + k] == Candidate(keys[i][k], envs[i])
    decreases |keys|
  {
    var n := |keys| - 1;
    var initEnvs, initKeys := envs[..n], keys[..n];
    CandidatesLength(initEnvs, initKeys);
    assert Candidates(envs, keys) == Candidates(initEnvs, initKeys) + EnvCandidates(envs[n], keys[n]);
    if i < n {
      CandidateAt(initEnvs, initKeys, i, k);
      assert initKeys[..i] == keys[..i];
      assert initKeys[i] == keys[i] && initEnvs[i] == envs[i];
    } else {
      assert keys[..i] == initKeys;
      assert Candidates(envs, keys)[KeyCount(keys[..i]) + k] == EnvCandidates(envs[n], keys[n])[k];
    }
  }

  /** A candidate is listed iff it is some key of some env file, labelled with that key
      and detailed with that env file's name. */
  lemma CandidatesMember(envs: seq<string>, keys: seq<seq<string>>, item: CompletionItem)
    requires |envs| == |keys|
    ensures item in Candidates(envs, keys) <==>
              exists i, k :: 0 <= i < |keys| && 0 <= k < |keys[i]| && item == Candidate(keys[i][k], envs[i])
  {
    if item in Candidates(envs, keys) {
      var i, k := CandidateSource(envs, keys, item);
    }
    if exists i, k :: 0 <= i < |keys| && 0 <= k < |keys[i]| && item == Candidate(keys[i][k], envs[i]) {
      var i, k :| 0 <= i < |keys| && 0 <= k < |keys[i]| && item == Candidate(keys[i][k], envs[i]);
      CandidateAt(envs, keys, i, k);
    }
  }

  /** The env file and key a listed candidate comes from. */
  lemma {:induction false} CandidateSource(envs: seq<string>, keys: seq<seq<string>>, item: CompletionItem) returns (i: nat, k: nat)
    requires |envs| == |keys| && item in Candidates(envs, keys)
    ensures i < |keys| && k < |keys[i]| && item == Candidate(keys[i][k], envs[i])
    decreases |keys|
  {
    var n := |keys| - 1;
    var initEnvs, initKeys := envs[..n], keys[..n];
    assert Candidates(envs, keys) == Candidates(initEnvs, initKeys) + EnvCandidates(envs[n], keys[n]);
    if item in Candidates(initEnvs, initKeys) {
      i, k := CandidateSource(initEnvs, initKeys, item);
      assert initKeys[i] == keys[i] && initEnvs[i] == envs[i];
    } else {
      var j :| 0 <= j < |keys[n]| && EnvCandidates(envs[n], keys[n])[j] == item;
      i, k := n, j;
    }
  }

  /** The path `asRelativePath` gives the document is one of the configured loaders. */
  predicate IsLoaderDocument(loaderPaths: seq<string>, relativePath: string) {
    relativePath in loaderPaths
  }

  /** The current line's prefix, or the scan over the lines above it, has a trigger. */
  predicate Triggered(document: Document, line: nat, character: nat)
    requires line < |Lines(document.text)|
  {
    var linePrefix := LinePrefix(document, line, character);
    HasTrigger(linePrefix) || LookBackMatches(document.text, line, LookBackLines, linePrefix)
  }

  /** `provideCompletionItems(document, position)`. `loaderPaths` is
      `config.configPaths.map(p => p.loader)`, `relativePath` is
      `asRelativePath(document.uri)`, `event` is what `createConfiguruFileEvent` gave and
      `relatedPaths` is that event's `relatedPaths`. `Success(None)` is the `undefined`
      answer; a failure is the error the returned promise rejects with. */
  function CompletionItems(ws: Workspace, loaderPaths: seq<string>, relativePath: string,
                           event: Option<ConfiguruEvent>, relatedPaths: seq<RelatedPaths>,
                           document: Document, line: nat, character: nat): Result<Option<seq<CompletionItem>>>
    requires line < |Lines(document.text)|
  {
    if |ws.folders| == 0 then Success(None)
    else if !IsLoaderDocument(loaderPaths, relativePath) then Success(None)
    else if event.None? then Success(None)
    else
      var envs := RelatedEnvs(relatedPaths);
      var envsParsed :- FetchAll(envs, ParsedFn(event.value, ws));
      var keys :- ObjectKeys(envsParsed);
      if !Triggered(document, line, character) then Success(None)
      else Success(Some(Candidates(envs, keys)))
  }

  /** When the provider answers. No candidates without a workspace folder, outside a
      loader file or without an event. Otherwise it fails iff reading an env file fails
      or one has no parse result; and it lists candidates iff, besides, the cursor is
      after a trigger, the list then being the keys of the related env files in order. */
  lemma CompletionItemsCases(ws: Workspace, loaderPaths: seq<string>, relativePath: string,
                             event: Option<ConfiguruEvent>, relatedPaths: seq<RelatedPaths>,
                             document: Document, line: nat, character: nat)
    requires line < |Lines(document.text)|
    ensures var r := CompletionItems(ws, loaderPaths, relativePath, event, relatedPaths, document, line, character);
            && (|ws.folders| == 0 || !IsLoaderDocument(loaderPaths, relativePath) || event.None? ==> r == Success(None))
            && (|ws.folders| > 0 && IsLoaderDocument(loaderPaths, relativePath) && event.Some? ==>
                  var envs := RelatedEnvs(relatedPaths);
                  var parsed := FetchAll(envs, ParsedFn(event.value, ws));
                  var loaded := parsed.Success? && forall i :: 0 <= i < |parsed.value| ==> parsed.value[i].Some?;
                  && (r.Failure? <==> !loaded)
                  && (r.Success? && r.value.Some? <==> loaded && Triggered(document, line, character))
                  && (r.Success? && r.value.Some? ==>
                        && |parsed.value| == |envs|
                        && r.value.value == Candidates(envs, seq(|envs|, i requires 0 <= i < |envs| => parsed.value[i].value.keys))))
  {
    if |ws.folders| > 0 && IsLoaderDocument(loaderPaths, relativePath) && event.Some? {
      var envs := RelatedEnvs(relatedPaths);
      var parsed := FetchAll(envs, ParsedFn(event.value, ws));
      if parsed.Success? {
        var keys := ObjectKeys(parsed.value);
        if keys.Success? {
          assert keys.value == seq(|envs|, i requires 0 <= i < |envs| => parsed.value[i].value.keys);
        }
      }
    }
  }

  /** The provider, with the env files' parse results read through the event's cache.
      Given a cache that agrees with the loader, it answers what `CompletionItems` does
      and leaves the cache agreeing. */
  method ProvideCompletionItems(c: EventCache, ws: Workspace, loaderPaths: seq<string>, relativePath: string,
                                event: Option<ConfiguruEvent>, relatedPaths: seq<RelatedPaths>,
                                document: Document, line: nat, character: nat)
    returns (r: Result<Option<seq<CompletionItem>>>)
    requires line < |Lines(document.text)|
    modifies c.fileParsed
    ensures event.None? ==> r == CompletionItems(ws, loaderPaths, relativePath, event, relatedPaths, document, line, character)
    ensures event.Some? && old(CacheAgrees(c, event.value, ws)) ==>
              && CacheAgrees(c, event.value, ws)
              && r == CompletionItems(ws, loaderPaths, relativePath, event, relatedPaths, document, line, character)
  {
    if |ws.folders| == 0 || !IsLoaderDocument(loaderPaths, relativePath) || event.None? {
      return Success(None);
    }
    ghost var agreed := CacheAgrees(c, event.value, ws);
    var envs := RelatedEnvs(relatedPaths);
    ghost var entries := c.fileParsed.entries;
    var envsParsed, _ := ContextDataloader(c.fileParsed, envs, ParsedFn(event.value, ws), ParsedTruthy);
    if agreed {
      DataloaderTransparent(entries, envs, ParsedFn(event.value, ws), ParsedTruthy);
    }
    if envsParsed.Failure? {
      return Failure(envsParsed.error);
    }
    var keys := ObjectKeys(envsParsed.value);
    if keys.Failure? {
      return Failure(keys.error);
    }
    var linePrefix := LinePrefix(document, line, character);
    var matching := HasTrigger(linePrefix);
    if !matching {
      ghost var read;
      matching, read := MatchMultipleLines(document, line, LookBackLines, linePrefix);
    }
    if !matching {
      return Success(None);
    }
    r := Success(Some(Candidates(envs, keys.value)));
  }
}
