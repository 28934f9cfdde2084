/** The highlighter interface, the trigger gate, and what the two loader-file
    highlighters share: the range of a quoted key, and the fetch of one loader file
    with its env files. */
module HighlighterPort {
  import opened Wrappers
  import opened JsString
  import opened Editor
  import opened Context
  import opened Event
  import opened Helpers

  /** The diagnostics for one file. */
  datatype Highlight = Highlight(target: Uri, diagnostics: seq<Diagnostic>)

  /** A highlighter's name, trigger list and feature flag; its `highlight` function is
      the method of its own module. */
  datatype Highlighter = Highlighter(name: string, triggers: seq<EventKind>, flag: FeatureFlag)

  /** `isTriggeredByEvent(highlighter, event)`: the event kind is among the triggers. */
  function IsTriggeredByEvent(h: Highlighter, e: EventKind): (r: bool)
    ensures r <==> exists i :: 0 <= i < |h.triggers| && h.triggers[i] == e
    ensures h.triggers == [] ==> !r
  {
    e in h.triggers
  }

  /** Only the set of triggers matters: not their order or repetition, nor the
      highlighter's name or flag. */
  lemma TriggeredBySet(h1: Highlighter, h2: Highlighter, e: EventKind)
    requires (set t | t in h1.triggers) == (set t | t in h2.triggers)
    ensures IsTriggeredByEvent(h1, e) == IsTriggeredByEvent(h2, e)
  {
    var s1 := set t | t in h1.triggers;
    var s2 := set t | t in h2.triggers;
    assert e in h1.triggers <==> e in s1;
    assert e in h2.triggers <==> e in s2;
  }

  /** A loader file and the env files it is checked against. */
  datatype RelatedPaths = RelatedPaths(loader: string, envs: seq<string>)

  /** `event.relatedPaths.flatMap(p => p.envs)`. */
  function RelatedEnvs(relatedPaths: seq<RelatedPaths>): seq<string> {
    if relatedPaths == [] then []
    else RelatedEnvs(relatedPaths[..|relatedPaths| - 1]) + relatedPaths[|relatedPaths| - 1].envs
  }

  /** The env files named are exactly those of the related pairs. */
  lemma {:induction false} RelatedEnvsIff(relatedPaths: seq<RelatedPaths>, env: string)
    ensures env in RelatedEnvs(relatedPaths) <==> exists i :: 0 <= i < |relatedPaths| && env in relatedPaths[i].envs
    decreases |relatedPaths|
  {
    if relatedPaths != [] {
      var init := relatedPaths[..|relatedPaths| - 1];
      RelatedEnvsIff(init, env);
      if exists i :: 0 <= i < |init| && env in init[i].envs {
        var i :| 0 <= i < |init| && env in init[i].envs;
        assert relatedPaths[i] == init[i];
      }
      if exists i :: 0 <= i < |relatedPaths| && env in relatedPaths[i].envs {
        var i :| 0 <= i < |relatedPaths| && env in relatedPaths[i].envs;
        if i < |init| {
          assert relatedPaths[i] == init[i];
        }
      }
    }
  }

  /** The range `[i, i + |key| + 2)` where `i` is the first index of the quoted key in
      `text` (-1 when absent, which the clamping of positions turns into offset 0). */
  function QuotedKeyRange(text: string, key: string, quote: char): Range {
    var startPos := IndexOf(text, [quote] + key + [quote]);
    var endPos := startPos + |key| + 2;
    OffsetRange(text, startPos, endPos)
  }

  /** When the quoted key occurs, its range covers exactly its first occurrence. */
  lemma QuotedKeyRangeFirst(text: string, key: string, quote: char)
    requires exists j :: OccursAt(text, [quote] + key + [quote], j)
    ensures var i := IndexOf(text, [quote] + key + [quote]);
            && OccursAt(text, [quote] + key + [quote], i)
            && (forall j :: 0 <= j < i ==> !OccursAt(text, [quote] + key + [quote], j))
            && QuotedKeyRange(text, key, quote) == Range(i, i + |key| + 2)
  {
  }

  /** When the quoted key does not occur, the start -1 is clamped to 0 and the end
      `|key| + 1` to the document: the range sits at the start of the document. */
  lemma QuotedKeyRangeAbsent(text: string, key: string, quote: char)
    requires forall j :: !OccursAt(text, [quote] + key + [quote], j)
    ensures QuotedKeyRange(text, key, quote) == Range(0, if |key| + 1 <= |text| then |key| + 1 else |text|)
  {
    assert IndexOf(text, [quote] + key + [quote]) == -1;
  }

  // ---------------------------------------------------------------------------------
  // The fetch of one loader file (missing keys, unsafe defaults)

  /** An env file as the diagnostics see it: its URI and its parse result. */
  datatype EnvInput = EnvInput(uri: Uri, parsed: Option<EnvObject>)

  /** One loader file's document and text, and its env files. */
  datatype LoaderInputs = LoaderInputs(tsConfigFile: Document, tsConfigText: string, envs: seq<EnvInput>)

  function Zip(uris: seq<Uri>, parsed: seq<Option<EnvObject>>): (r: seq<EnvInput>)
    requires |uris| == |parsed|
    ensures |r| == |uris| && forall i :: 0 <= i < |r| ==> r[i] == EnvInput(uris[i], parsed[i])
  {
    seq(|uris|, i requires 0 <= i < |uris| => EnvInput(uris[i], parsed[i]))
  }

  /** The four lookups a loader highlighter makes for one pair, one after the other: the
      loader's document, the loader's text, the env URIs, the parsed envs. */
  function PairInputs(event: ConfiguruEvent, ws: Workspace, pair: RelatedPaths): (r: Result<LoaderInputs>)
    ensures r.Success? ==> FetchAll([pair.loader], FilesFn(event, ws)) == Success([r.value.tsConfigFile])
    ensures r.Success? ==> |r.value.envs| == |pair.envs|
  {
    var files :- FetchAll([pair.loader], FilesFn(event, ws));
    var texts :- FetchAll([pair.loader], TextsFn(event, ws));
    var uris :- FetchAll(pair.envs, UrisFn(event, ws));
    var parsed :- FetchAll(pair.envs, ParsedFn(event, ws));
    assert [files[0]] == files;
    Success(LoaderInputs(files[0], texts[0], Zip(uris, parsed)))
  }

  /** The lookups of one pair through the event's caches. When the caches agree with the
      lookup functions, the result is `PairInputs` and they still agree. */
  method FetchLoaderPair(c: EventCache, event: ConfiguruEvent, ws: Workspace, pair: RelatedPaths)
    returns (r: Result<LoaderInputs>)
    modifies c.files, c.fileTexts, c.fileUris, c.fileParsed
    ensures old(CacheAgrees(c, event, ws)) ==> CacheAgrees(c, event, ws) && r == PairInputs(event, ws, pair)
  {
    ghost var agreed := CacheAgrees(c, event, ws);
    ghost var e1 := c.files.entries;
    var files, _ := ContextDataloader(c.files, [pair.loader], FilesFn(event, ws), DocumentTruthy);
    if agreed {
      DataloaderTransparent(e1, [pair.loader], FilesFn(event, ws), DocumentTruthy);
    }
    if files.Failure? {
      return Failure(files.error);
    }
    ghost var e2 := c.fileTexts.entries;
    var texts, _ := ContextDataloader(c.fileTexts, [pair.loader], TextsFn(event, ws), TextTruthy);
    if agreed {
      DataloaderTransparent(e2, [pair.loader], TextsFn(event, ws), TextTruthy);
    }
    if texts.Failure? {
      return Failure(texts.error);
    }
    ghost var e3 := c.fileUris.entries;
    var uris, _ := ContextDataloader(c.fileUris, pair.envs, UrisFn(event, ws), UriTruthy);
    if agreed {
      DataloaderTransparent(e3, pair.envs, UrisFn(event, ws), UriTruthy);
    }
    if uris.Failure? {
      return Failure(uris.error);
    }
    ghost var e4 := c.fileParsed.entries;
    var parsed, _ := ContextDataloader(c.fileParsed, pair.envs, ParsedFn(event, ws), ParsedTruthy);
    if agreed {
      DataloaderTransparent(e4, pair.envs, ParsedFn(event, ws), ParsedTruthy);
    }
    if parsed.Failure? {
      return Failure(parsed.error);
    }
    r := Success(LoaderInputs(files.value[0], texts.value[0], Zip(uris.value, parsed.value)));
  }

  // ---------------------------------------------------------------------------------
  // `highlight(event)` of a loader-file highlighter

  /** A loader-file highlighter's `getTsFileDiagnostics(tsConfigFile, tsConfigText, envs)`. */
  type Diagnose = (Document, string, seq<EnvInput>) -> Result<Highlight>

  /** The highlight of one pair: its lookups, then the diagnostics. */
  function PairHighlight(event: ConfiguruEvent, ws: Workspace, pair: RelatedPaths, diagnose: Diagnose): Result<Highlight> {
    var inputs :- PairInputs(event, ws, pair);
    diagnose(inputs.tsConfigFile, inputs.tsConfigText, inputs.envs)
  }

  /** What `highlight(event)` returns: every pair's highlight, or the first failure
      (`Promise.all`). */
  function LoaderHighlights(event: ConfiguruEvent, ws: Workspace, relatedPaths: seq<RelatedPaths>, diagnose: Diagnose): Result<seq<Highlight>> {
    AllOf(seq(|relatedPaths|, i requires 0 <= i < |relatedPaths| => PairHighlight(event, ws, relatedPaths[i], diagnose)))
  }

  /** A pair that succeeds was diagnosed on the pair's own loader document. */
  lemma PairHighlightInputs(event: ConfiguruEvent, ws: Workspace, pair: RelatedPaths, diagnose: Diagnose)
    requires PairHighlight(event, ws, pair, diagnose).Success?
    ensures GetFiles(event, ws, pair.loader).Success?
    ensures PairInputs(event, ws, pair).Success?
    ensures PairInputs(event, ws, pair).value.tsConfigFile == GetFiles(event, ws, pair.loader).value
  {
    var inputs := PairInputs(event, ws, pair).value;
    var lookups := seq(1, i requires 0 <= i < 1 => FilesFn(event, ws)([pair.loader][i]));
    assert AllOf(lookups) == Success([inputs.tsConfigFile]);
    assert lookups[0] == GetFiles(event, ws, pair.loader);
  }

  /** One highlight per related pair, in order; when the diagnostics always target the
      document they are given, each highlight targets its pair's loader document. */
  lemma LoaderHighlightsPerPair(event: ConfiguruEvent, ws: Workspace, relatedPaths: seq<RelatedPaths>, diagnose: Diagnose)
    requires LoaderHighlights(event, ws, relatedPaths, diagnose).Success?
    requires forall d, t, e :: diagnose(d, t, e).Success? ==> diagnose(d, t, e).value.target == d.uri
    ensures var hs := LoaderHighlights(event, ws, relatedPaths, diagnose).value;
            && |hs| == |relatedPaths|
            && forall i :: 0 <= i < |hs| ==>
                 GetFiles(event, ws, relatedPaths[i].loader).Success? &&
                 hs[i].target == GetFiles(event, ws, relatedPaths[i].loader).value.uri
  {
    var rs := seq(|relatedPaths|, i requires 0 <= i < |relatedPaths| => PairHighlight(event, ws, relatedPaths[i], diagnose));
    var hs := LoaderHighlights(event, ws, relatedPaths, diagnose).value;
    forall i | 0 <= i < |hs|
      ensures GetFiles(event, ws, relatedPaths[i].loader).Success? &&
              hs[i].target == GetFiles(event, ws, relatedPaths[i].loader).value.uri
    {
      assert rs[i] == PairHighlight(event, ws, relatedPaths[i], diagnose);
      PairHighlightInputs(event, ws, relatedPaths[i], diagnose);
    }
  }

  /** One pair through the caches. */
  method HighlightPair(c: EventCache, event: ConfiguruEvent, ws: Workspace, pair: RelatedPaths, diagnose: Diagnose)
    returns (r: Result<Highlight>)
    modifies c.files, c.fileTexts, c.fileUris, c.fileParsed
    ensures old(CacheAgrees(c, event, ws)) ==> CacheAgrees(c, event, ws) && r == PairHighlight(event, ws, pair, diagnose)
  {
    var inputs := FetchLoaderPair(c, event, ws, pair);
    if inputs.Failure? {
      return Failure(inputs.error);
    }
    r := diagnose(inputs.value.tsConfigFile, inputs.value.tsConfigText, inputs.value.envs);
  }

  /** `relatedPaths.map(...)`: the pairs one after the other (the source starts them
      together), each through the caches. */
  method HighlightEach(c: EventCache, event: ConfiguruEvent, ws: Workspace, relatedPaths: seq<RelatedPaths>, diagnose: Diagnose)
    returns (outcomes: seq<Result<Highlight>>)
    modifies c.files, c.fileTexts, c.fileUris, c.fileParsed
    ensures old(CacheAgrees(c, event, ws)) ==>
              && CacheAgrees(c, event, ws)
              && |outcomes| == |relatedPaths|
              && forall i :: 0 <= i < |relatedPaths| ==> outcomes[i] == PairHighlight(event, ws, relatedPaths[i], diagnose)
    decreases |relatedPaths|
  {
    if relatedPaths == [] {
      return [];
    }
    var first := HighlightPair(c, event, ws, relatedPaths[0], diagnose);
    var rest := HighlightEach(c, event, ws, relatedPaths[1..], diagnose);
    outcomes := [first] + rest;
  }

  /** `highlight(event)` of a loader-file highlighter: when the caches agree with the
      lookups, the result is `LoaderHighlights` and they still agree. */
  method HighlightLoaderFiles(c: EventCache, event: ConfiguruEvent, ws: Workspace, relatedPaths: seq<RelatedPaths>, diagnose: Diagnose)
    returns (r: Result<seq<Highlight>>)
    modifies c.files, c.fileTexts, c.fileUris, c.fileParsed
    ensures old(CacheAgrees(c, event, ws)) ==> CacheAgrees(c, event, ws) && r == LoaderHighlights(event, ws, relatedPaths, diagnose)
  {
    var outcomes := HighlightEach(c, event, ws, relatedPaths, diagnose);
    r := AllOf(outcomes);
    if old(CacheAgrees(c, event, ws)) {
      assert outcomes == seq(|relatedPaths|, i requires 0 <= i < |relatedPaths| => PairHighlight(event, ws, relatedPaths[i], diagnose));
    }
  }
}
