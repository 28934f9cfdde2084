/** The unsafe-defaults highlighter: a key a loader file declares `hidden(...)` must have an
    empty or placeholder value in the first env file that has it. */
module UnsafeDefaultVariables {
  import opened Wrappers
  import opened Editor
  import opened Context
  import opened Event
  import opened Helpers
  import opened TextPatterns
  import opened HighlighterPort

  /** `isDefaultValueSafe(value, key)`: the value is the empty string or `__key__`. */
  predicate IsDefaultValueSafe(value: JsonValue, key: string) {
    value == JString("") || value == JString("__" + key + "__")
  }

  /** `tsConfigText.match(hiddenPattern)?.map(x => x.slice(7, -1).trim().slice(1, -1)) ?? []`. */
  function HiddenTsKeys(text: string): (r: seq<string>)
    ensures |r| == |MatchAll(QuotedArgument("hidden"), text)|
    ensures forall i :: 0 <= i < |r| ==> r[i] == ArgumentOf(MatchAll(QuotedArgument("hidden"), text)[i], 6)
  {
    var matches := MatchAll(QuotedArgument("hidden"), text);
    seq(|matches|, i requires 0 <= i < |matches| => ArgumentOf(matches[i], 6))
  }

  /** The hidden keys are, in order, the arguments of the matches of `hidden(...)`: the
      text between the opening quote after `hidden(` and the last suitable closing quote
      on that line. */
  lemma HiddenTsKeysSpec(text: string)
    ensures |HiddenTsKeys(text)| == |MatchSpans(QuotedArgument("hidden"), text, 0)|
    ensures forall i :: 0 <= i < |HiddenTsKeys(text)| ==>
              ArgumentOfMatch(text, "hidden", MatchSpans(QuotedArgument("hidden"), text, 0)[i], HiddenTsKeys(text)[i])
  {
    ArgumentsOfMatches(text, "hidden", HiddenTsKeys(text));
  }

  /** `envs.find(({ parsed }) => hiddenKey in parsed)`: the first env that has the key
      (own or inherited); `in` on an absent parse result throws. */
  function FindEnv(envs: seq<EnvInput>, key: string): (r: Result<Option<EnvInput>>)
    ensures r.Success? && r.value.Some? ==> r.value.value.parsed.Some?
  {
    if envs == [] then Success(None)
    else if envs[0].parsed.None? then Failure("Cannot use 'in' operator to search for '" + key + "' in undefined")
    else if HasProperty(envs[0].parsed.value, key) then Success(Some(envs[0]))
    else FindEnv(envs[1..], key)
  }

  /** The envs before index `i` were parsed and do not have the key. */
  ghost predicate SkippedBefore(envs: seq<EnvInput>, key: string, i: nat) {
    i <= |envs| && forall j :: 0 <= j < i ==> envs[j].parsed.Some? && !HasProperty(envs[j].parsed.value, key)
  }

  lemma SkippedTail(envs: seq<EnvInput>, key: string, i: nat)
    requires 0 < i && SkippedBefore(envs, key, i)
    ensures SkippedBefore(envs[1..], key, i - 1)
  {
    forall j | 0 <= j < i - 1
      ensures envs[1..][j].parsed.Some? && !HasProperty(envs[1..][j].parsed.value, key)
    {
      assert envs[1..][j] == envs[j + 1];
    }
  }

  /** `find` answers the first env that was parsed and has the key. */
  lemma {:induction false} FindEnvFirstHit(envs: seq<EnvInput>, key: string, i: nat)
    requires 0 <= i < |envs| && SkippedBefore(envs, key, i)
    requires envs[i].parsed.Some? && HasProperty(envs[i].parsed.value, key)
    ensures FindEnv(envs, key) == Success(Some(envs[i]))
    decreases i
  {
    if i > 0 {
      SkippedTail(envs, key, i);
      FindEnvFirstHit(envs[1..], key, i - 1);
    }
  }

  /** `find` throws at an unparsed env that comes before any env with the key. */
  lemma {:induction false} FindEnvFirstUnparsed(envs: seq<EnvInput>, key: string, i: nat)
    requires 0 <= i < |envs| && SkippedBefore(envs, key, i) && envs[i].parsed.None?
    ensures FindEnv(envs, key).Failure?
    decreases i
  {
    if i > 0 {
      SkippedTail(envs, key, i);
      FindEnvFirstUnparsed(envs[1..], key, i - 1);
    }
  }

  /** No parsed env has the key: `find` answers `undefined`. */
  lemma {:induction false} FindEnvNone(envs: seq<EnvInput>, key: string)
    requires SkippedBefore(envs, key, |envs|)
    ensures FindEnv(envs, key) == Success(None)
    decreases |envs|
  {
    if envs != [] {
      SkippedTail(envs, key, |envs|);
      FindEnvNone(envs[1..], key);
    }
  }

  lemma SkippedHead(envs: seq<EnvInput>, key: string, k: nat)
    requires envs != [] && envs[0].parsed.Some? && !HasProperty(envs[0].parsed.value, key)
    requires SkippedBefore(envs[1..], key, k)
    ensures SkippedBefore(envs, key, k + 1)
  {
    forall j | 0 <= j < k + 1
      ensures envs[j].parsed.Some? && !HasProperty(envs[j].parsed.value, key)
    {
      if j > 0 {
        assert envs[j] == envs[1..][j - 1];
      }
    }
  }

  /** An env that `find` answers is the first parsed env with the key. */
  lemma {:induction false} FindEnvHitIndex(envs: seq<EnvInput>, key: string) returns (i: nat)
    requires FindEnv(envs, key).Success? && FindEnv(envs, key).value.Some?
    ensures 0 <= i < |envs| && SkippedBefore(envs, key, i)
    ensures envs[i].parsed.Some? && HasProperty(envs[i].parsed.value, key)
    ensures FindEnv(envs, key).value == Some(envs[i])
    decreases |envs|
  {
    if HasProperty(envs[0].parsed.value, key) {
      return 0;
    }
    var k := FindEnvHitIndex(envs[1..], key);
    SkippedHead(envs, key, k);
    i := k + 1;
  }

  /** When `find` throws, an unparsed env comes before any env with the key. */
  lemma {:induction false} FindEnvFailureIndex(envs: seq<EnvInput>, key: string) returns (i: nat)
    requires FindEnv(envs, key).Failure?
    ensures 0 <= i < |envs| && SkippedBefore(envs, key, i) && envs[i].parsed.None?
    decreases |envs|
  {
    if envs[0].parsed.None? {
      return 0;
    }
    var k := FindEnvFailureIndex(envs[1..], key);
    SkippedHead(envs, key, k);
    i := k + 1;
  }

  /** The key's env value is unsafe: `find` succeeds with an env whose value for the
      key is neither empty nor the placeholder. */
  predicate IsUnsafe(envs: seq<EnvInput>, key: string) {
    var env := FindEnv(envs, key);
    env.Success? && env.value.Some? && !IsDefaultValueSafe(PropertyValue(env.value.value.parsed.value, key), key)
  }

  function UnsafeMessage(key: string, path: string): string {
    "Key '" + key + "' should have a safe default value. Use empty string or '__" + key + "__' in " + path
  }

  /** The warning for a hidden key with an unsafe value: at the key's single-quoted first
      occurrence in the loader document, pointing at that same range. */
  function UnsafeDiagnostic(doc: Document, key: string): Diagnostic {
    var keyRange := QuotedKeyRange(doc.text, key, '\'');
    Diagnostic(
      keyRange, UnsafeMessage(key, doc.uri.path), Warning, "key-unsafe-default-value", doc.uri, "configuru",
      [RelatedInformation(Location(doc.uri, keyRange), "Unsafe default value in .env")])
  }

  /** The diagnostics of the loop over the hidden keys, or the first `find` that throws. */
  function KeysDiagnostics(doc: Document, envs: seq<EnvInput>, keys: seq<string>): Result<seq<Diagnostic>> {
    if keys == [] then Success([])
    else
      var key := keys[|keys| - 1];
      var prev :- KeysDiagnostics(doc, envs, keys[..|keys| - 1]);
      var env :- FindEnv(envs, key);
      if env.None? || IsDefaultValueSafe(PropertyValue(env.value.parsed.value, key), key) then Success(prev)
      else Success(prev + [UnsafeDiagnostic(doc, key)])
  }

  /** What `getTsFileDiagnostics(tsConfigFile, tsConfigText, envs)` returns. */
  function TsFileDiagnostics(doc: Document, text: string, envs: seq<EnvInput>): Result<Highlight> {
    var diagnostics :- KeysDiagnostics(doc, envs, HiddenTsKeys(text));
    Success(Highlight(doc.uri, diagnostics))
  }

  /** What one turn of the loop makes of the diagnostics `prev` for `key`. */
  function KeyTurn(doc: Document, envs: seq<EnvInput>, prev: seq<Diagnostic>, key: string): Result<seq<Diagnostic>> {
    var env :- FindEnv(envs, key);
    if env.None? || IsDefaultValueSafe(PropertyValue(env.value.parsed.value, key), key) then Success(prev)
    else Success(prev + [UnsafeDiagnostic(doc, key)])
  }

  /** One more key of the loop. */
  lemma KeysStep(doc: Document, envs: seq<EnvInput>, keys: seq<string>, i: nat)
    requires i < |keys| && KeysDiagnostics(doc, envs, keys[..i]).Success?
    ensures KeysDiagnostics(doc, envs, keys[..i + 1]) == KeyTurn(doc, envs, KeysDiagnostics(doc, envs, keys[..i]).value, keys[i])
  {
    assert keys[..i + 1][..i] == keys[..i];
  }

  /** `getTsFileDiagnostics(tsConfigFile, tsConfigText, envs)`. */
  method GetTsFileDiagnostics(tsConfigFile: Document, tsConfigText: string, envs: seq<EnvInput>) returns (r: Result<Highlight>)
    ensures r == TsFileDiagnostics(tsConfigFile, tsConfigText, envs)
  {
    var hiddenTsKeys := HiddenTsKeys(tsConfigText);
    var diagnostics := DiagnoseKeys(tsConfigFile, envs, hiddenTsKeys);
    if diagnostics.Failure? {
      return Failure(diagnostics.error);
    }
    r := Success(Highlight(tsConfigFile.uri, diagnostics.value));
  }

  /** The `for (const hiddenKey of hiddenTsKeys)` loop of `getTsFileDiagnostics`: a `find`
      that throws ends it. */
  method DiagnoseKeys(tsConfigFile: Document, envs: seq<EnvInput>, hiddenTsKeys: seq<string>) returns (r: Result<seq<Diagnostic>>)
    ensures r == KeysDiagnostics(tsConfigFile, envs, hiddenTsKeys)
  {
    var diagnostics: seq<Diagnostic> := [];
    var i := 0;
    while i < |hiddenTsKeys|
      invariant 0 <= i <= |hiddenTsKeys|
      invariant KeysDiagnostics(tsConfigFile, envs, hiddenTsKeys[..i]) == Success(diagnostics)
    {
      var hiddenKey := hiddenTsKeys[i];
      KeysStep(tsConfigFile, envs, hiddenTsKeys, i);
      var env := FindEnv(envs, hiddenKey);
      if env.Failure? {
        KeysFailurePersists(tsConfigFile, envs, hiddenTsKeys, i + 1);
        return Failure(env.error);
      }
      if !(env.value.None? || IsDefaultValueSafe(PropertyValue(env.value.value.parsed.value, hiddenKey), hiddenKey)) {
        diagnostics := diagnostics + [UnsafeDiagnostic(tsConfigFile, hiddenKey)];
      }
      i := i + 1;
    }
    assert hiddenTsKeys[..i] == hiddenTsKeys;
    r := Success(diagnostics);
  }

  /** Once a `find` has thrown, the whole loop fails with that error. */
  lemma {:induction false} KeysFailurePersists(doc: Document, envs: seq<EnvInput>, keys: seq<string>, n: nat)
    requires n <= |keys| && KeysDiagnostics(doc, envs, keys[..n]).Failure?
    ensures KeysDiagnostics(doc, envs, keys) == KeysDiagnostics(doc, envs, keys[..n])
    decreases |keys| - n
  {
    if n < |keys| {
      assert keys[..n + 1][..n] == keys[..n];
      KeysFailurePersists(doc, envs, keys, n + 1);
    } else {
      assert keys[..n] == keys;
    }
  }

  lemma MessageDeterminesKey(k1: string, k2: string, path: string)
    requires UnsafeMessage(k1, path) == UnsafeMessage(k2, path)
    ensures k1 == k2
  {
    var m1 := UnsafeMessage(k1, path);
    var m2 := UnsafeMessage(k2, path);
    assert |m1| == 2 * |k1| + |UnsafeMessage("", path)|;
    assert |m2| == 2 * |k2| + |UnsafeMessage("", path)|;
    assert k1 == m1[5..5 + |k1|];
    assert k2 == m2[5..5 + |k2|];
  }

  /** The loop fails exactly when the `find` of some key throws. */
  lemma {:induction false} KeysFailureIff(doc: Document, envs: seq<EnvInput>, keys: seq<string>)
    ensures KeysDiagnostics(doc, envs, keys).Failure? <==> exists k :: k in keys && FindEnv(envs, k).Failure?
    decreases |keys|
  {
    if keys != [] {
      var init := keys[..|keys| - 1];
      var last := keys[|keys| - 1];
      KeysFailureIff(doc, envs, init);
      assert keys == init + [last];
      if exists k :: k in keys && FindEnv(envs, k).Failure? {
        var k :| k in keys && FindEnv(envs, k).Failure?;
        if k != last {
          assert k in init;
        }
      }
      if KeysDiagnostics(doc, envs, keys).Failure? {
        if KeysDiagnostics(doc, envs, init).Failure? {
          var k :| k in init && FindEnv(envs, k).Failure?;
          assert k in keys;
        } else {
          assert last in keys && FindEnv(envs, last).Failure?;
        }
      }
    }
  }

  /** When it succeeds, the loop reports exactly the keys with an unsafe value. */
  lemma {:induction false} KeysReportedIff(doc: Document, envs: seq<EnvInput>, keys: seq<string>, key: string)
    requires KeysDiagnostics(doc, envs, keys).Success?
    ensures UnsafeDiagnostic(doc, key) in KeysDiagnostics(doc, envs, keys).value <==> key in keys && IsUnsafe(envs, key)
    decreases |keys|
  {
    if keys != [] {
      var init := keys[..|keys| - 1];
      var last := keys[|keys| - 1];
      KeysReportedIff(doc, envs, init, key);
      assert keys == init + [last];
      if UnsafeDiagnostic(doc, key) == UnsafeDiagnostic(doc, last) {
        MessageDeterminesKey(key, last, doc.uri.path);
      }
    }
  }

  /** The first env that was parsed and has the key gives an unsafe value. */
  ghost predicate UnsafeInFirstEnv(envs: seq<EnvInput>, key: string) {
    exists i :: 0 <= i < |envs| && SkippedBefore(envs, key, i) && envs[i].parsed.Some? &&
                HasProperty(envs[i].parsed.value, key) &&
                !IsDefaultValueSafe(PropertyValue(envs[i].parsed.value, key), key)
  }

  /** `find` meets an unparsed env before any env with the key. */
  ghost predicate UnparsedFirst(envs: seq<EnvInput>, key: string) {
    exists i :: 0 <= i < |envs| && SkippedBefore(envs, key, i) && envs[i].parsed.None?
  }

  lemma IsUnsafeIff(envs: seq<EnvInput>, key: string)
    ensures IsUnsafe(envs, key) <==> UnsafeInFirstEnv(envs, key)
    ensures FindEnv(envs, key).Failure? <==> UnparsedFirst(envs, key)
  {
    if IsUnsafe(envs, key) {
      var i := FindEnvHitIndex(envs, key);
    }
    if UnsafeInFirstEnv(envs, key) {
      var i :| 0 <= i < |envs| && SkippedBefore(envs, key, i) && envs[i].parsed.Some? &&
               HasProperty(envs[i].parsed.value, key) &&
               !IsDefaultValueSafe(PropertyValue(envs[i].parsed.value, key), key);
      FindEnvFirstHit(envs, key, i);
    }
    if FindEnv(envs, key).Failure? {
      var i := FindEnvFailureIndex(envs, key);
    }
    if UnparsedFirst(envs, key) {
      var i :| 0 <= i < |envs| && SkippedBefore(envs, key, i) && envs[i].parsed.None?;
      FindEnvFirstUnparsed(envs, key, i);
    }
  }

  /** The check fails iff some hidden key meets an unparsed env before any env that has
      it. */
  lemma FailureIff(doc: Document, text: string, envs: seq<EnvInput>)
    ensures TsFileDiagnostics(doc, text, envs).Failure? <==> exists k :: k in HiddenTsKeys(text) && UnparsedFirst(envs, k)
  {
    var keys := HiddenTsKeys(text);
    KeysFailureIff(doc, envs, keys);
    if exists k :: k in keys && UnparsedFirst(envs, k) {
      var k :| k in keys && UnparsedFirst(envs, k);
      IsUnsafeIff(envs, k);
    }
    if KeysDiagnostics(doc, envs, keys).Failure? {
      var k :| k in keys && FindEnv(envs, k).Failure?;
      IsUnsafeIff(envs, k);
    }
  }

  /** A hidden key is reported iff, in the first env that was parsed and has it (own or
      inherited), its value is neither empty nor `__key__`; every env before that one was
      parsed. */
  lemma ReportedIff(doc: Document, text: string, envs: seq<EnvInput>, key: string)
    requires TsFileDiagnostics(doc, text, envs).Success?
    ensures UnsafeDiagnostic(doc, key) in TsFileDiagnostics(doc, text, envs).value.diagnostics <==>
              key in HiddenTsKeys(text) && UnsafeInFirstEnv(envs, key)
  {
    KeysReportedIff(doc, envs, HiddenTsKeys(text), key);
    IsUnsafeIff(envs, key);
  }

  /** A key no parsed env has is never reported, and neither is one whose first env gives
      it the empty string or `__key__`. */
  lemma SafeKeysNotReported(doc: Document, text: string, envs: seq<EnvInput>, key: string)
    requires TsFileDiagnostics(doc, text, envs).Success?
    requires || SkippedBefore(envs, key, |envs|)
             || exists i :: (0 <= i < |envs| && SkippedBefore(envs, key, i) && envs[i].parsed.Some? &&
                            HasProperty(envs[i].parsed.value, key) &&
                            IsDefaultValueSafe(PropertyValue(envs[i].parsed.value, key), key))
    ensures UnsafeDiagnostic(doc, key) !in TsFileDiagnostics(doc, text, envs).value.diagnostics
  {
    KeysReportedIff(doc, envs, HiddenTsKeys(text), key);
    if SkippedBefore(envs, key, |envs|) {
      FindEnvNone(envs, key);
    } else {
      var i :| 0 <= i < |envs| && SkippedBefore(envs, key, i) && envs[i].parsed.Some? &&
               HasProperty(envs[i].parsed.value, key) &&
               IsDefaultValueSafe(PropertyValue(envs[i].parsed.value, key), key);
      FindEnvFirstHit(envs, key, i);
    }
  }

  lemma {:induction false} KeysDiagnosticsShape(doc: Document, envs: seq<EnvInput>, keys: seq<string>)
    requires KeysDiagnostics(doc, envs, keys).Success?
    ensures |KeysDiagnostics(doc, envs, keys).value| <= |keys|
    ensures forall d :: d in KeysDiagnostics(doc, envs, keys).value ==> exists key :: key in keys && d == UnsafeDiagnostic(doc, key)
    decreases |keys|
  {
    if keys != [] {
      var init := keys[..|keys| - 1];
      KeysDiagnosticsShape(doc, envs, init);
      forall d | d in KeysDiagnostics(doc, envs, init).value
        ensures exists key :: key in keys && d == UnsafeDiagnostic(doc, key)
      {
        var key :| key in init && d == UnsafeDiagnostic(doc, key);
        assert key in keys;
      }
    }
  }

  /** Every diagnostic is a warning with code `key-unsafe-default-value` for one of the
      hidden keys, targets the loader file and has one related entry, the key's own range;
      there are at most as many as hidden keys. */
  lemma DiagnosticsShape(doc: Document, text: string, envs: seq<EnvInput>)
    requires TsFileDiagnostics(doc, text, envs).Success?
    ensures var h := TsFileDiagnostics(doc, text, envs).value;
            && h.target == doc.uri
            && |h.diagnostics| <= |HiddenTsKeys(text)|
            && forall d :: d in h.diagnostics ==>
                 && d.severity == Warning && d.code == "key-unsafe-default-value" && d.source == "configuru"
                 && d.codeTarget == doc.uri
                 && d.relatedInformation == [RelatedInformation(Location(doc.uri, d.range), "Unsafe default value in .env")]
                 && exists key :: (key in HiddenTsKeys(text) && d.range == QuotedKeyRange(doc.text, key, '\'') &&
                                   d.message == UnsafeMessage(key, doc.uri.path))
  {
    KeysDiagnosticsShape(doc, envs, HiddenTsKeys(text));
  }

  // ---------------------------------------------------------------------------------
  // The highlighter

  const UnsafeDefaultVariablesHighlighter: Highlighter :=
    Highlighter("unsafe-default-variables",
                [TsConfigFileChanged, TsConfigFileOpened, EnvFileOpened, EnvFileChanged, ExtensionLoaded],
                HighlightUnsafeDefaultValues)

  /** Every event kind triggers the check. */
  lemma TriggerKinds(e: EventKind)
    ensures IsTriggeredByEvent(UnsafeDefaultVariablesHighlighter, e)
  {
  }

  /** `highlight(event)`: one highlight per related pair, each for the pair's loader
      document, or the first failure. */
  method HighlightFiles(c: EventCache, event: ConfiguruEvent, ws: Workspace, relatedPaths: seq<RelatedPaths>)
    returns (r: Result<seq<Highlight>>)
    modifies c.files, c.fileTexts, c.fileUris, c.fileParsed
    ensures old(CacheAgrees(c, event, ws)) ==> CacheAgrees(c, event, ws) && r == LoaderHighlights(event, ws, relatedPaths, TsFileDiagnostics)
    ensures old(CacheAgrees(c, event, ws)) && r.Success? ==>
              && |r.value| == |relatedPaths|
              && forall i :: 0 <= i < |relatedPaths| ==>
                   GetFiles(event, ws, relatedPaths[i].loader).Success? &&
                   r.value[i].target == GetFiles(event, ws, relatedPaths[i].loader).value.uri
  {
    r := HighlightLoaderFiles(c, event, ws, relatedPaths, TsFileDiagnostics);
    if old(CacheAgrees(c, event, ws)) && r.Success? {
      LoaderHighlightsPerPair(event, ws, relatedPaths, TsFileDiagnostics);
    }
  }
}
