/** The missing-keys highlighter: every quoted call argument of a loader file that no env
    file defines, outside `//` comments, is an error. */
module MissingEnvFileKeys {
  import opened Wrappers
  import opened JsString
  import opened Editor
  import opened Context
  import opened Event
  import opened Helpers
  import opened TextPatterns
  import opened HighlighterPort

  /** `envs.flatMap(({ parsed }) => Object.keys(parsed))`; an env without a parse result
      makes `Object.keys` throw. */
  function DotEnvKeys(envs: seq<EnvInput>): (r: Result<seq<string>>)
    ensures r.Success? <==> forall j :: 0 <= j < |envs| ==> envs[j].parsed.Some?
  {
    if envs == [] then Success([])
    else
      var init := envs[..|envs| - 1];
      var last := envs[|envs| - 1];
      assert forall j :: 0 <= j < |init| ==> init[j] == envs[j];
      match DotEnvKeys(init)
      case Failure(e) => Failure(e)
      case Success(prev) =>
        if last.parsed.None? then Failure("Cannot convert undefined or null to object")
        else Success(prev + last.parsed.value.keys)
  }

  /** The key universe is the union of the keys of all env files. */
  lemma {:induction false} DotEnvKeysIff(envs: seq<EnvInput>, key: string)
    requires DotEnvKeys(envs).Success?
    ensures key in DotEnvKeys(envs).value <==> exists j :: 0 <= j < |envs| && key in envs[j].parsed.value.keys
    decreases |envs|
  {
    if envs != [] {
      var init := envs[..|envs| - 1];
      DotEnvKeysIff(init, key);
      if exists j :: 0 <= j < |init| && key in init[j].parsed.value.keys {
        var j :| 0 <= j < |init| && key in init[j].parsed.value.keys;
        assert envs[j] == init[j];
      }
      if exists j :: 0 <= j < |envs| && key in envs[j].parsed.value.keys {
        var j :| 0 <= j < |envs| && key in envs[j].parsed.value.keys;
        if j < |init| {
          assert envs[j] == init[j];
        }
      }
    }
  }

  /** `tsConfigText.match(pattern)?.map(x => x.slice(1, -1).trim().slice(1, -1)) ?? []`. */
  function ConfigTsKeys(text: string): (r: seq<string>)
    ensures |r| == |MatchAll(QuotedArgument(""), text)|
    ensures forall i :: 0 <= i < |r| ==> r[i] == ArgumentOf(MatchAll(QuotedArgument(""), text)[i], 0)
  {
    var matches := MatchAll(QuotedArgument(""), text);
    seq(|matches|, i requires 0 <= i < |matches| => ArgumentOf(matches[i], 0))
  }

  /** The candidate keys are, in order, the arguments of the matches of the quoted-argument
      pattern: the text between the opening quote after `(` and the last suitable closing
      quote on that line. */
  lemma ConfigTsKeysSpec(text: string)
    ensures |ConfigTsKeys(text)| == |MatchSpans(QuotedArgument(""), text, 0)|
    ensures forall i :: 0 <= i < |ConfigTsKeys(text)| ==>
              ArgumentOfMatch(text, "", MatchSpans(QuotedArgument(""), text, 0)[i], ConfigTsKeys(text)[i])
  {
    ArgumentsOfMatches(text, "", ConfigTsKeys(text));
  }

  /** The range of a comment: at the first occurrence of its text in the loader text, as
      a range of the loader document. */
  function CommentRange(doc: Document, text: string, comment: string): Range {
    var startPos := IndexOf(text, comment);
    OffsetRange(doc.text, startPos, startPos + |comment|)
  }

  function CommentRanges(doc: Document, text: string, comments: seq<string>): (r: seq<Range>)
    ensures |r| == |comments| && forall i :: 0 <= i < |r| ==> r[i] == CommentRange(doc, text, comments[i])
  {
    seq(|comments|, i requires 0 <= i < |comments| => CommentRange(doc, text, comments[i]))
  }

  /** For a loader text that is the document's text, the range of the i-th comment match
      covers the first occurrence of that comment's text, which starts at or before the
      match itself (an earlier identical comment takes its place). */
  lemma CommentRangesOfMatches(doc: Document, text: string, i: nat)
    requires doc.text == text && i < |MatchAll(LineComment, text)|
    ensures var c := MatchAll(LineComment, text)[i];
            var j := IndexOf(text, c);
            && 0 <= j <= MatchSpans(LineComment, text, 0)[i].start
            && OccursAt(text, c, j)
            && CommentRanges(doc, text, MatchAll(LineComment, text))[i] == Range(j, j + |c|)
  {
    var m := MatchSpans(LineComment, text, 0)[i];
    assert m in MatchSpans(LineComment, text, 0);
    assert OccursAt(text, MatchAll(LineComment, text)[i], m.start);
  }

  /** A missing key whose single-quoted form does not occur in the loader document (it is
      written with double quotes, say) gets the range at the start of the document; a
      first comment range that starts there and is at least `|key| + 1` long hides its
      error. */
  lemma AbsentKeyHiddenByLeadingComment(doc: Document, comments: seq<string>, ranges: seq<Range>, key: string)
    requires forall j :: !OccursAt(doc.text, ['\''] + key + ['\''], j)
    requires |comments| > 0 && |ranges| > 0 && ranges[0].start == 0 && |key| + 1 <= ranges[0].end
    ensures InComment(comments, ranges, QuotedKeyRange(doc.text, key, '\''))
  {
    QuotedKeyRangeAbsent(doc.text, key, '\'');
    assert Contains(ranges[0], QuotedKeyRange(doc.text, key, '\''));
  }

  /** `comments && commentRanges.some(commentRange => commentRange.contains(keyRange))`. */
  predicate InComment(comments: seq<string>, ranges: seq<Range>, keyRange: Range) {
    |comments| > 0 && exists i :: 0 <= i < |ranges| && Contains(ranges[i], keyRange)
  }

  function EnvPaths(envs: seq<EnvInput>): seq<string> {
    seq(|envs|, i requires 0 <= i < |envs| => envs[i].uri.path)
  }

  function EnvLocations(envs: seq<EnvInput>): (r: seq<RelatedInformation>)
    ensures |r| == |envs|
  {
    seq(|envs|, i requires 0 <= i < |envs| =>
      RelatedInformation(Location(envs[i].uri, Range(0, 0)), "Env file where key is expected"))
  }

  function MissingKeyMessage(key: string, envs: seq<EnvInput>): string {
    "Key '" + key + "' is missing in " + Join(EnvPaths(envs), ", ")
  }

  /** The error for a missing key: at the key's single-quoted first occurrence in the
      loader document, naming the key and every env path, pointing at the key and at the
      start of each env file. */
  function MissingKeyDiagnostic(doc: Document, key: string, envs: seq<EnvInput>): Diagnostic {
    var keyRange := QuotedKeyRange(doc.text, key, '\'');
    Diagnostic(
      keyRange, MissingKeyMessage(key, envs), Error, "missing-key", doc.uri, "configuru",
      [RelatedInformation(Location(doc.uri, keyRange), "Missing key")] + EnvLocations(envs))
  }

  /** `configTsKeys.filter(tsKey => !dotEnvKeys.includes(tsKey))`. */
  function MissingKeys(keys: seq<string>, dotEnvKeys: seq<string>): seq<string> {
    if keys == [] then []
    else
      MissingKeys(keys[..|keys| - 1], dotEnvKeys) +
        (if keys[|keys| - 1] in dotEnvKeys then [] else [keys[|keys| - 1]])
  }

  /** The diagnostics of the loop over the missing keys. */
  function KeyDiagnostics(doc: Document, envs: seq<EnvInput>, comments: seq<string>, ranges: seq<Range>, keys: seq<string>): seq<Diagnostic> {
    if keys == [] then []
    else
      var key := keys[|keys| - 1];
      KeyDiagnostics(doc, envs, comments, ranges, keys[..|keys| - 1]) +
        (if InComment(comments, ranges, QuotedKeyRange(doc.text, key, '\'')) then [] else [MissingKeyDiagnostic(doc, key, envs)])
  }

  /** What `getTsFileDiagnostics(tsConfigFile, tsConfigText, envs)` returns. */
  function TsFileDiagnostics(doc: Document, text: string, envs: seq<EnvInput>): Result<Highlight> {
    var dotEnvKeys :- DotEnvKeys(envs);
    var comments := MatchAll(LineComment, text);
    var ranges := CommentRanges(doc, text, comments);
    var missing := MissingKeys(ConfigTsKeys(text), dotEnvKeys);
    Success(Highlight(doc.uri, KeyDiagnostics(doc, envs, comments, ranges, missing)))
  }

  /** `getTsFileDiagnostics(tsConfigFile, tsConfigText, envs)`. */
  method GetTsFileDiagnostics(tsConfigFile: Document, tsConfigText: string, envs: seq<EnvInput>) returns (r: Result<Highlight>)
    ensures r == TsFileDiagnostics(tsConfigFile, tsConfigText, envs)
  {
    var dotEnvKeys := DotEnvKeys(envs);
    if dotEnvKeys.Failure? {
      return Failure(dotEnvKeys.error);
    }
    var comments := MatchAll(LineComment, tsConfigText);
    var commentRanges := CommentRanges(tsConfigFile, tsConfigText, comments);
    var configTsKeys := ConfigTsKeys(tsConfigText);
    var missingKeysInDotEnv := MissingKeys(configTsKeys, dotEnvKeys.value);
    var diagnostics: seq<Diagnostic> := [];
    var i := 0;
    while i < |missingKeysInDotEnv|
      invariant 0 <= i <= |missingKeysInDotEnv|
      invariant diagnostics == KeyDiagnostics(tsConfigFile, envs, comments, commentRanges, missingKeysInDotEnv[..i])
    {
      var key := missingKeysInDotEnv[i];
      assert missingKeysInDotEnv[..i + 1][..i] == missingKeysInDotEnv[..i];
      var keyRange := QuotedKeyRange(tsConfigFile.text, key, '\'');
      var isMissingKeyInTheComment := InComment(comments, commentRanges, keyRange);
      if !isMissingKeyInTheComment {
        diagnostics := diagnostics + [MissingKeyDiagnostic(tsConfigFile, key, envs)];
      }
      i := i + 1;
    }
    assert missingKeysInDotEnv[..i] == missingKeysInDotEnv;
    r := Success(Highlight(tsConfigFile.uri, diagnostics));
  }

  lemma {:induction false} MissingKeysIff(keys: seq<string>, dotEnvKeys: seq<string>, key: string)
    ensures key in MissingKeys(keys, dotEnvKeys) <==> key in keys && key !in dotEnvKeys
    decreases |keys|
  {
    if keys != [] {
      var init := keys[..|keys| - 1];
      MissingKeysIff(init, dotEnvKeys, key);
      assert keys == init + [keys[|keys| - 1]];
    }
  }

  lemma MessageDeterminesKey(k1: string, k2: string, envs: seq<EnvInput>)
    requires MissingKeyMessage(k1, envs) == MissingKeyMessage(k2, envs)
    ensures k1 == k2
  {
    var tail := "' is missing in " + Join(EnvPaths(envs), ", ");
    assert MissingKeyMessage(k1, envs) == "Key '" + (k1 + tail);
    assert MissingKeyMessage(k2, envs) == "Key '" + (k2 + tail);
    assert k1 + tail == MissingKeyMessage(k1, envs)[5..];
    assert k2 + tail == MissingKeyMessage(k2, envs)[5..];
    assert |k1| == |k2|;
    assert k1 == (k1 + tail)[..|k1|];
    assert k2 == (k2 + tail)[..|k2|];
  }

  lemma {:induction false} KeyDiagnosticsIff(doc: Document, envs: seq<EnvInput>, comments: seq<string>, ranges: seq<Range>, keys: seq<string>, key: string)
    ensures MissingKeyDiagnostic(doc, key, envs) in KeyDiagnostics(doc, envs, comments, ranges, keys) <==>
              key in keys && !InComment(comments, ranges, QuotedKeyRange(doc.text, key, '\''))
    decreases |keys|
  {
    if keys != [] {
      var init := keys[..|keys| - 1];
      var last := keys[|keys| - 1];
      KeyDiagnosticsIff(doc, envs, comments, ranges, init, key);
      assert keys == init + [last];
      if MissingKeyDiagnostic(doc, key, envs) == MissingKeyDiagnostic(doc, last, envs) {
        MessageDeterminesKey(key, last, envs);
      }
    }
  }

  /** A key is reported iff it is a quoted call argument of the loader text, no env
      file has it, and its range is not inside a comment's range. */
  lemma ReportedIff(doc: Document, text: string, envs: seq<EnvInput>, key: string)
    requires TsFileDiagnostics(doc, text, envs).Success?
    ensures var comments := MatchAll(LineComment, text);
            MissingKeyDiagnostic(doc, key, envs) in TsFileDiagnostics(doc, text, envs).value.diagnostics <==>
              && key in ConfigTsKeys(text)
              && (forall j :: 0 <= j < |envs| ==> key !in envs[j].parsed.value.keys)
              && !InComment(comments, CommentRanges(doc, text, comments), QuotedKeyRange(doc.text, key, '\''))
  {
    var dotEnvKeys := DotEnvKeys(envs).value;
    var comments := MatchAll(LineComment, text);
    var ranges := CommentRanges(doc, text, comments);
    var missing := MissingKeys(ConfigTsKeys(text), dotEnvKeys);
    KeyDiagnosticsIff(doc, envs, comments, ranges, missing, key);
    MissingKeysIff(ConfigTsKeys(text), dotEnvKeys, key);
    DotEnvKeysIff(envs, key);
  }

  lemma {:induction false} KeyDiagnosticsShape(doc: Document, envs: seq<EnvInput>, comments: seq<string>, ranges: seq<Range>, keys: seq<string>)
    ensures |KeyDiagnostics(doc, envs, comments, ranges, keys)| <= |keys|
    ensures forall d :: d in KeyDiagnostics(doc, envs, comments, ranges, keys) ==>
              exists key :: key in keys && d == MissingKeyDiagnostic(doc, key, envs)
    decreases |keys|
  {
    if keys != [] {
      var init := keys[..|keys| - 1];
      KeyDiagnosticsShape(doc, envs, comments, ranges, init);
      forall d | d in KeyDiagnostics(doc, envs, comments, ranges, init)
        ensures exists key :: key in keys && d == MissingKeyDiagnostic(doc, key, envs)
      {
        var key :| key in init && d == MissingKeyDiagnostic(doc, key, envs);
        assert key in keys;
      }
    }
  }

  lemma {:induction false} MissingKeysLength(keys: seq<string>, dotEnvKeys: seq<string>)
    ensures |MissingKeys(keys, dotEnvKeys)| <= |keys|
    decreases |keys|
  {
    if keys != [] {
      MissingKeysLength(keys[..|keys| - 1], dotEnvKeys);
    }
  }

  /** Every diagnostic is an error with code `missing-key` for one of the candidate
      keys: it targets the loader file, and its related information is the key's range
      followed by one entry per env file. There are at most as many as candidates. */
  lemma DiagnosticsShape(doc: Document, text: string, envs: seq<EnvInput>)
    requires TsFileDiagnostics(doc, text, envs).Success?
    ensures var h := TsFileDiagnostics(doc, text, envs).value;
            && h.target == doc.uri
            && |h.diagnostics| <= |ConfigTsKeys(text)|
            && forall d :: d in h.diagnostics ==>
                 && d.severity == Error && d.code == "missing-key" && d.source == "configuru"
                 && d.codeTarget == doc.uri
                 && |d.relatedInformation| == 1 + |envs|
                 && d.relatedInformation[0] == RelatedInformation(Location(doc.uri, d.range), "Missing key")
                 && exists key :: (key in ConfigTsKeys(text) && d.range == QuotedKeyRange(doc.text, key, '\'') &&
                                   d.message == "Key '" + key + "' is missing in " + Join(EnvPaths(envs), ", "))
  {
    var dotEnvKeys := DotEnvKeys(envs).value;
    var comments := MatchAll(LineComment, text);
    var ranges := CommentRanges(doc, text, comments);
    var missing := MissingKeys(ConfigTsKeys(text), dotEnvKeys);
    KeyDiagnosticsShape(doc, envs, comments, ranges, missing);
    MissingKeysLength(ConfigTsKeys(text), dotEnvKeys);
    forall d | d in TsFileDiagnostics(doc, text, envs).value.diagnostics
      ensures exists key :: key in ConfigTsKeys(text) && d.range == QuotedKeyRange(doc.text, key, '\'') &&
                d.message == "Key '" + key + "' is missing in " + Join(EnvPaths(envs), ", ")
    {
      var key :| key in missing && d == MissingKeyDiagnostic(doc, key, envs);
      MissingKeysIff(ConfigTsKeys(text), dotEnvKeys, key);
    }
  }

  // ---------------------------------------------------------------------------------
  // The highlighter

  const MissingEnvFileKeysHighlighter: Highlighter :=
    Highlighter("missing-env-file-keys",
                [TsConfigFileChanged, TsConfigFileOpened, EnvFileOpened, ExtensionLoaded],
                HighlightInvalidVariables)

  /** Every event but an env-file change triggers the check. */
  lemma TriggerKinds(e: EventKind)
    ensures IsTriggeredByEvent(MissingEnvFileKeysHighlighter, e) <==> e != EnvFileChanged
  {
  }

  /** This highlighter's diagnostics are for the loader document they are given. */
  lemma TsFileDiagnosticsTarget(doc: Document, text: string, envs: seq<EnvInput>)
    ensures TsFileDiagnostics(doc, text, envs).Success? ==> TsFileDiagnostics(doc, text, envs).value.target == doc.uri
  {
  }

  /** `highlight(event)`: one highlight per related pair, each for the pair's loader
      document, or the first failure. */
  method HighlightFiles(c: EventCache, event: ConfiguruEvent, ws: Workspace, relatedPaths: seq<RelatedPaths>)
    returns (r: Result<seq<Highlight>>)
    modifies c.files, c.fileTexts, c.fileUris, c.fileParsed
    ensures old(CacheAgrees(c, event, ws)) ==> CacheAgrees(c, event, ws) && r == LoaderHighlights(event, ws, relatedPaths, TsFileDiagnostics)
    ensures old(CacheAgrees(c, event, ws)) && r.Success? ==>
              && |r.value| == |relatedPaths|
              && forall i :: 0 <= i < |relatedPaths| ==>
                   GetFiles(event, ws, relatedPaths[i].loader).Success? &&
                   r.value[i].target == GetFiles(event, ws, relatedPaths[i].loader).value.uri
  {
    r := HighlightLoaderFiles(c, event, ws, relatedPaths, TsFileDiagnostics);
    if old(CacheAgrees(c, event, ws)) && r.Success? {
      forall d, t, e ensures TsFileDiagnostics(d, t, e).Success? ==> TsFileDiagnostics(d, t, e).value.target == d.uri {
        TsFileDiagnosticsTarget(d, t, e);
      }
      LoaderHighlightsPerPair(event, ws, relatedPaths, TsFileDiagnostics);
    }
  }
}
