/** The keys-without-description highlighter: a root key of an env file whose line above
    is neither a `//` comment nor the end of a block comment gets a warning. */
module KeysWithoutDescription {
  import opened Wrappers
  import opened JsString
  import opened Editor
  import opened Context
  import opened Event
  import opened Helpers
  import opened TextPatterns
  import opened HighlighterPort

  /** The text of `s` up to the first `sep`, or all of it. */
  function UpToSeparator(s: string, sep: char): (r: string)
    ensures |r| <= |s| && r == s[..|r|] && sep !in r
    ensures |r| < |s| ==> s[|r|] == sep
  {
    if s == [] || s[0] == sep then [] else [s[0]] + UpToSeparator(s[1..], sep)
  }

  /** `s.split(sep, 3)[1]`: the text between the first and the second `sep` (up to the
      end when there is no second); `undefined` when `sep` does not occur. */
  function SecondField(s: string, sep: char): (r: Option<string>)
    ensures r.None? <==> sep !in s
  {
    if s == [] then None
    else if s[0] == sep then Some(UpToSeparator(s[1..], sep))
    else
      assert sep in s[1..] <==> sep in s by {
        assert s == [s[0]] + s[1..];
      }
      SecondField(s[1..], sep)
  }

  /** The name of a `"name"...":` match is the text between its first two quotes. */
  lemma SecondFieldOfQuoted(name: string, rest: string)
    requires '"' !in name
    ensures SecondField(['"'] + name + ['"'] + rest, '"') == Some(name)
  {
    assert (['"'] + name + ['"'] + rest)[1..] == name + (['"'] + rest);
    UpToSeparatorOf(name, '"', ['"'] + rest);
  }

  lemma {:induction false} UpToSeparatorOf(name: string, sep: char, rest: string)
    requires sep !in name && rest != [] && rest[0] == sep
    ensures UpToSeparator(name + rest, sep) == name
    decreases |name|
  {
    if name == [] {
      assert name + rest == rest;
    } else {
      assert (name + rest)[1..] == name[1..] + rest;
      UpToSeparatorOf(name[1..], sep, rest);
    }
  }

  /** The line of the match's first occurrence in the env text, read as a position of the
      env document. */
  function KeyLine(doc: Document, envText: string, key: string): (r: nat)
    ensures r < |Lines(doc.text)|
  {
    LineOf(doc.text, PositionAt(doc.text, IndexOf(envText, key)))
  }

  /** When the env text is the document's text and the match occurs in it, the key's line
      is the line holding the match's first occurrence. */
  lemma KeyLineHoldsKey(doc: Document, envText: string, key: string)
    requires envText == doc.text && exists j :: OccursAt(envText, key, j)
    ensures var o := IndexOf(envText, key);
            var k := KeyLine(doc, envText, key);
            && OccursAt(envText, key, o) && (forall j :: 0 <= j < o ==> !OccursAt(envText, key, j))
            && LineStart(doc.text, k) <= o <= LineStart(doc.text, k) + |Lines(doc.text)[k]|
  {
    var o := IndexOf(envText, key);
    assert PositionAt(doc.text, o) == o;
    LineOfWithin(doc.text, o);
  }

  // The key is not on the first line, and the trimmed line above it neither starts with
  // `//` nor ends with `*/`.
  predicate LacksDescription(doc: Document, envText: string, key: string) {
    var keyLine := KeyLine(doc, envText, key);
    keyLine > 0 &&
    var lineAboveKey := Trim(LineText(doc.text, keyLine - 1));
    !StartsWith(lineAboveKey, "//") && !EndsWith(lineAboveKey, "*/")
  }

  /** The range of `"keyName"` at its first occurrence in the env text, as a range of the
      env document. */
  function KeyRange(doc: Document, envText: string, keyName: string): Range {
    var startPos := IndexOf(envText, ['"'] + keyName + ['"']);
    OffsetRange(doc.text, startPos, startPos + |keyName| + 2)
  }

  const DescriptionTail := "' does not have a description. Add a comment describing its purpose."

  function DescriptionMessage(keyName: string): string {
    "Key '" + keyName + DescriptionTail
  }

  function DescriptionDiagnostic(doc: Document, envText: string, keyName: string): Diagnostic {
    var keyRange := KeyRange(doc, envText, keyName);
    Diagnostic(
      keyRange, DescriptionMessage(keyName), Warning, "key-without-description", doc.uri, "configuru",
      [RelatedInformation(Location(doc.uri, keyRange), "Config key without description.")])
  }

  /** The match is reported: it names a root key that lacks a description. */
  predicate IsReported(doc: Document, envText: string, rootKeys: seq<string>, key: string) {
    var keyName := SecondField(key, '"');
    keyName.Some? && keyName.value in rootKeys && LacksDescription(doc, envText, key)
  }

  /** The diagnostics of the loop over the matches. */
  function MatchDiagnostics(doc: Document, envText: string, rootKeys: seq<string>, keys: seq<string>): seq<Diagnostic> {
    if keys == [] then []
    else
      var key := keys[|keys| - 1];
      MatchDiagnostics(doc, envText, rootKeys, keys[..|keys| - 1]) +
        (if IsReported(doc, envText, rootKeys, key) then [DescriptionDiagnostic(doc, envText, SecondField(key, '"').value)] else [])
  }

  /** What `getEnvFileDiagnostics(envFile, envText, envParsed)` returns. */
  function EnvFileDiagnostics(doc: Document, envText: string, envParsed: EnvObject): Highlight {
    Highlight(doc.uri, MatchDiagnostics(doc, envText, envParsed.keys, MatchAll(QuotedKeyColon, envText)))
  }

  lemma MatchDiagnosticsStep(doc: Document, envText: string, rootKeys: seq<string>, keys: seq<string>, i: nat)
    requires i < |keys|
    ensures MatchDiagnostics(doc, envText, rootKeys, keys[..i + 1]) ==
              MatchDiagnostics(doc, envText, rootKeys, keys[..i]) +
                (if IsReported(doc, envText, rootKeys, keys[i]) then [DescriptionDiagnostic(doc, envText, SecondField(keys[i], '"').value)] else [])
  {
    assert keys[..i + 1][..i] == keys[..i];
  }

  /** The loop's `continue` test is the negation of `IsReported`. */
  lemma SkipIff(doc: Document, envText: string, rootKeys: seq<string>, key: string)
    ensures var keyName := SecondField(key, '"');
            var keyLine := KeyLine(doc, envText, key);
            var lineAboveKey := if keyLine > 0 then Trim(LineText(doc.text, keyLine - 1)) else "";
            (|| keyName.None? || keyName.value !in rootKeys || !(keyLine > 0)
             || StartsWith(lineAboveKey, "//") || EndsWith(lineAboveKey, "*/")) <==>
              !IsReported(doc, envText, rootKeys, key)
  {
  }

  /** One turn of the loop over the matches: the warning for `key`, or none when the
      loop continues. */
  method CheckKey(envFile: Document, envText: string, rootKeys: seq<string>, key: string) returns (d: Option<Diagnostic>)
    ensures d == if IsReported(envFile, envText, rootKeys, key)
                 then Some(DescriptionDiagnostic(envFile, envText, SecondField(key, '"').value)) else None
  {
    var keyName := SecondField(key, '"');
    var keyLine := KeyLine(envFile, envText, key);
    var lineAbove := keyLine > 0;
    var lineAboveKey := if lineAbove then Trim(LineText(envFile.text, keyLine - 1)) else "";
    SkipIff(envFile, envText, rootKeys, key);
    if keyName.None? || keyName.value !in rootKeys || !lineAbove ||
       StartsWith(lineAboveKey, "//") || EndsWith(lineAboveKey, "*/") {
      return None;
    }
    d := Some(DescriptionDiagnostic(envFile, envText, keyName.value));
  }

  /** `getEnvFileDiagnostics(envFile, envText, envParsed)`. */
  method GetEnvFileDiagnostics(envFile: Document, envText: string, envParsed: EnvObject) returns (r: Highlight)
    ensures r == EnvFileDiagnostics(envFile, envText, envParsed)
  {
    r := DiagnoseMatches(envFile, envText, envParsed.keys);
  }

  method DiagnoseMatches(envFile: Document, envText: string, rootKeys: seq<string>) returns (r: Highlight)
    ensures r == Highlight(envFile.uri, MatchDiagnostics(envFile, envText, rootKeys, MatchAll(QuotedKeyColon, envText)))
  {
    var matchedConfigKeys := MatchAll(QuotedKeyColon, envText);
    var diagnostics: seq<Diagnostic> := [];
    var i := 0;
    while i < |matchedConfigKeys|
      invariant 0 <= i <= |matchedConfigKeys|
      invariant diagnostics == MatchDiagnostics(envFile, envText, rootKeys, matchedConfigKeys[..i])
    {
      MatchDiagnosticsStep(envFile, envText, rootKeys, matchedConfigKeys, i);
      var warning := CheckKey(envFile, envText, rootKeys, matchedConfigKeys[i]);
      if warning.Some? {
        diagnostics := diagnostics + [warning.value];
      }
      i := i + 1;
    }
    assert matchedConfigKeys[..i] == matchedConfigKeys;
    r := Highlight(envFile.uri, diagnostics);
  }

  lemma MessageDeterminesKey(k1: string, k2: string)
    requires DescriptionMessage(k1) == DescriptionMessage(k2)
    ensures k1 == k2
  {
    ConcatCancel("Key '", k1, k2, DescriptionTail);
  }

  lemma {:induction false} MatchDiagnosticsIff(doc: Document, envText: string, rootKeys: seq<string>, keys: seq<string>, keyName: string)
    ensures DescriptionDiagnostic(doc, envText, keyName) in MatchDiagnostics(doc, envText, rootKeys, keys) <==>
              exists key :: key in keys && SecondField(key, '"') == Some(keyName) && IsReported(doc, envText, rootKeys, key)
    decreases |keys|
  {
    if keys != [] {
      var init := keys[..|keys| - 1];
      var last := keys[|keys| - 1];
      MatchDiagnosticsIff(doc, envText, rootKeys, init, keyName);
      assert keys == init + [last];
      if IsReported(doc, envText, rootKeys, last) &&
         DescriptionMessage(keyName) == DescriptionMessage(SecondField(last, '"').value) {
        MessageDeterminesKey(keyName, SecondField(last, '"').value);
      }
    }
  }

  /** A key is reported iff some `".*":` match of the env text names it, it is one of the
      parsed root keys, it is not on the first line, and the trimmed line above the
      match's first occurrence is neither a `//` comment nor the end of a block comment. */
  lemma ReportedIff(doc: Document, envText: string, envParsed: EnvObject, keyName: string)
    ensures DescriptionDiagnostic(doc, envText, keyName) in EnvFileDiagnostics(doc, envText, envParsed).diagnostics <==>
              && keyName in envParsed.keys
              && exists key :: (key in MatchAll(QuotedKeyColon, envText) && SecondField(key, '"') == Some(keyName) &&
                                LacksDescription(doc, envText, key))
  {
    MatchDiagnosticsIff(doc, envText, envParsed.keys, MatchAll(QuotedKeyColon, envText), keyName);
  }

  lemma {:induction false} MatchDiagnosticsShape(doc: Document, envText: string, rootKeys: seq<string>, keys: seq<string>)
    ensures |MatchDiagnostics(doc, envText, rootKeys, keys)| <= |keys|
    ensures forall d :: d in MatchDiagnostics(doc, envText, rootKeys, keys) ==>
              exists keyName :: keyName in rootKeys && d == DescriptionDiagnostic(doc, envText, keyName)
    decreases |keys|
  {
    if keys != [] {
      var init := keys[..|keys| - 1];
      MatchDiagnosticsShape(doc, envText, rootKeys, init);
    }
  }

  /** Every diagnostic is a warning with code `key-without-description` for a root key,
      targets the env file and has one related entry, the key's own range; there are at
      most as many as matches. */
  lemma DiagnosticsShape(doc: Document, envText: string, envParsed: EnvObject)
    ensures var h := EnvFileDiagnostics(doc, envText, envParsed);
            && h.target == doc.uri
            && |h.diagnostics| <= |MatchAll(QuotedKeyColon, envText)|
            && forall d :: d in h.diagnostics ==>
                 && d.severity == Warning && d.code == "key-without-description" && d.source == "configuru"
                 && d.codeTarget == doc.uri
                 && d.relatedInformation == [RelatedInformation(Location(doc.uri, d.range), "Config key without description.")]
                 && exists keyName :: (keyName in envParsed.keys && d.range == KeyRange(doc, envText, keyName) &&
                                       d.message == DescriptionMessage(keyName))
  {
    MatchDiagnosticsShape(doc, envText, envParsed.keys, MatchAll(QuotedKeyColon, envText));
  }

  // ---------------------------------------------------------------------------------
  // The highlighter

  const KeysWithoutDescriptionHighlighter: Highlighter :=
    Highlighter("keys-without-description",
                [EnvFileChanged, EnvFileOpened, ExtensionLoaded],
                HighlightSecretsMissingDescription)

  /** Only env-file events and the extension's start trigger the check. */
  lemma TriggerKinds(e: EventKind)
    ensures IsTriggeredByEvent(KeysWithoutDescriptionHighlighter, e) <==>
              e == EnvFileChanged || e == EnvFileOpened || e == ExtensionLoaded
  {
  }

  /** One related env file as the `forEach` reads it: `envFiles[i]`, `envsText[i]` and
      `envsParsed[i]`. */
  datatype RelatedEnvFile = RelatedEnvFile(file: Document, text: string, parsed: Option<EnvObject>)

  function EnvFiles(files: seq<Document>, texts: seq<string>, parsed: seq<Option<EnvObject>>): (r: seq<RelatedEnvFile>)
    requires |files| == |texts| == |parsed|
    ensures |r| == |files| && forall i :: 0 <= i < |r| ==> r[i] == RelatedEnvFile(files[i], texts[i], parsed[i])
  {
    seq(|files|, i requires 0 <= i < |files| => RelatedEnvFile(files[i], texts[i], parsed[i]))
  }

  /** The `forEach` over the env files with `diagnose` as `getEnvFileDiagnostics`: each
      one's diagnostics, or the error thrown at an empty text or a missing parse result. */
  function EnvHighlights(envs: seq<RelatedEnvFile>, diagnose: (Document, string, EnvObject) -> Highlight): Result<seq<Highlight>> {
    if envs == [] then Success([])
    else
      var prev :- EnvHighlights(envs[..|envs| - 1], diagnose);
      var env := envs[|envs| - 1];
      if env.text == "" || env.parsed.None? then Failure("Env file text or parsed not found")
      else Success(prev + [diagnose(env.file, env.text, env.parsed.value)])
  }

  /** The `forEach` fails iff some env file has an empty text or no parse result;
      otherwise it gives, in order, each env file's diagnostics. */
  lemma {:induction false} EnvHighlightsSpec(envs: seq<RelatedEnvFile>, diagnose: (Document, string, EnvObject) -> Highlight)
    ensures EnvHighlights(envs, diagnose).Success? <==> forall i :: 0 <= i < |envs| ==> envs[i].text != "" && envs[i].parsed.Some?
    ensures EnvHighlights(envs, diagnose).Success? ==>
              && |EnvHighlights(envs, diagnose).value| == |envs|
              && forall i :: 0 <= i < |envs| ==>
                   EnvHighlights(envs, diagnose).value[i] == diagnose(envs[i].file, envs[i].text, envs[i].parsed.value)
    decreases |envs|
  {
    if envs != [] {
      var init := envs[..|envs| - 1];
      EnvHighlightsSpec(init, diagnose);
      assert forall i :: 0 <= i < |init| ==> init[i] == envs[i];
    }
  }

  /** What `highlight(event)` returns: the three lookups over the related env files
      (each one failing the whole), then the `forEach`. */
  function Highlights(event: ConfiguruEvent, ws: Workspace, relatedPaths: seq<RelatedPaths>): Result<seq<Highlight>> {
    var relatedEnvs := RelatedEnvs(relatedPaths);
    var envFiles :- FetchAll(relatedEnvs, FilesFn(event, ws));
    var envsText :- FetchAll(relatedEnvs, TextsFn(event, ws));
    var envsParsed :- FetchAll(relatedEnvs, ParsedFn(event, ws));
    EnvHighlights(EnvFiles(envFiles, envsText, envsParsed), EnvFileDiagnostics)
  }

  /** On success there is one highlight per related env file, in order, and the i-th
      targets that env file's document. */
  lemma EnvHighlightsPerEnv(event: ConfiguruEvent, ws: Workspace, relatedPaths: seq<RelatedPaths>)
    requires Highlights(event, ws, relatedPaths).Success?
    ensures var envs := RelatedEnvs(relatedPaths);
            var hs := Highlights(event, ws, relatedPaths).value;
            && |hs| == |envs|
            && forall i :: 0 <= i < |hs| ==>
                 GetFiles(event, ws, envs[i]).Success? && hs[i].target == GetFiles(event, ws, envs[i]).value.uri
  {
    var envs := RelatedEnvs(relatedPaths);
    var fileLookups := seq(|envs|, i requires 0 <= i < |envs| => FilesFn(event, ws)(envs[i]));
    var envFiles := FetchAll(envs, FilesFn(event, ws)).value;
    var envsText := FetchAll(envs, TextsFn(event, ws)).value;
    var envsParsed := FetchAll(envs, ParsedFn(event, ws)).value;
    var related := EnvFiles(envFiles, envsText, envsParsed);
    EnvHighlightsSpec(related, EnvFileDiagnostics);
    var hs := Highlights(event, ws, relatedPaths).value;
    forall i | 0 <= i < |hs|
      ensures GetFiles(event, ws, envs[i]).Success? && hs[i].target == GetFiles(event, ws, envs[i]).value.uri
    {
      assert fileLookups[i] == GetFiles(event, ws, envs[i]);
      DiagnosticsShape(related[i].file, related[i].text, related[i].parsed.value);
    }
  }

  /** The `forEach`. */
  method HighlightEach(envs: seq<RelatedEnvFile>) returns (r: Result<seq<Highlight>>)
    ensures r == EnvHighlights(envs, EnvFileDiagnostics)
  {
    var allFilesDiagnostics: seq<Highlight> := [];
    var i := 0;
    while i < |envs|
      invariant 0 <= i <= |envs|
      invariant EnvHighlights(envs[..i], EnvFileDiagnostics) == Success(allFilesDiagnostics)
    {
      EnvHighlightsStep(envs, EnvFileDiagnostics, i, allFilesDiagnostics);
      var env := envs[i];
      if env.text == "" || env.parsed.None? {
        return Failure("Env file text or parsed not found");
      }
      var fileDiagnostics := GetEnvFileDiagnostics(env.file, env.text, env.parsed.value);
      allFilesDiagnostics := allFilesDiagnostics + [fileDiagnostics];
      i := i + 1;
    }
    assert envs[..i] == envs;
    r := Success(allFilesDiagnostics);
  }

  /** One turn of the `forEach`: an empty text or a missing parse result fails the whole
      call, and otherwise the env file's diagnostics are appended. */
  lemma EnvHighlightsStep(envs: seq<RelatedEnvFile>, diagnose: (Document, string, EnvObject) -> Highlight, i: nat, prev: seq<Highlight>)
    requires i < |envs| && EnvHighlights(envs[..i], diagnose) == Success(prev)
    ensures envs[i].text == "" || envs[i].parsed.None? ==>
              EnvHighlights(envs, diagnose) == Failure("Env file text or parsed not found")
    ensures envs[i].text != "" && envs[i].parsed.Some? ==>
              EnvHighlights(envs[..i + 1], diagnose) == Success(prev + [diagnose(envs[i].file, envs[i].text, envs[i].parsed.value)])
  {
    assert envs[..i + 1][..i] == envs[..i];
    if envs[i].text == "" || envs[i].parsed.None? {
      EnvFailurePersists(envs, diagnose, i + 1);
    }
  }

  /** Once the `forEach` has thrown, the whole call fails with that error. */
  lemma {:induction false} EnvFailurePersists(envs: seq<RelatedEnvFile>, diagnose: (Document, string, EnvObject) -> Highlight, n: nat)
    requires n <= |envs| && EnvHighlights(envs[..n], diagnose).Failure?
    ensures EnvHighlights(envs, diagnose) == EnvHighlights(envs[..n], diagnose)
    decreases |envs| - n
  {
    if n < |envs| {
      assert envs[..n + 1][..n] == envs[..n];
      EnvFailurePersists(envs, diagnose, n + 1);
    } else {
      assert envs[..n] == envs;
    }
  }

  /** `highlight(event)`: when the caches agree with the lookups, the result is
      `Highlights` and they still agree. */
  method HighlightFiles(c: EventCache, event: ConfiguruEvent, ws: Workspace, relatedPaths: seq<RelatedPaths>)
    returns (r: Result<seq<Highlight>>)
    modifies c.files, c.fileTexts, c.fileParsed
    ensures old(CacheAgrees(c, event, ws)) ==> CacheAgrees(c, event, ws) && r == Highlights(event, ws, relatedPaths)
  {
    ghost var agreed := CacheAgrees(c, event, ws);
    var relatedEnvs := RelatedEnvs(relatedPaths);
    ghost var e1 := c.files.entries;
    var envFiles, _ := ContextDataloader(c.files, relatedEnvs, FilesFn(event, ws), DocumentTruthy);
    if agreed {
      DataloaderTransparent(e1, relatedEnvs, FilesFn(event, ws), DocumentTruthy);
    }
    if envFiles.Failure? {
      return Failure(envFiles.error);
    }
    ghost var e2 := c.fileTexts.entries;
    var envsText, _ := ContextDataloader(c.fileTexts, relatedEnvs, TextsFn(event, ws), TextTruthy);
    if agreed {
      DataloaderTransparent(e2, relatedEnvs, TextsFn(event, ws), TextTruthy);
    }
    if envsText.Failure? {
      return Failure(envsText.error);
    }
    ghost var e3 := c.fileParsed.entries;
    var envsParsed, _ := ContextDataloader(c.fileParsed, relatedEnvs, ParsedFn(event, ws), ParsedTruthy);
    if agreed {
      DataloaderTransparent(e3, relatedEnvs, ParsedFn(event, ws), ParsedTruthy);
    }
    if envsParsed.Failure? {
      return Failure(envsParsed.error);
    }
    r := HighlightEach(EnvFiles(envFiles.value, envsText.value, envsParsed.value));
  }
}
