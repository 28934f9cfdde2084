# Configuru extension core in Dafny

This project models the core of the Configuru editor extension. The extension reads a
project's TypeScript loader file (`config.ts`) and its `.env.jsonc` environment files.
It reports three kinds of problems in them and offers completions for environment keys.
The model covers:

- the loader-key extractor. It walks the TypeScript syntax tree with an explicit stack,
  collects the identifiers bound to `createLoader(...)`, and keeps the first key of each
  name found on a call rooted at such an identifier (`ConfigTsParser`);
- the per-event caches ("dataloaders") and the routing of file lookups to the event's own
  document or to the workspace (`Helpers`);
- the classification of a changed document into an event, and the `contextMethod` memo
  helper (`Event`);
- the trigger gate of the highlighters and the per-pair loop the loader highlighters
  share (`HighlighterPort`);
- the three highlighters:
  - missing keys (`MissingEnvFileKeys`);
  - hidden keys with an unsafe default (`UnsafeDefaultVariables`);
  - env keys without a description comment (`KeysWithoutDescription`);
- the completion provider: the bounded backward line scan and the candidate list
  (`EnvVariablesSuggestion`);
- the configuration state with its defaults (`Context`).

The supporting modules are these:

- `Wrappers` holds `Option` and `Result`. A `Failure` is the error a call throws, or the
  error its promise rejects with.
- `JsString` gives the JavaScript string operations the code uses over `seq<char>`.
- `Editor` gives the editor types as plain data.
- `TextPatterns` holds hand-written scanners for the fixed regular expressions, with the
  global-match (`/g`) search over them:
  - `//.*\n`;
  - `\((\s)*['"].*["'](\s)*\)` and its `hidden` variant;
  - `".*":`;
  - `\([\n\r\s]*['|"]`.

The stateful parts of the source are imperative in the model:

- the stack walk, the two passes of the extractor and the `for … break` type scan are
  `while` loops with invariants;
- each event cache is a `Cache` class holding a `map`, filled by `ContextDataloader`;
- the context is a `ConfiguruContext` class whose `Load` replaces its configuration;
- the diagnostic loops and the look-back scan are methods.

Each method is proved equal to a specification function, and lemmas then state what the
source promises about that function. The methods that read through the event caches are
proved equal to it only when the caches agree with the lookups beforehand (`CacheAgrees`):
`HighlighterPort.FetchLoaderPair`, `HighlightPair`, `HighlightEach` and
`HighlightLoaderFiles`, the three highlighters' `HighlightFiles`, and
`EnvVariablesSuggestion.ProvideCompletionItems`. `Helpers.ContextDataloader` itself is
proved against the cache as it was, whatever it holds.

One consequence of the code is proved rather than assumed. The missing-keys check finds a
key written in either quote style, but looks up its range with single quotes only. A
double-quoted key whose single-quoted form occurs nowhere in the loader document therefore
gets the range at its start (`HighlighterPort.QuotedKeyRangeAbsent`); where that form does
occur elsewhere, the range falls on that other occurrence
(`HighlighterPort.QuotedKeyRangeFirst`). That error is hidden when the first comment of
the file starts there and is long enough (`MissingEnvFileKeys.AbsentKeyHiddenByLeadingComment`).

## Model

| member | source | states |
|---|---|---|
| ConfigTsParser.TraverseTree | src/components/config-ts-parser.ts:26-42 | the stack walk visits the nodes in exactly the order `Preorder(root)`: the node, then its children's trees, the last child first |
| ConfigTsParser.PushChildren | src/components/config-ts-parser.ts:38-40 | pushing the children appends them to the stack in `forEachChild` order |
| ConfigTsParser.PathOrderSound | src/components/config-ts-parser.ts:26-42 | position `i` of the visit order is the node at the `i`-th path of the tree |
| ConfigTsParser.PathOrderComplete | src/components/config-ts-parser.ts:26-42 | every node of the tree (every valid path) occurs in the visit order |
| ConfigTsParser.PathOrderDistinct | src/components/config-ts-parser.ts:26-42 | the root is visited first, no node is visited twice, and every node is visited before every node below it |
| ConfigTsParser.BindingOf | src/components/config-ts-parser.ts:16-24 | a node binds `x` iff `x` is non-empty and the node is a declaration `x = createLoader(...)` with an initializer, or an `=` assignment of such a call to the identifier `x`; the callee must be the bare identifier `createLoader` |
| ConfigTsParser.FindLoaderVariables | src/components/config-ts-parser.ts:137-156 | the first pass returns exactly the loader set `LoaderNames(root)`, the names bound by the nodes in visit order |
| ConfigTsParser.LoaderNamesIff | src/components/config-ts-parser.ts:114-156 | a name is in the loader set iff some node anywhere in the tree binds it |
| ConfigTsParser.LoaderNamesOfOther | src/components/config-ts-parser.ts:137-156 | the loader set of a list of statements is the union of their loader sets |
| ConfigTsParser.LoaderNamesReorder | src/components/config-ts-parser.ts:137-156 | the loader set does not depend on statement order, so a binding after a call counts for it |
| ConfigTsParser.IsLoaderIdentifierIff | src/components/config-ts-parser.ts:158-169 | an expression is a loader identifier iff stripping its property accesses ends at an identifier of the set; a call in the chain makes it false |
| ConfigTsParser.LoaderType | src/components/config-ts-parser.ts:65-78 | the type is a vocabulary name of the chain with no vocabulary name closer to the loader root; it is absent iff the chain has no vocabulary name |
| ConfigTsParser.GetLoaderTypeAndFlags | src/components/config-ts-parser.ts:44-84 | the reversed `for … break` scan gives the type `LoaderType` of the collected names; `isHidden` and `isNullable` hold iff `hidden` and `nullable` occur among them |
| ConfigTsParser.LoaderTypeUnique | src/components/config-ts-parser.ts:65-78 | a vocabulary name with no vocabulary name after it in collection order is the type |
| ConfigTsParser.ExtractKeyFromCallExpression | src/components/config-ts-parser.ts:86-112 | a key exists iff the call has a first argument that is a string literal; the key is that literal's text and span, with the given type and flags |
| ConfigTsParser.TryExtractKeyIff | src/components/config-ts-parser.ts:171-252 | a call yields a key iff its first argument is a string literal and its callee is a property chain rooted at a loader identifier that names a type (simple form), or its callee is a call whose callee is such a chain (chained form); the key is that literal's text and span with the type and flags of that chain |
| ConfigTsParser.TryExtractKeyShape | src/components/config-ts-parser.ts:171-236 | a found key is the first argument's literal, and the call is rooted at a loader identifier through a property chain that names its type and flags: the callee (simple form) or the inner call's callee (chained form) |
| ConfigTsParser.ExtractConfiguruKeys | src/components/config-ts-parser.ts:254-275 | the second pass returns `Dedup(Candidates(Preorder(root), LoaderNames(root)))`, the keys of the call nodes in visit order, first one of each name kept |
| ConfigTsParser.VisitNode | src/components/config-ts-parser.ts:265-273 | the callback appends a call's key exactly when it yields one whose name is not yet kept, and afterwards `seenKeys` is again the set of kept names |
| ConfigTsParser.ExtractStep | src/components/config-ts-parser.ts:262-273 | keeping keys node by node, first name wins, is deduplicating the candidates of the nodes visited so far |
| ConfigTsParser.DedupSpec | src/components/config-ts-parser.ts:262-271 | deduplication keeps one entry per key name, and each entry is taken from the input |
| ConfigTsParser.DedupKeepsFirst | src/components/config-ts-parser.ts:262-271 | the entry kept for a name is its first occurrence |
| ConfigTsParser.ExtractedKeysDistinct | src/components/config-ts-parser.ts:262-274 | the extracted keys have pairwise distinct names |
| ConfigTsParser.ExtractedKeySound | src/components/config-ts-parser.ts:265-273 | every extracted key is what `tryExtractKey` gives on some call node of the tree, read with the file's loader set |
| ConfigTsParser.ExtractedKeyComplete | src/components/config-ts-parser.ts:265-273 | every call node of the tree that yields a key gives an extracted key of that name |
| ConfigTsParser.ExtractedKeyOfLoaderCall | src/components/config-ts-parser.ts:171-273 | every call of the tree with a string-literal first argument on a typed loader chain, simple or chained, has its literal among the extracted key names |
| ConfigTsParser.ExtractedKeyFirstWins | src/components/config-ts-parser.ts:265-273 | of several calls with the same key name, the one first in visit order is reported |
| ConfigTsParser.SimpleCallExamples | src/components/config-ts-parser.ts:171-197 | `loader.string.nullable.hidden('DB_URL')` is a hidden nullable string key; `loader.string.number('PORT')` is a string key; a call on a non-loader yields nothing |
| ConfigTsParser.ChainedCallExample | src/components/config-ts-parser.ts:199-236 | `loader.custom(validate)('FOO').nullable()` yields a custom key `FOO` that is not nullable; the outer call yields nothing |
| Context.ConfigFrom | src/components/context.ts:47-74 | `load` builds paths (or `[]` when unset), the fixed default config path, and each feature flag on unless its setting is `false` |
| Context.ConfigFromNoSettings | src/components/context.ts:36-74 | loading with nothing set gives the initial configuration |
| Context.ContextKeyName | src/components/context.ts:11-19 | no project-context field is named `projects` or `config` |
| Context.ConfiguruContext.constructor | src/components/context.ts:36-45 | the context starts with no projects and the initial configuration |
| Context.ConfiguruContext.Load | src/components/context.ts:47-74 | `load` replaces the stored configuration by `ConfigFrom(settings)`, returns it, and leaves the projects unchanged |
| Context.ConfiguruContext.Get | src/components/context.ts:76-78 | `get` returns the stored configuration without reloading |
| Context.LoadTwice | src/components/context.ts:47-78 | after two loads only the second one's settings are in force, with no merge |
| Editor.OffsetRange | src/components/highlighters/keys-without-description.ts:34-39 | a range built from two offsets is clamped to the document, starts no later than it ends, and is exact for in-range offsets |
| Editor.OffsetRangeEnds | src/components/highlighters/keys-without-description.ts:34-39 | the range's two ends are exactly the two clamped positions, the smaller one first |
| Event.CreateConfiguruFileChangedEvent | src/components/event.ts:55-86 | classification fails iff there is no workspace folder; an event carries the first folder's name, the folders, `file.fileName` and the document |
| Event.ClassificationIff | src/components/event.ts:70-86 | a `/config.ts` file name gives a ts-config change; failing that, a `.env.jsonc` URI path gives an env change; anything else gives no event; no `*Opened` kind is ever produced |
| Event.MemoAsWrittenNeverHits | src/components/event.ts:115-133 | as written, the memo runs the method on every call, and a project that had no context keeps none |
| Event.MemoIntendedSpec | src/components/event.ts:107-134 | the intended memo creates the project's context when missing and touches no other project; it runs the method iff the field is unset; afterwards the field holds the value returned |
| Event.MemoSecondCall | src/components/event.ts:115-133 | with the intended memo a second call returns the first value without running the method; as written it runs it again |
| Event.ContextMethodAsWritten | src/components/event.ts:114-133 | the method on the context object has exactly the outcome `MemoAsWritten` and leaves the configuration unchanged |
| Event.ContextMethod | src/components/event.ts:114-133 | the method on the context object has exactly the outcome `MemoIntended` and leaves the configuration unchanged |
| Helpers.GetFilePath | src/components/helpers.ts:12-24 | the path fails with `No workspace folder found` iff there is no folder; otherwise it is the fragments joined onto the first folder |
| Helpers.GetFilePathSingle | src/components/helpers.ts:13-15 | a single path is treated as the one-fragment list |
| Helpers.Routing | src/components/helpers.ts:46-91 | lookups for the event's own file are answered from its document; any other name is resolved through the workspace path, and fails without a workspace folder |
| Helpers.AllOf | src/components/helpers.ts:120-132 | the combination succeeds iff every result does, with the values in order; otherwise it fails with the first failure |
| Helpers.ContextDataloader | src/components/helpers.ts:101-133 | the call answers `AllOf(Answers)` on the cache as it was before, fetches exactly the names that miss, and leaves the cache as `Stored` |
| Helpers.LookUp | src/components/helpers.ts:120-131 | the synchronous part looks each name up once, in order, and marks as missed exactly the names without a truthy hit |
| Helpers.DataloaderAnswers | src/components/helpers.ts:115-132 | a successful call returns exactly one value per requested name, in the order of `fileNames`, each the truthy cached value or what `fn` returned |
| Helpers.MissesIff | src/components/helpers.ts:122-130 | `fn` runs exactly on the requested names without a truthy cached value, so a falsy value such as `''` is recomputed |
| Helpers.StoredSpec | src/components/helpers.ts:116-131 | afterwards a name holds the fetched value iff it was requested, missed and fetched successfully; every other entry is unchanged, so a hit is never overwritten |
| Helpers.DataloaderStoresAll | src/components/helpers.ts:126-130 | when all the fetches succeed, every requested name is cached afterwards |
| Helpers.DataloaderTransparent | src/components/helpers.ts:101-133 | a cache that agrees with `fn` is transparent: the call answers what `fn` alone does, and the cache still agrees afterwards |
| HighlighterPort.IsTriggeredByEvent | src/components/highlighters/highlighter.port.ts:20-25 | true iff the event kind occurs in the triggers, whatever the name and flag; false for empty triggers |
| HighlighterPort.TriggeredBySet | src/components/highlighters/highlighter.port.ts:24 | highlighters with the same set of triggers are triggered by the same events, whatever the order or repetition |
| HighlighterPort.RelatedEnvsIff | src/components/highlighters/keys-without-description.ts:75 | the env files named are exactly those of the related pairs |
| HighlighterPort.QuotedKeyRangeFirst | src/components/highlighters/missing-env-file-keys.ts:38-43 | when the quoted key occurs in the document, its range is `[i, i + len + 2)` with `i` its first occurrence |
| HighlighterPort.QuotedKeyRangeAbsent | src/components/highlighters/missing-env-file-keys.ts:38-43 | when the quoted key does not occur, its range is `[0, min(len + 1, |text|))`: `indexOf` gives -1, which `positionAt` clamps to 0 |
| HighlighterPort.PairInputs | src/components/highlighters/missing-env-file-keys.ts:96-101 | the four lookups of a pair give the loader's document and one env input per env file of the pair |
| HighlighterPort.FetchLoaderPair | src/components/highlighters/missing-env-file-keys.ts:96-101 | when the caches agree with the lookups beforehand, the four lookups answer `PairInputs` and the caches keep agreeing |
| HighlighterPort.PairHighlightInputs | src/components/highlighters/missing-env-file-keys.ts:96-112 | a pair that succeeds was diagnosed on its own loader document |
| HighlighterPort.LoaderHighlightsPerPair | src/components/highlighters/missing-env-file-keys.ts:91-116 | a successful highlight has one entry per related pair, in order, each targeting that pair's loader document |
| HighlighterPort.HighlightPair | src/components/highlighters/missing-env-file-keys.ts:95-113 | when the caches agree with the lookups beforehand, one pair through the caches answers `PairHighlight` and keeps the caches agreeing |
| HighlighterPort.HighlightEach | src/components/highlighters/missing-env-file-keys.ts:94-114 | when the caches agree with the lookups beforehand, the pairs through the caches give one outcome per pair, each `PairHighlight`, and keep the caches agreeing |
| HighlighterPort.HighlightLoaderFiles | src/components/highlighters/missing-env-file-keys.ts:91-116 | when the caches agree with the lookups beforehand, a loader highlighter's `highlight` answers `LoaderHighlights` and keeps the caches agreeing |
| JsString.IndexOf | src/components/highlighters/missing-env-file-keys.ts:21 | `indexOf` is -1 iff the text does not occur, and otherwise the first index at which it occurs |
| JsString.SliceIndex | src/components/suggestions/env-variables-suggestion.ts:66-68 | a `slice` index counts from the end when negative and is clamped to the string |
| JsString.SliceIndexClamped | src/components/suggestions/env-variables-suggestion.ts:66-68 | a `slice` index below `-len` reads as 0 and one above `len` reads as `len` |
| JsString.TrimStartShape | src/components/highlighters/keys-without-description.ts:23 | `trimStart` drops exactly the leading whitespace |
| JsString.TrimEndShape | src/components/highlighters/keys-without-description.ts:23 | `trimEnd` drops exactly the trailing whitespace |
| JsString.TrimAround | src/components/highlighters/missing-env-file-keys.ts:31 | trimming whitespace around a core that starts and ends with non-whitespace leaves the core |
| JsString.PositionAt | src/components/highlighters/keys-without-description.ts:20 | `positionAt` is exact inside the document, gives 0 below it and the document length above it |
| JsString.LineOf | src/components/highlighters/keys-without-description.ts:20 | the line of an offset is a line of the document |
| JsString.LinesCover | src/components/highlighters/keys-without-description.ts:20-24 | the lines with their line breaks make up the document: the last line ends at its end |
| JsString.LineOfWithin | src/components/highlighters/keys-without-description.ts:20 | an offset lies on its line: at or after the line's start (the lengths of the lines before it, each plus its break) and at most at the line's end |
| KeysWithoutDescription.SecondField | src/components/highlighters/keys-without-description.ts:18 | `split('"', 3)[1]` is absent iff the text has no `"` |
| KeysWithoutDescription.SecondFieldOfQuoted | src/components/highlighters/keys-without-description.ts:13-18 | the name of a `"name"…":` match is the text between its first two quotes |
| KeysWithoutDescription.KeyLine | src/components/highlighters/keys-without-description.ts:19-20 | the key's line is a line of the env document |
| KeysWithoutDescription.KeyLineHoldsKey | src/components/highlighters/keys-without-description.ts:19-20 | when the env text is the document's text and the match occurs in it, the key's line holds the match's first occurrence |
| KeysWithoutDescription.SkipIff | src/components/highlighters/keys-without-description.ts:26-33 | the loop's `continue` test holds iff the match is not reported |
| KeysWithoutDescription.CheckKey | src/components/highlighters/keys-without-description.ts:18-57 | one turn of the loop gives the warning for the match iff it is reported, and nothing otherwise |
| KeysWithoutDescription.DiagnoseMatches | src/components/highlighters/keys-without-description.ts:13-59 | the loop over the matches gives `MatchDiagnostics`, in match order |
| KeysWithoutDescription.GetEnvFileDiagnostics | src/components/highlighters/keys-without-description.ts:6-60 | the method returns `EnvFileDiagnostics` |
| KeysWithoutDescription.MessageDeterminesKey | src/components/highlighters/keys-without-description.ts:43 | the warning's message determines the key |
| KeysWithoutDescription.MatchDiagnosticsIff | src/components/highlighters/keys-without-description.ts:17-58 | a key's warning is produced iff some match names it and is reported |
| KeysWithoutDescription.ReportedIff | src/components/highlighters/keys-without-description.ts:6-60 | a key is reported iff some match names it, it is a parsed root key, it is not on the first line, and the trimmed line above is neither a `//` comment nor the end of a block comment |
| KeysWithoutDescription.MatchDiagnosticsShape | src/components/highlighters/keys-without-description.ts:17-58 | there are at most as many diagnostics as matches, each the warning of a root key |
| KeysWithoutDescription.DiagnosticsShape | src/components/highlighters/keys-without-description.ts:34-59 | each diagnostic is a Warning with code `key-without-description` and source `configuru` for a root key, at the range of `"K"`, with one related entry at that range; the highlight targets the env file |
| KeysWithoutDescription.TriggerKinds | src/components/highlighters/keys-without-description.ts:69-73 | only env-file changes, env-file openings and the extension's start trigger the check |
| KeysWithoutDescription.EnvHighlightsSpec | src/components/highlighters/keys-without-description.ts:86-96 | the `forEach` fails iff some env file has an empty text or no parse result; otherwise it gives one highlight per env, in order |
| KeysWithoutDescription.HighlightEach | src/components/highlighters/keys-without-description.ts:86-96 | the loop over the env files gives `EnvHighlights` |
| KeysWithoutDescription.EnvHighlightsStep | src/components/highlighters/keys-without-description.ts:86-96 | one turn of the `forEach`: an env file with an empty text or no parse result fails the whole call, and any other appends that file's diagnostics |
| KeysWithoutDescription.EnvFailurePersists | src/components/highlighters/keys-without-description.ts:91-93 | once the `forEach` has thrown, the whole call fails with that error |
| KeysWithoutDescription.EnvHighlightsPerEnv | src/components/highlighters/keys-without-description.ts:74-99 | a successful `highlight` gives one highlight per related env file, in order, the i-th targeting that env file's document |
| KeysWithoutDescription.HighlightFiles | src/components/highlighters/keys-without-description.ts:74-99 | when the caches agree with the lookups beforehand, `highlight` answers `Highlights` (the three lookups, then the `forEach`) and keeps the caches agreeing |
| MissingEnvFileKeys.DotEnvKeys | src/components/highlighters/missing-env-file-keys.ts:15 | collecting the env keys fails iff some env has no parse result |
| MissingEnvFileKeys.DotEnvKeysIff | src/components/highlighters/missing-env-file-keys.ts:15 | the key universe is the union of the keys of all env files |
| MissingEnvFileKeys.ConfigTsKeysSpec | src/components/highlighters/missing-env-file-keys.ts:29-32 | there is one candidate per quoted-argument match, in order, and the `i`-th is the text between the opening quote after `(` and the last closing quote on that line that whitespace and `)` follow |
| MissingEnvFileKeys.CommentRangesOfMatches | src/components/highlighters/missing-env-file-keys.ts:17-27 | the `i`-th comment's range covers the first occurrence of its text, which starts at or before the `i`-th comment match |
| MissingEnvFileKeys.EnvLocations | src/components/highlighters/missing-env-file-keys.ts:60-63 | there is one related entry per env file |
| MissingEnvFileKeys.GetTsFileDiagnostics | src/components/highlighters/missing-env-file-keys.ts:6-75 | the method returns `TsFileDiagnostics` |
| MissingEnvFileKeys.MissingKeysIff | src/components/highlighters/missing-env-file-keys.ts:33-35 | a candidate is missing iff no env key equals it |
| MissingEnvFileKeys.MissingKeysLength | src/components/highlighters/missing-env-file-keys.ts:33-35 | the filter keeps at most as many keys as it is given |
| MissingEnvFileKeys.MessageDeterminesKey | src/components/highlighters/missing-env-file-keys.ts:52 | the error's message determines the key |
| MissingEnvFileKeys.KeyDiagnosticsIff | src/components/highlighters/missing-env-file-keys.ts:37-73 | the loop reports a key iff it is missing and its range is not inside a comment |
| MissingEnvFileKeys.AbsentKeyHiddenByLeadingComment | src/components/highlighters/missing-env-file-keys.ts:37-48 | a missing key whose single-quoted form does not occur gets no error when the first comment range starts at 0 and is at least the key's length plus one long |
| MissingEnvFileKeys.ReportedIff | src/components/highlighters/missing-env-file-keys.ts:6-75 | a key is reported iff it is a quoted call argument of the loader text, no env file has it, and its range is not inside a comment's range |
| MissingEnvFileKeys.KeyDiagnosticsShape | src/components/highlighters/missing-env-file-keys.ts:37-73 | there are at most as many diagnostics as missing keys, each the error of one of them |
| MissingEnvFileKeys.DiagnosticsShape | src/components/highlighters/missing-env-file-keys.ts:38-74 | each diagnostic is an Error with code `missing-key` naming the key and every env path joined with `, `; it has 1 + (number of envs) related entries, the first at the key's range; the highlight targets the loader file |
| MissingEnvFileKeys.TriggerKinds | src/components/highlighters/missing-env-file-keys.ts:85-90 | every event kind triggers the check except an env-file change |
| MissingEnvFileKeys.TsFileDiagnosticsTarget | src/components/highlighters/missing-env-file-keys.ts:74 | the highlight targets the loader document it is given |
| MissingEnvFileKeys.HighlightFiles | src/components/highlighters/missing-env-file-keys.ts:91-116 | when the caches agree with the lookups beforehand, `highlight` answers `LoaderHighlights`, with one highlight per related pair targeting its loader document, or the first failure |
| TextPatterns.LineEnd | src/components/highlighters/missing-env-file-keys.ts:17 | a greedy `.*` stops at the first line terminator, or at the end |
| TextPatterns.SkipWhitespace | src/components/highlighters/missing-env-file-keys.ts:29 | a greedy `(\s)*` stops at the first non-whitespace character |
| TextPatterns.LineCommentAtIff | src/components/highlighters/missing-env-file-keys.ts:17 | a `//.*\n` match at `i` ends at `e` iff `//` starts at `i`, no line terminator lies between it and `e - 1`, and `\n` is at `e - 1` |
| TextPatterns.ClosingQuote | src/components/highlighters/missing-env-file-keys.ts:29 | backtracking picks the last quote below the line end that whitespace and `)` follow |
| TextPatterns.OpeningQuoteIff | src/components/highlighters/missing-env-file-keys.ts:29 | the opening quote is at `k` iff the prefix and `(` start at `i`, only whitespace lies between `(` and `k`, and a `'` or `"` is at `k` |
| TextPatterns.ArgumentEndIff | src/components/highlighters/missing-env-file-keys.ts:29 | the argument part after the quote at `k` fails iff no quote below the line end is followed by whitespace and `)`; otherwise it ends after the `)` that follows the last such quote |
| TextPatterns.QuotedArgumentAtIff | src/components/highlighters/missing-env-file-keys.ts:29 | a quoted-argument match at `i` fails iff no opening quote there has a closing quote after it on its line; it ends after the `)` that follows the last closing quote, and exists only in that shape |
| TextPatterns.QuotedArgumentKey | src/components/highlighters/missing-env-file-keys.ts:31 | `slice(p + 1, -1).trim().slice(1, -1)` of `prefix(ws 'key' ws)` is exactly `key`, whatever the key contains |
| TextPatterns.QuotedArgumentMatchKey | src/components/highlighters/missing-env-file-keys.ts:29-31 | a match found at `i` yields the text between its quotes, which holds no line terminator |
| TextPatterns.QuotedArgumentMatchShape | src/components/highlighters/missing-env-file-keys.ts:29-31 | a match found at `i` has an opening quote and a last closing quote on its line, and its argument is the text between them |
| TextPatterns.ArgumentsOfMatches | src/components/highlighters/missing-env-file-keys.ts:29-31 | the arguments of all the `match` texts are, in order, the texts between the quotes of the match spans |
| TextPatterns.KeyColon | src/components/highlighters/keys-without-description.ts:13 | backtracking of `.*":` picks the last `"` below the line end that a `:` follows, and fails iff there is none |
| TextPatterns.QuotedKeyColonAtIff | src/components/highlighters/keys-without-description.ts:13 | a `".*":` match at `i` fails iff `i` is not a `"` or no `":` follows it on its line; otherwise it ends after the last `":` on that line |
| TextPatterns.MatchSpans | src/components/highlighters/keys-without-description.ts:14 | the `/g` matches are real matches, in order and not overlapping |
| TextPatterns.MatchSpansFirst | src/components/highlighters/missing-env-file-keys.ts:18 | no match starts before the first one found |
| TextPatterns.MatchSpansGap | src/components/highlighters/missing-env-file-keys.ts:18 | no match starts between the end of one match found and the start of the next, nor after the last one |
| TextPatterns.MatchAll | src/components/highlighters/keys-without-description.ts:14 | `match` returns, in order, the text of each match span |
| TextPatterns.QuotedArgumentsOnOneLine | src/components/highlighters/unsafe-default-variables.ts:17-21 | the argument of every quoted-argument match lies on one line |
| TextPatterns.HasTriggerShape | src/components/suggestions/env-variables-suggestion.ts:73-75 | the trigger pattern matches iff `(`, any whitespace, and one of the single quote, the vertical bar and the double quote occur somewhere in the text |
| TextPatterns.HasTriggerPrepend | src/components/suggestions/env-variables-suggestion.ts:18-19 | prepending text never takes away a trigger match |
| UnsafeDefaultVariables.HiddenTsKeysSpec | src/components/highlighters/unsafe-default-variables.ts:17-21 | there is one hidden key per `hidden(…)` match, in order, and the `i`-th is the text between the opening quote after `hidden(` and the last closing quote on that line that whitespace and `)` follow |
| UnsafeDefaultVariables.FindEnv | src/components/highlighters/unsafe-default-variables.ts:26 | an env that `find` answers has a parse result |
| UnsafeDefaultVariables.FindEnvFirstHit | src/components/highlighters/unsafe-default-variables.ts:26 | `find` answers the first env that was parsed and has the key |
| UnsafeDefaultVariables.FindEnvFirstUnparsed | src/components/highlighters/unsafe-default-variables.ts:26 | `find` throws at an unparsed env that comes before any env with the key |
| UnsafeDefaultVariables.FindEnvNone | src/components/highlighters/unsafe-default-variables.ts:26 | when every env is parsed and none has the key, `find` answers `undefined` |
| UnsafeDefaultVariables.FindEnvHitIndex | src/components/highlighters/unsafe-default-variables.ts:26 | an env that `find` answers is the first parsed env with the key |
| UnsafeDefaultVariables.FindEnvFailureIndex | src/components/highlighters/unsafe-default-variables.ts:26 | when `find` throws, an unparsed env comes before any env with the key |
| UnsafeDefaultVariables.IsUnsafeIff | src/components/highlighters/unsafe-default-variables.ts:26-30 | a value is unsafe iff the first parsed env with the key gives neither `''` nor `__K__`, compared strictly |
| UnsafeDefaultVariables.GetTsFileDiagnostics | src/components/highlighters/unsafe-default-variables.ts:9-58 | the method returns `TsFileDiagnostics` |
| UnsafeDefaultVariables.DiagnoseKeys | src/components/highlighters/unsafe-default-variables.ts:25-56 | the loop over the hidden keys returns `KeysDiagnostics`: the warnings in key order, or the error of the first `find` that throws |
| UnsafeDefaultVariables.KeysFailurePersists | src/components/highlighters/unsafe-default-variables.ts:25-56 | once a `find` has thrown, the whole loop fails with that error |
| UnsafeDefaultVariables.MessageDeterminesKey | src/components/highlighters/unsafe-default-variables.ts:40 | the warning's message determines the key |
| UnsafeDefaultVariables.KeysFailureIff | src/components/highlighters/unsafe-default-variables.ts:25-56 | the loop fails iff the `find` of some key throws |
| UnsafeDefaultVariables.KeysReportedIff | src/components/highlighters/unsafe-default-variables.ts:25-56 | a successful loop reports a key iff it is among the keys and its value is unsafe |
| UnsafeDefaultVariables.FailureIff | src/components/highlighters/unsafe-default-variables.ts:9-58 | the check fails iff some hidden key meets an unparsed env before any env that has it |
| UnsafeDefaultVariables.ReportedIff | src/components/highlighters/unsafe-default-variables.ts:9-58 | a hidden key is reported iff the first parsed env that has it gives an unsafe value |
| UnsafeDefaultVariables.SafeKeysNotReported | src/components/highlighters/unsafe-default-variables.ts:28-30 | a key no env has is not reported, and neither is one whose first env gives a safe value |
| UnsafeDefaultVariables.KeysDiagnosticsShape | src/components/highlighters/unsafe-default-variables.ts:25-56 | there are at most as many diagnostics as keys, each the warning of one of them |
| UnsafeDefaultVariables.DiagnosticsShape | src/components/highlighters/unsafe-default-variables.ts:32-57 | each diagnostic is a Warning with code `key-unsafe-default-value` for a hidden key, at the range of `'K'`, with one related entry at that range; there are at most as many as hidden keys; the highlight targets the loader file |
| UnsafeDefaultVariables.TriggerKinds | src/components/highlighters/unsafe-default-variables.ts:69-75 | every event kind triggers the check, env-file changes included |
| UnsafeDefaultVariables.HighlightFiles | src/components/highlighters/unsafe-default-variables.ts:76-104 | when the caches agree with the lookups beforehand, `highlight` answers `LoaderHighlights`, with one highlight per related pair targeting its loader document, or the first failure |
| EnvVariablesSuggestion.MatchMultipleLines | src/components/suggestions/env-variables-suggestion.ts:7-23 | the scan answers `LookBackMatches`; it reads only lines `line-1` down, each at least 0 and above `line - maxLines`; on a match, the prefix built from the last line read matches and no shorter one does |
| EnvVariablesSuggestion.AccumulatedKeepsMatch | src/components/suggestions/env-variables-suggestion.ts:16-19 | a match of a shorter accumulated prefix survives every further line prepended without a separator |
| EnvVariablesSuggestion.LookBackLongest | src/components/suggestions/env-variables-suggestion.ts:14-22 | stopping at the first match loses nothing: the scan matches iff the longest prefix in reach matches |
| EnvVariablesSuggestion.LookBackNeedsLines | src/components/suggestions/env-variables-suggestion.ts:15-16 | on the first line, or with `maxLines` at most 1, the scan never matches |
| EnvVariablesSuggestion.LinePrefix | src/components/suggestions/env-variables-suggestion.ts:66-68 | the line prefix is the first `min(character, length)` characters of the line |
| EnvVariablesSuggestion.ObjectKeys | src/components/suggestions/env-variables-suggestion.ts:64 | `Object.keys` of each parse result fails iff some result is absent, and otherwise gives each env's own keys |
| EnvVariablesSuggestion.CandidatesLayout | src/components/suggestions/env-variables-suggestion.ts:81-92 | the candidates are laid out env by env, in order; the `k`-th key of the `i`-th env sits after all the keys of the envs before it |
| EnvVariablesSuggestion.CandidatesMember | src/components/suggestions/env-variables-suggestion.ts:81-92 | a candidate is listed iff it is some key of some env file, labelled with that key and that env's path |
| EnvVariablesSuggestion.CompletionItemsCases | src/components/suggestions/env-variables-suggestion.ts:33-93 | no answer without a workspace folder, outside a loader file or without an event; otherwise it fails iff an env file cannot be loaded, and lists candidates iff the cursor is after a trigger, the list being the keys of the related env files in order |
| EnvVariablesSuggestion.ProvideCompletionItems | src/components/suggestions/env-variables-suggestion.ts:33-93 | when the parse-result cache agrees with the loader beforehand, the provider answers `CompletionItems` and leaves the cache agreeing |

## Left out

- FetchLoaderPair: nothing is proved for caches holding an entry that differs from its lookup; the code then serves that stale entry, and only the unmodelled `context.clean(event)` would evict it. The contract holds only when the caches agree with the lookups beforehand.
- HighlightPair: as for `FetchLoaderPair`, proved only when the caches agree with the lookups beforehand; nothing is stated for a stale cache entry.
- HighlightEach: proved only when the caches agree with the lookups beforehand; nothing is stated for a stale cache entry.
- HighlightLoaderFiles: proved only when the caches agree with the lookups beforehand; nothing is stated for a stale cache entry.
- HighlightFiles (of `MissingEnvFileKeys`, `UnsafeDefaultVariables` and `KeysWithoutDescription`): proved only when the caches agree with the lookups beforehand; nothing is stated for a stale cache entry.
- ProvideCompletionItems: proved only when the parse-result cache agrees with the loader beforehand; nothing is stated for a stale cache entry.
- File and workspace I/O are parameters of a `Workspace` value: `readFile`, `openTextDocument` and `parseJsonc`. TypeScript parsing is left out: the extractor takes the syntax tree and the literal spans as given. JSONC parsing is also a parameter: a parse result is an `EnvObject` whose keys are in property order, which is also the `Object.keys` order.
- `vscode.Uri.joinPath` only appends the fragments: path normalisation is not modelled.
- Asynchrony is not modelled. The pairs of a loader highlighter, and the fetches of one dataloader call, run one after the other in the model; the source starts them together. As a result, the order of `allFilesDiagnostics.push` is the pair order, and a failing pair is the first failing one in pair order rather than in time.
- Model positions are offsets into the document text. Line mapping splits at `\n` only, and a `\r` before it is dropped from the line text. Columns are not modelled.
- Non-object parse results (a JSONC file whose top level is an array or a number) are not modelled. `EnvObject` values are strings or "anything else", and inherited members of `Object.prototype` count for `in`.
- MemoAsWritten and MemoIntended (and so ContextMethodAsWritten and ContextMethod) test `projectName in projects` on the model's map, so they ignore inherited members of `Object.prototype`: a project named `constructor` or `toString` would take the "present" branch in the code and read the inherited function through `?? {}`, which the model does not capture.
- The `/g` flag is stateless here. Each regular expression is a fresh literal, and `match` resets `lastIndex`. The `exec` in `matchMultipleLines` only loops while it fails, and a failed `exec` resets `lastIndex`, so each test there is "any match in the text".
- The inputs of the completion provider are parameters: `createConfiguruFileEvent`, the event's `relatedPaths`, `config.configPaths` and `asRelativePath`. None of these is defined in the files modelled. `context.clean(event)` is also not defined there and is left out.
- Not modelled: `getConfigTsKeys`, its `configTsKeys` cache, and `fileExistsInWorkspace` (file-system I/O). These are not called by the core.
- Not modelled: the asynchronous branch of `contextMethod`, which resolves the method's promise before writing the field. It writes the same values as the synchronous branch.
- Not modelled: `extension.ts`, `ui.ts`, `suggestion.port.ts`, the provider's registration and its trigger characters `"` and `'`, and the completion item's kind. These are editor wiring.
- The files come from different revisions. `event.ts` does not define `EXTENSION_LOADED` or `relatedPaths`, and names its kinds differently from `keys-without-description.ts`. `context.ts` has no `configPaths`, and where `event.context.cache` comes from is not shown. The model uses one `EventKind` covering every kind named, an explicit `relatedPaths` parameter, and an explicit `EventCache` object.
- Three behaviours of the code are modelled as written:
  - `loader.custom(validate)('FOO').nullable()` gives `isNullable == false`: the chained form reads the flags from `loader.custom` only, and the trailing `.nullable()` is outside it (`ConfigTsParser.ChainedCallExample`);
  - `contextDataloader` does no request coalescing: a name requested twice in one call that misses is fetched twice;
  - the keys-without-description check takes offsets found in the cached `envText` and reads them as positions of the `envFile` document.
- JavaScript string lengths and offsets count UTF-16 code units; a Dafny `char` is a Unicode scalar value. For text outside the Basic Multilingual Plane, the model's offsets, lengths and `slice` indices differ from the code's.
- The kind sets of `Event.IsEnvFileEvent` and `Event.IsTsConfigFileEvent` are the model's choice: `helpers.ts` imports `isEnvFileEvent` and `isTsConfigFileEvent`, but the modelled `event.ts` does not define them. The model takes the changed and the opened kind of each file type.

## Findings

| source | as written | input that shows it | evidently intended | confidence | as-written member | corrected member |
|---|---|---|---|---|---|---|
| src/components/event.ts:115-122 | `contextMethod` tests `cacheKey in event.context`, which asks about the context's own properties (`projects`, `config`) and never about the project's fields. It returns `[cacheKey]` on that branch, and stores the fresh project context only when the project already had one. | Call the wrapped method twice with the same project and key: the method runs both times, and for a project with no context the computed field is kept nowhere. | the memo should return the cached field of `projects[projectName]` when set, and otherwise compute it, store it in the project's context and create that context when missing | not executed | Event.ContextMethodAsWritten (Event.MemoAsWrittenNeverHits, Event.MemoSecondCall) | Event.ContextMethod (Event.MemoIntendedSpec) |
