/** File lookup for an event (`getFilePath`, `getFileUri`, `getFileText`, `getFiles`,
    `getEnvFileParsed`) and the per-event cache `contextDataloader` that the highlighters
    read files through. */
module Helpers {
  import opened Wrappers
  import opened Editor
  import opened Event

  /** The argument of `getFilePath`: one relative path or a list of fragments. */
  datatype PathArgument = OnePath(path: string) | PathList(paths: seq<string>)

  function PathFragments(a: PathArgument): seq<string> {
    match a
    case OnePath(p) => [p]
    case PathList(ps) => ps
  }

  /** The file system, the editor's workspace and the JSONC parser, as the extension
      sees them: the open workspace folders, `fs.readFile`, `openTextDocument`, and
      `jsonc-parser`'s `parse` (None for a text without a value). */
  datatype Workspace = Workspace(
    folders: seq<WorkspaceFolder>,
    readFile: Uri -> Result<string>,
    openTextDocument: Uri -> Result<Document>,
    parseJsonc: string -> Option<EnvObject>)

  /** `getFilePath(relativePaths)`: the fragments joined onto the first workspace
      folder; with no folder it throws. */
  function GetFilePath(relativePaths: PathArgument, folders: seq<WorkspaceFolder>): (r: Result<Uri>)
    ensures r.Failure? <==> folders == []
    ensures r.Failure? ==> r.error == "No workspace folder found"
    ensures r.Success? ==> r.value == JoinPath(folders[0].uri, PathFragments(relativePaths))
  {
    var pathFragments := match relativePaths
      case PathList(ps) => ps
      case OnePath(p) => [p];
    if |folders| == 0 then Failure("No workspace folder found")
    else Success(JoinPath(folders[0].uri, pathFragments))
  }

  /** A single path is the one-fragment list. */
  lemma GetFilePathSingle(path: string, folders: seq<WorkspaceFolder>)
    ensures GetFilePath(OnePath(path), folders) == GetFilePath(PathList([path]), folders)
  {
  }

  /** The event's own file, which is answered from its document. */
  predicate IsEventFile(event: ConfiguruEvent, fileName: string) {
    (IsTsConfigFileEvent(event) || IsEnvFileEvent(event)) && fileName == event.filePath
  }

  /** `getFileUri(event, fileName)`. */
  function GetFileUri(event: ConfiguruEvent, ws: Workspace, fileName: string): Result<Uri> {
    if IsTsConfigFileEvent(event) && fileName == event.filePath then Success(event.document.uri)
    else if IsEnvFileEvent(event) && fileName == event.filePath then Success(event.document.uri)
    else GetFilePath(OnePath(fileName), ws.folders)
  }

  /** `getFileText(event, fileName)`. */
  function GetFileText(event: ConfiguruEvent, ws: Workspace, fileName: string): Result<string> {
    if IsEnvFileEvent(event) && fileName == event.filePath then Success(event.document.text)
    else if IsTsConfigFileEvent(event) && fileName == event.filePath then Success(event.document.text)
    else
      var uri :- GetFileUri(event, ws, fileName);
      ws.readFile(uri)
  }

  /** `getEnvFileParsed(event, fileName)`. */
  function GetEnvFileParsed(event: ConfiguruEvent, ws: Workspace, fileName: string): Result<Option<EnvObject>> {
    var texts :- GetFileText(event, ws, fileName);
    Success(ws.parseJsonc(texts))
  }

  /** `getFiles(event, fileName)`. */
  function GetFiles(event: ConfiguruEvent, ws: Workspace, fileName: string): Result<Document> {
    if IsTsConfigFileEvent(event) && event.filePath == fileName then Success(event.document)
    else if IsEnvFileEvent(event) && event.filePath == fileName then Success(event.document)
    else
      var uri :- GetFileUri(event, ws, fileName);
      ws.openTextDocument(uri)
  }

  /** The event's own file is answered from the event's document; any other name is
      resolved against the first workspace folder, which fails without one. */
  lemma Routing(event: ConfiguruEvent, ws: Workspace, fileName: string)
    ensures IsEventFile(event, fileName) ==>
              && GetFileUri(event, ws, fileName) == Success(event.document.uri)
              && GetFileText(event, ws, fileName) == Success(event.document.text)
              && GetFiles(event, ws, fileName) == Success(event.document)
    ensures !IsEventFile(event, fileName) ==>
              var path := GetFilePath(OnePath(fileName), ws.folders);
              && GetFileUri(event, ws, fileName) == path
              && GetFileText(event, ws, fileName) == (if path.Failure? then Failure(path.error) else ws.readFile(path.value))
              && GetFiles(event, ws, fileName) == (if path.Failure? then Failure(path.error) else ws.openTextDocument(path.value))
  {
  }

  // ---------------------------------------------------------------------------------
  // contextDataloader

  /** One of the event's caches, a `Map` from file name to value. */
  class Cache<V> {
    var entries: map<string, V>

    constructor()
      ensures entries == map[]
    {
      entries := map[];
    }
  }

  /** A cached value counts only when it is truthy. */
  predicate Hit<V>(entries: map<string, V>, name: string, truthy: V -> bool) {
    name in entries && truthy(entries[name])
  }

  /** The answer for one name: the cached value on a hit, otherwise `fn(name)`. */
  function Answer<V>(entries: map<string, V>, name: string, fn: string -> Result<V>, truthy: V -> bool): Result<V> {
    if Hit(entries, name, truthy) then Success(entries[name]) else fn(name)
  }

  /** `Promise.all`: all the values in order, or the first failure. */
  function AllOf<V>(rs: seq<Result<V>>): (r: Result<seq<V>>)
    ensures r.Success? <==> forall i :: 0 <= i < |rs| ==> rs[i].Success?
    ensures r.Success? ==> |r.value| == |rs| && forall i :: 0 <= i < |rs| ==> r.value[i] == rs[i].value
    ensures r.Failure? ==> exists i :: 0 <= i < |rs| && rs[i] == Failure(r.error) && forall j :: 0 <= j < i ==> rs[j].Success?
  {
    if rs == [] then Success([])
    else if rs[0].Failure? then Failure(rs[0].error)
    else
      var rest := AllOf(rs[1..]);
      if rest.Failure? then
        assert exists i :: 0 <= i < |rs[1..]| && rs[1..][i] == Failure(rest.error) && forall j :: 0 <= j < i ==> rs[1..][j].Success?;
        var i :| 0 <= i < |rs[1..]| && rs[1..][i] == Failure(rest.error) && forall j :: 0 <= j < i ==> rs[1..][j].Success?;
        assert rs[i + 1] == Failure(rest.error);
        assert forall j :: 0 <= j < i + 1 ==> rs[j].Success? by {
          forall j | 0 <= j < i + 1 ensures rs[j].Success? {
            if j > 0 {
              assert rs[j] == rs[1..][j - 1];
            }
          }
        }
        Failure(rest.error)
      else
        Success([rs[0].value] + rest.value)
  }

  /** The answers for each requested name, in order. */
  function Answers<V>(entries: map<string, V>, names: seq<string>, fn: string -> Result<V>, truthy: V -> bool): (r: seq<Result<V>>)
    ensures |r| == |names| && forall i :: 0 <= i < |names| ==> r[i] == Answer(entries, names[i], fn, truthy)
  {
    seq(|names|, i requires 0 <= i < |names| => Answer(entries, names[i], fn, truthy))
  }

  /** The names that miss, in order (a name requested twice is fetched twice). */
  function Misses<V>(entries: map<string, V>, names: seq<string>, truthy: V -> bool): seq<string> {
    if names == [] then []
    else
      var last := names[|names| - 1];
      Misses(entries, names[..|names| - 1], truthy) + (if Hit(entries, last, truthy) then [] else [last])
  }

  /** The cache after the fetches of a call have settled: each name that missed and was
      fetched successfully is stored. */
  function Stored<V>(entries: map<string, V>, names: seq<string>, fn: string -> Result<V>, truthy: V -> bool): map<string, V> {
    if names == [] then entries
    else
      var prev := Stored(entries, names[..|names| - 1], fn, truthy);
      var last := names[|names| - 1];
      if !Hit(entries, last, truthy) && fn(last).Success? then prev[last := fn(last).value] else prev
  }

  /** `contextDataloader(fn, key)(event, fileNames)` on the cache of `key`. Every lookup
      happens before any fetch settles, so all of them see the cache as it was on entry;
      the fetches then settle and store their values. */
  method ContextDataloader<V>(cache: Cache<V>, fileNames: seq<string>, fn: string -> Result<V>, truthy: V -> bool)
    returns (r: Result<seq<V>>, fetched: seq<string>)
    modifies cache
    ensures r == AllOf(Answers(old(cache.entries), fileNames, fn, truthy))
    ensures fetched == Misses(old(cache.entries), fileNames, truthy)
    ensures cache.entries == Stored(old(cache.entries), fileNames, fn, truthy)
  {
    var entries := cache.entries;
    var results, missed;
    results, missed, fetched := LookUp(entries, fileNames, fn, truthy);
    var k := 0;
    while k < |fileNames|
      invariant 0 <= k <= |fileNames|
      invariant cache.entries == Stored(entries, fileNames[..k], fn, truthy)
    {
      assert fileNames[..k + 1][..k] == fileNames[..k];
      var fileName := fileNames[k];
      if missed[k] && results[k].Success? {
        cache.entries := cache.entries[fileName := results[k].value];
      }
      k := k + 1;
    }
    assert fileNames[..k] == fileNames;
    r := AllOf(results);
  }

  /** The synchronous part of a `contextDataloader` call: each name is looked up, and
      `fn` is started on each miss. */
  method LookUp<V>(entries: map<string, V>, fileNames: seq<string>, fn: string -> Result<V>, truthy: V -> bool)
    returns (results: seq<Result<V>>, missed: seq<bool>, fetched: seq<string>)
    ensures results == Answers(entries, fileNames, fn, truthy)
    ensures |missed| == |fileNames| && forall j :: 0 <= j < |fileNames| ==> missed[j] == !Hit(entries, fileNames[j], truthy)
    ensures fetched == Misses(entries, fileNames, truthy)
  {
    results, missed, fetched := [], [], [];
    var i := 0;
    while i < |fileNames|
      invariant 0 <= i <= |fileNames|
      invariant |results| == i && forall j :: 0 <= j < i ==> results[j] == Answer(entries, fileNames[j], fn, truthy)
      invariant |missed| == i && forall j :: 0 <= j < i ==> missed[j] == !Hit(entries, fileNames[j], truthy)
      invariant fetched == Misses(entries, fileNames[..i], truthy)
    {
      var fileName := fileNames[i];
      assert fileNames[..i + 1][..i] == fileNames[..i];
      if fileName in entries && truthy(entries[fileName]) {
        results := results + [Success(entries[fileName])];
        missed := missed + [false];
      } else {
        results := results + [fn(fileName)];
        missed := missed + [true];
        fetched := fetched + [fileName];
      }
      i := i + 1;
    }
    assert fileNames[..i] == fileNames;
  }

  /** One value per requested name, in order: the truthy cached value, or what `fn`
      returned. */
  lemma DataloaderAnswers<V>(entries: map<string, V>, names: seq<string>, fn: string -> Result<V>, truthy: V -> bool)
    ensures var r := AllOf(Answers(entries, names, fn, truthy));
            && (r.Success? <==> forall i :: 0 <= i < |names| && !Hit(entries, names[i], truthy) ==> fn(names[i]).Success?)
            && (r.Success? ==> |r.value| == |names|)
            && (r.Success? ==>
                  forall i :: 0 <= i < |names| ==>
                    (r.value[i] == if Hit(entries, names[i], truthy) then entries[names[i]] else fn(names[i]).value))
  {
  }

  /** `fn` runs exactly on the requested names that miss: a truthy cached value is
      served without it, and a falsy one (such as the empty text) is recomputed. */
  lemma {:induction false} MissesIff<V>(entries: map<string, V>, names: seq<string>, truthy: V -> bool, x: string)
    ensures x in Misses(entries, names, truthy) <==> x in names && !Hit(entries, x, truthy)
    decreases |names|
  {
    if names != [] {
      var init := names[..|names| - 1];
      MissesIff(entries, init, truthy, x);
      assert names == init + [names[|names| - 1]];
    }
  }

  /** After the call, exactly the names that missed and were fetched successfully are
      (re)stored; every other entry, hits included, is as before. */
  lemma {:induction false} StoredSpec<V>(entries: map<string, V>, names: seq<string>, fn: string -> Result<V>, truthy: V -> bool, x: string)
    ensures var filled := x in names && !Hit(entries, x, truthy) && fn(x).Success?;
            var s := Stored(entries, names, fn, truthy);
            && (x in s <==> x in entries || filled)
            && (filled ==> s[x] == fn(x).value)
            && (!filled && x in entries ==> s[x] == entries[x])
    decreases |names|
  {
    if names != [] {
      var init := names[..|names| - 1];
      StoredSpec(entries, init, fn, truthy, x);
      assert names == init + [names[|names| - 1]];
    }
  }

  /** When the fetches all succeed, every requested name is cached afterwards. */
  lemma DataloaderStoresAll<V>(entries: map<string, V>, names: seq<string>, fn: string -> Result<V>, truthy: V -> bool)
    requires AllOf(Answers(entries, names, fn, truthy)).Success?
    ensures forall i :: 0 <= i < |names| ==> names[i] in Stored(entries, names, fn, truthy)
  {
    forall i | 0 <= i < |names| ensures names[i] in Stored(entries, names, fn, truthy) {
      StoredSpec(entries, names, fn, truthy, names[i]);
    }
  }

  /** A cache agrees with `fn` when every value it would serve is what `fn` returns. */
  ghost predicate Agrees<V>(entries: map<string, V>, fn: string -> Result<V>, truthy: V -> bool) {
    forall n :: Hit(entries, n, truthy) ==> fn(n) == Success(entries[n])
  }

  /** `fn` on each name, combined as `Promise.all` does. */
  function FetchAll<V>(names: seq<string>, fn: string -> Result<V>): Result<seq<V>> {
    AllOf(seq(|names|, i requires 0 <= i < |names| => fn(names[i])))
  }

  /** A cache that agrees with `fn` is transparent: the call answers what `fn` alone
      would, and the cache still agrees with `fn` afterwards. */
  lemma DataloaderTransparent<V>(entries: map<string, V>, names: seq<string>, fn: string -> Result<V>, truthy: V -> bool)
    requires Agrees(entries, fn, truthy)
    ensures AllOf(Answers(entries, names, fn, truthy)) == FetchAll(names, fn)
    ensures Agrees(Stored(entries, names, fn, truthy), fn, truthy)
  {
    assert Answers(entries, names, fn, truthy) == seq(|names|, i requires 0 <= i < |names| => fn(names[i]));
    var s := Stored(entries, names, fn, truthy);
    forall n | Hit(s, n, truthy) ensures fn(n) == Success(s[n]) {
      StoredSpec(entries, names, fn, truthy, n);
    }
  }

  // ---------------------------------------------------------------------------------
  // The event's caches and their loaders

  /** The caches of one event, by kind of value. */
  datatype EventCache = EventCache(
    files: Cache<Document>,
    fileTexts: Cache<string>,
    fileUris: Cache<Uri>,
    fileParsed: Cache<Option<EnvObject>>)

  /** Truthiness of the cached values: only the empty text and an absent parse result
      are falsy. */
  predicate DocumentTruthy(d: Document) { true }
  predicate TextTruthy(t: string) { t != "" }
  predicate UriTruthy(u: Uri) { true }
  predicate ParsedTruthy(p: Option<EnvObject>) { p.Some? }

  function FilesFn(event: ConfiguruEvent, ws: Workspace): string -> Result<Document> {
    n => GetFiles(event, ws, n)
  }

  function TextsFn(event: ConfiguruEvent, ws: Workspace): string -> Result<string> {
    n => GetFileText(event, ws, n)
  }

  function UrisFn(event: ConfiguruEvent, ws: Workspace): string -> Result<Uri> {
    n => GetFileUri(event, ws, n)
  }

  function ParsedFn(event: ConfiguruEvent, ws: Workspace): string -> Result<Option<EnvObject>> {
    n => GetEnvFileParsed(event, ws, n)
  }

  /** Every cache of the event agrees with its loader function. */
  ghost predicate CacheAgrees(c: EventCache, event: ConfiguruEvent, ws: Workspace)
    reads c.files, c.fileTexts, c.fileUris, c.fileParsed
  {
    && Agrees(c.files.entries, FilesFn(event, ws), DocumentTruthy)
    && Agrees(c.fileTexts.entries, TextsFn(event, ws), TextTruthy)
    && Agrees(c.fileUris.entries, UrisFn(event, ws), UriTruthy)
    && Agrees(c.fileParsed.entries, ParsedFn(event, ws), ParsedTruthy)
  }
}
