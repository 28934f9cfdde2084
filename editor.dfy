/** Plain-data stand-ins for the editor and parser types the extension reads: URIs,
    text documents, workspace folders, the objects `jsonc-parser` returns, and the
    diagnostics and completion items the extension hands back. */
module Editor {
  import opened JsString

  /** A URI, reduced to its path. */
  datatype Uri = Uri(path: string)

  function SlashJoined(fragments: seq<string>): string {
    if fragments == [] then "" else "/" + fragments[0] + SlashJoined(fragments[1..])
  }

  /** `vscode.Uri.joinPath(base, ...fragments)`, without path normalisation. */
  function JoinPath(base: Uri, fragments: seq<string>): (r: Uri)
    ensures fragments == [] ==> r == base
  {
    Uri(base.path + SlashJoined(fragments))
  }

  /** A text document: its file-system name, its URI and its current text. */
  datatype Document = Document(fileName: string, uri: Uri, text: string)

  datatype WorkspaceFolder = WorkspaceFolder(name: string, uri: Uri)

  /** A value of a parsed env file; only strings are ever compared. */
  datatype JsonValue = JString(s: string) | JNonString

  /** A parsed JSON object: its own keys in order, and the value of each. */
  datatype JsonObject = JsonObject(keys: seq<string>, values: map<string, JsonValue>)

  /** A parsed env file: a JSON object whose keys are distinct and are the keys of its
      value map. */
  type EnvObject = o: JsonObject |
      && (forall i, j :: 0 <= i < j < |o.keys| ==> o.keys[i] != o.keys[j])
      && (forall k :: k in o.values <==> k in o.keys)
    witness JsonObject([], map[])

  /** The members every plain JavaScript object inherits from `Object.prototype`,
      which the `in` operator also sees. */
  const ObjectPrototypeMembers: set<string> := {
    "constructor", "hasOwnProperty", "isPrototypeOf", "propertyIsEnumerable",
    "toLocaleString", "toString", "valueOf", "__proto__", "__defineGetter__",
    "__defineSetter__", "__lookupGetter__", "__lookupSetter__"
  }

  /** `key in o`, which includes inherited members. */
  predicate HasProperty(o: EnvObject, key: string) {
    key in o.values || key in ObjectPrototypeMembers
  }

  /** `o[key]`; an inherited member is a function, never a string. */
  function PropertyValue(o: EnvObject, key: string): JsonValue {
    if key in o.values then o.values[key] else JNonString
  }

  /** An editor range, as document offsets. Offsets map to positions monotonically, so
      `Range.contains` is offset containment. */
  datatype Range = Range(start: nat, end: nat)

  predicate Contains(outer: Range, inner: Range) {
    outer.start <= inner.start && inner.end <= outer.end
  }

  /** `new Range(doc.positionAt(startPos), doc.positionAt(endPos))`: both ends are
      clamped to the document; the range is normalised so that its start comes first. */
  function OffsetRange(text: string, startPos: int, endPos: int): (r: Range)
    ensures r.start <= r.end <= |text|
    ensures startPos <= endPos && 0 <= startPos && endPos <= |text| ==> r == Range(startPos, endPos)
  {
    var a := PositionAt(text, startPos);
    var b := PositionAt(text, endPos);
    if a <= b then Range(a, b) else Range(b, a)
  }

  /** The range's ends are the two clamped positions, the smaller one first. */
  lemma OffsetRangeEnds(text: string, startPos: int, endPos: int)
    ensures var r := OffsetRange(text, startPos, endPos);
            multiset{r.start, r.end} == multiset{PositionAt(text, startPos), PositionAt(text, endPos)}
  {
  }

  datatype Severity = Error | Warning

  datatype Location = Location(uri: Uri, range: Range)

  datatype RelatedInformation = RelatedInformation(location: Location, message: string)

  /** A diagnostic: its range, message, severity, code (with the code's target) and
      related information. Every diagnostic of the extension has source `configuru`. */
  datatype Diagnostic = Diagnostic(
    range: Range,
    message: string,
    severity: Severity,
    code: string,
    codeTarget: Uri,
    source: string,
    relatedInformation: seq<RelatedInformation>)

  /** A completion item; `label` is a Dafny keyword, hence `labelText`. */
  datatype CompletionItem = CompletionItem(labelText: string, description: string, detail: string)
}
