/** Extension events: the classification of a changed document, and the per-project
    memo helper `contextMethod`. */
module Event {
  import opened Wrappers
  import opened JsString
  import opened Editor
  import opened Context

  /** Every event kind the extension names. */
  datatype EventKind =
    | EnvFileChanged
    | EnvFileOpened
    | TsConfigFileChanged
    | TsConfigFileOpened
    | ExtensionLoaded

  /** An event: its kind, the project and workspace folders it belongs to, and the file
      it is about with that file's document. */
  datatype ConfiguruEvent = ConfiguruEvent(
    kind: EventKind,
    projectName: string,
    workspaceFolders: seq<WorkspaceFolder>,
    filePath: string,
    document: Document)

  predicate IsEnvFileEvent(e: ConfiguruEvent) {
    e.kind == EnvFileChanged || e.kind == EnvFileOpened
  }

  predicate IsTsConfigFileEvent(e: ConfiguruEvent) {
    e.kind == TsConfigFileChanged || e.kind == TsConfigFileOpened
  }

  /** `createConfiguruFileChangedEvent(file, context, workspaceFolders)`; reading the
      first folder's name fails when there is none. */
  function CreateConfiguruFileChangedEvent(file: Document, workspaceFolders: seq<WorkspaceFolder>): (r: Result<Option<ConfiguruEvent>>)
    ensures r.Failure? <==> workspaceFolders == []
    ensures r.Success? && r.value.Some? ==>
              var e := r.value.value;
              e == ConfiguruEvent(e.kind, workspaceFolders[0].name, workspaceFolders, file.fileName, file)
  {
    if |workspaceFolders| == 0 then Failure("Cannot read properties of undefined (reading 'name')")
    else
      var projectName := workspaceFolders[0].name;
      if EndsWith(file.fileName, "/config.ts") then
        Success(Some(ConfiguruEvent(TsConfigFileChanged, projectName, workspaceFolders, file.fileName, file)))
      else if EndsWith(file.uri.path, ".env.jsonc") then
        Success(Some(ConfiguruEvent(EnvFileChanged, projectName, workspaceFolders, file.fileName, file)))
      else Success(None)
  }

  /** A `/config.ts` file name gives a ts-config change, whatever the URI says; failing
      that, a `.env.jsonc` URI path gives an env change; any other document gives no
      event. No `*Opened` kind is ever produced. */
  lemma {:induction false} ClassificationIff(file: Document, workspaceFolders: seq<WorkspaceFolder>)
    requires workspaceFolders != []
    ensures var r := CreateConfiguruFileChangedEvent(file, workspaceFolders);
            && r.Success?
            && (r.value.Some? && r.value.value.kind == TsConfigFileChanged <==> EndsWith(file.fileName, "/config.ts"))
            && (r.value.Some? && r.value.value.kind == EnvFileChanged <==>
                  !EndsWith(file.fileName, "/config.ts") && EndsWith(file.uri.path, ".env.jsonc"))
            && (r.value.None? <==> !EndsWith(file.fileName, "/config.ts") && !EndsWith(file.uri.path, ".env.jsonc"))
            && (r.value.Some? ==> r.value.value.kind != EnvFileOpened && r.value.value.kind != TsConfigFileOpened)
  {
  }

  // ---------------------------------------------------------------------------------
  // contextMethod

  /** What the wrapped function returns: the value, or the list `[cacheKey]`. */
  datatype MemoResult = CacheKeyList(keys: seq<ContextKey>) | Computed(value: ContextValue)

  /** The projects after a call, its result, and whether the wrapped method ran. */
  datatype MemoOutcome = MemoOutcome(projects: map<string, ProjectContext>, result: MemoResult, methodCalled: bool)

  /** `contextMethod(method, cacheKey)(event)` as written, synchronous case. The test
      `cacheKey in event.context` looks among the context's own properties, and the
      freshly made project context is only written back when the project already has
      one. */
  function MemoAsWritten(projects: map<string, ProjectContext>, event: ConfiguruEvent, cacheKey: ContextKey,
                         compute: ConfiguruEvent -> ContextValue): MemoOutcome
  {
    var name := event.projectName;
    var projectContext := if name in projects then projects[name] else map[];
    if ContextKeyName(cacheKey) in ContextPropertyNames then MemoOutcome(projects, CacheKeyList([cacheKey]), false)
    else
      var result := compute(event);
      var updated := projectContext[cacheKey := result];
      MemoOutcome(if name in projects then projects[name := updated] else projects, Computed(result), true)
  }

  /** As written, the memo never hits: the method runs on every call, and a project that
      had no context keeps none. */
  lemma MemoAsWrittenNeverHits(projects: map<string, ProjectContext>, event: ConfiguruEvent, cacheKey: ContextKey,
                               compute: ConfiguruEvent -> ContextValue)
    ensures var o := MemoAsWritten(projects, event, cacheKey, compute);
            && o.methodCalled
            && o.result == Computed(compute(event))
            && (event.projectName !in projects ==> o.projects == projects)
  {
    assert ContextKeyName(cacheKey) !in ContextPropertyNames;
  }

  /** The memo the helper is evidently meant to be: the project's context is created
      when missing, a set field is returned without running the method, and an unset
      field is filled with the method's result. */
  function MemoIntended(projects: map<string, ProjectContext>, event: ConfiguruEvent, cacheKey: ContextKey,
                        compute: ConfiguruEvent -> ContextValue): MemoOutcome
  {
    var name := event.projectName;
    var projectContext := if name in projects then projects[name] else map[];
    if cacheKey in projectContext then
      MemoOutcome(projects[name := projectContext], Computed(projectContext[cacheKey]), false)
    else
      var result := compute(event);
      MemoOutcome(projects[name := projectContext[cacheKey := result]], Computed(result), true)
  }

  /** The intended memo creates the project's context when missing and touches no other
      project; it runs the method exactly when the field is unset, and afterwards the
      field holds the value returned. */
  lemma MemoIntendedSpec(projects: map<string, ProjectContext>, event: ConfiguruEvent, cacheKey: ContextKey,
                         compute: ConfiguruEvent -> ContextValue)
    ensures var o := MemoIntended(projects, event, cacheKey, compute);
            && o.projects.Keys == projects.Keys + {event.projectName}
            && (forall p :: p in projects && p != event.projectName ==> o.projects[p] == projects[p])
            && o.result.Computed? && event.projectName in o.projects
            && cacheKey in o.projects[event.projectName] && o.projects[event.projectName][cacheKey] == o.result.value
            && var had := event.projectName in projects && cacheKey in projects[event.projectName];
               && (o.methodCalled <==> !had)
               && (had ==> o.projects == projects && o.result.value == projects[event.projectName][cacheKey])
               && (!had ==> o.result.value == compute(event))
  {
  }

  /** With the intended memo a second call with the same project and key does not run
      the method and returns the first call's value; as written it runs again. */
  lemma MemoSecondCall(projects: map<string, ProjectContext>, event: ConfiguruEvent, cacheKey: ContextKey,
                       compute: ConfiguruEvent -> ContextValue, compute2: ConfiguruEvent -> ContextValue)
    ensures var o1 := MemoIntended(projects, event, cacheKey, compute);
            var o2 := MemoIntended(o1.projects, event, cacheKey, compute2);
            !o2.methodCalled && o2.result == o1.result && o2.projects == o1.projects
    ensures var o1 := MemoAsWritten(projects, event, cacheKey, compute);
            var o2 := MemoAsWritten(o1.projects, event, cacheKey, compute2);
            o2.methodCalled && o2.result == Computed(compute2(event))
  {
    MemoIntendedSpec(projects, event, cacheKey, compute);
    MemoIntendedSpec(MemoIntended(projects, event, cacheKey, compute).projects, event, cacheKey, compute2);
    MemoAsWrittenNeverHits(projects, event, cacheKey, compute);
    var o1 := MemoAsWritten(projects, event, cacheKey, compute);
    MemoAsWrittenNeverHits(o1.projects, event, cacheKey, compute2);
  }

  /** `contextMethod` as written, on the context object. */
  method ContextMethodAsWritten(ctx: ConfiguruContext, event: ConfiguruEvent, cacheKey: ContextKey,
                                compute: ConfiguruEvent -> ContextValue) returns (result: MemoResult, methodCalled: bool)
    modifies ctx
    ensures MemoOutcome(ctx.projects, result, methodCalled) == MemoAsWritten(old(ctx.projects), event, cacheKey, compute)
    ensures ctx.loadedConfig == old(ctx.loadedConfig)
  {
    var projectContext := if event.projectName in ctx.projects then ctx.projects[event.projectName] else map[];
    if event.projectName in ctx.projects {
      ctx.projects := ctx.projects[event.projectName := projectContext];
    }
    if ContextKeyName(cacheKey) in ContextPropertyNames {
      return CacheKeyList([cacheKey]), false;
    }
    var value := compute(event);
    projectContext := projectContext[cacheKey := value];
    if event.projectName in ctx.projects {
      ctx.projects := ctx.projects[event.projectName := projectContext];
    }
    result, methodCalled := Computed(value), true;
  }

  /** `contextMethod` with the intended memo, on the context object. */
  method ContextMethod(ctx: ConfiguruContext, event: ConfiguruEvent, cacheKey: ContextKey,
                       compute: ConfiguruEvent -> ContextValue) returns (result: MemoResult, methodCalled: bool)
    modifies ctx
    ensures MemoOutcome(ctx.projects, result, methodCalled) == MemoIntended(old(ctx.projects), event, cacheKey, compute)
    ensures ctx.loadedConfig == old(ctx.loadedConfig)
  {
    ghost var before := old(ctx.projects);
    var projectContext := if event.projectName in ctx.projects then ctx.projects[event.projectName] else map[];
    ctx.projects := ctx.projects[event.projectName := projectContext];
    if cacheKey in projectContext {
      result, methodCalled := Computed(projectContext[cacheKey]), false;
      assert MemoIntended(before, event, cacheKey, compute) == MemoOutcome(ctx.projects, result, methodCalled);
      return;
    }
    var value := compute(event);
    projectContext := projectContext[cacheKey := value];
    ctx.projects := ctx.projects[event.projectName := projectContext];
    result, methodCalled := Computed(value), true;
    assert MemoIntended(before, event, cacheKey, compute) == MemoOutcome(ctx.projects, result, methodCalled);
  }
}
