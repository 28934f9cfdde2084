/** The extension's session state: the loaded settings and the per-project context. */
module Context {
  import opened Wrappers
  import opened Editor

  datatype FeatureFlags = FeatureFlags(
    suggestEnvVariables: bool,
    highlightInvalidVariables: bool,
    highlightSecretsMissingDescription: bool,
    highlightUnsafeDefaultValues: bool)

  /** The names of the feature flags, which highlighters and suggestions refer to. */
  datatype FeatureFlag =
    | SuggestEnvVariables
    | HighlightInvalidVariables
    | HighlightSecretsMissingDescription
    | HighlightUnsafeDefaultValues

  datatype ProjectPath = ProjectPath(path: string, projectName: string)

  datatype ConfiguruExtConfig = ConfiguruExtConfig(
    features: FeatureFlags,
    projectPaths: seq<ProjectPath>,
    defaultConfigPath: string)

  const DefaultConfigPath: string := ".env.jsonc"

  /** The configuration in force before the first `load`. */
  const InitialConfig: ConfiguruExtConfig :=
    ConfiguruExtConfig(FeatureFlags(true, true, true, true), [], DefaultConfigPath)

  /** What the `configuru` settings section holds; `None` is an unset setting. */
  datatype Settings = Settings(
    paths: Option<seq<ProjectPath>>,
    suggestEnvVariables: Option<bool>,
    highlightInvalidVariables: Option<bool>,
    highlightSecretsMissingDescription: Option<bool>,
    highlightUnsafeDefaultValues: Option<bool>)

  const NoSettings: Settings := Settings(None, None, None, None, None)

  /** The configuration `load` builds from the settings alone: an unset flag is on, unset
      paths are empty, and the default config path is fixed. */
  function ConfigFrom(s: Settings): (c: ConfiguruExtConfig)
    ensures c.projectPaths == (if s.paths.Some? then s.paths.value else [])
    ensures c.defaultConfigPath == ".env.jsonc"
    ensures c.features.suggestEnvVariables <==> s.suggestEnvVariables != Some(false)
    ensures c.features.highlightInvalidVariables <==> s.highlightInvalidVariables != Some(false)
    ensures c.features.highlightSecretsMissingDescription <==> s.highlightSecretsMissingDescription != Some(false)
    ensures c.features.highlightUnsafeDefaultValues <==> s.highlightUnsafeDefaultValues != Some(false)
  {
    ConfiguruExtConfig(
      FeatureFlags(
        s.suggestEnvVariables.GetOr(true),
        s.highlightInvalidVariables.GetOr(true),
        s.highlightSecretsMissingDescription.GetOr(true),
        s.highlightUnsafeDefaultValues.GetOr(true)),
      s.paths.GetOr([]),
      DefaultConfigPath)
  }

  /** Loading with nothing set yields the initial configuration. */
  lemma ConfigFromNoSettings()
    ensures ConfigFrom(NoSettings) == InitialConfig
  {
  }

  /** The value of a feature flag in a configuration. */
  function FlagValue(f: FeatureFlags, flag: FeatureFlag): bool {
    match flag
    case SuggestEnvVariables => f.suggestEnvVariables
    case HighlightInvalidVariables => f.highlightInvalidVariables
    case HighlightSecretsMissingDescription => f.highlightSecretsMissingDescription
    case HighlightUnsafeDefaultValues => f.highlightUnsafeDefaultValues
  }

  /** The fields of a project context. */
  datatype ContextKey =
    | EnvFile | EnvFileParsed | EnvFileText | EnvFileUri
    | TsConfigFile | TsConfigFileText | TsConfigFileUri

  /** The property name of a context field. */
  function ContextKeyName(k: ContextKey): (r: string)
    ensures r != "projects" && r != "config"
  {
    match k
    case EnvFile => "envFile"
    case EnvFileParsed => "envFileParsed"
    case EnvFileText => "envFileText"
    case EnvFileUri => "envFileUri"
    case TsConfigFile => "tsConfigFile"
    case TsConfigFileText => "tsConfigFileText"
    case TsConfigFileUri => "tsConfigFileUri"
  }

  datatype ContextValue =
    | DocumentValue(document: Document)
    | ParsedValue(parsed: EnvObject)
    | TextValue(text: string)
    | UriValue(uri: Uri)

  /** The data kept for one project; an absent field is unset. */
  type ProjectContext = map<ContextKey, ContextValue>

  /** The own properties of the context object. */
  const ContextPropertyNames: set<string> := {"projects", "config"}

  /** The extension context: the per-project data, and the configuration that `load`
      stores and `get` returns. */
  class ConfiguruContext {
    var projects: map<string, ProjectContext>
    var loadedConfig: ConfiguruExtConfig

    /** The context as the extension starts: no projects, the initial configuration. */
    constructor()
      ensures projects == map[] && loadedConfig == InitialConfig
    {
      projects := map[];
      loadedConfig := InitialConfig;
    }

    /** `load`: replaces the stored configuration wholesale by the one built from the
        settings and returns it. */
    method Load(settings: Settings) returns (c: ConfiguruExtConfig)
      modifies this
      ensures loadedConfig == ConfigFrom(settings) && c == loadedConfig
      ensures projects == old(projects)
    {
      loadedConfig := ConfigFrom(settings);
      c := loadedConfig;
    }

    /** `get`: the stored configuration is always set, so it is returned without
        loading. */
    function Get(): (c: ConfiguruExtConfig)
      reads this
      ensures c == loadedConfig
    {
      loadedConfig
    }
  }

  /** Two loads leave only the second one's settings in force. */
  method LoadTwice(ctx: ConfiguruContext, first: Settings, second: Settings) returns (c: ConfiguruExtConfig)
    modifies ctx
    ensures c == ConfigFrom(second) && ctx.Get() == ConfigFrom(second)
  {
    var _ := ctx.Load(first);
    c := ctx.Load(second);
  }
}
