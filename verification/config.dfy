/** Configuration loading: defaults for unset keys, then an ordered series
    of required-field and positivity checks. The file read and the YAML
    decoding are abstracted into a `Source`. */
module Config {
  import opened Wrappers
  import opened Durations

  /** The keys found in the configuration file, already decoded; `None`
      for a key the file does not set. Durations are in nanoseconds. */
  datatype ConfigFile = ConfigFile(
    gitlabBaseUrl: Option<string>,
    gitlabToken: Option<string>,
    webhookToken: Option<string>,
    botUsername: Option<string>,
    listenAddr: Option<string>,
    llmBaseUrl: Option<string>,
    llmApiKey: Option<string>,
    llmModel: Option<string>,
    httpTimeout: Option<int>,
    workerConcurrency: Option<int>,
    jobTimeout: Option<int>)

  /** The outcome of reading and decoding the file. */
  datatype Source = Unreadable | Undecodable | File(file: ConfigFile)

  datatype Config = Config(
    gitlabBaseUrl: string,
    gitlabToken: string,
    webhookToken: string,
    botUsername: string,
    listenAddr: string,
    llmBaseUrl: string,
    llmApiKey: string,
    llmModel: string,
    httpTimeout: int,
    workerConcurrency: int,
    jobTimeout: int)

  /** Go's zero `Config`, returned beside every error. */
  const ZeroConfig: Config := Config("", "", "", "", "", "", "", "", 0, 0, 0)

  datatype ConfigError =
    | ReadFailed
    | DecodeFailed
    | MissingGitLabBaseUrl
    | MissingGitLabToken
    | MissingBotUsername
    | MissingLlmBaseUrl
    | MissingLlmApiKey
    | NonPositiveWorkerConcurrency
    | NonPositiveJobTimeout

  /** `Load`'s two results. */
  datatype Loaded = Loaded(config: Config, err: Option<ConfigError>)

  const DefaultListenAddr: string := ":8080"
  const DefaultLlmModel: string := "internal-reviewer"
  const DefaultHttpTimeout: int := 30 * Second
  const DefaultWorkerConcurrency: int := 2
  const DefaultJobTimeout: int := 5 * Minute

  /** The decoded configuration: five keys have defaults, every other
      unset key takes its zero value. */
  function WithDefaults(f: ConfigFile): Config {
    Config(
      f.gitlabBaseUrl.GetOr(""),
      f.gitlabToken.GetOr(""),
      f.webhookToken.GetOr(""),
      f.botUsername.GetOr(""),
      f.listenAddr.GetOr(DefaultListenAddr),
      f.llmBaseUrl.GetOr(""),
      f.llmApiKey.GetOr(""),
      f.llmModel.GetOr(DefaultLlmModel),
      f.httpTimeout.GetOr(DefaultHttpTimeout),
      f.workerConcurrency.GetOr(DefaultWorkerConcurrency),
      f.jobTimeout.GetOr(DefaultJobTimeout))
  }

  /** Reference definition: every check the configuration fails, in the
      order the loader runs them. */
  function Violations(c: Config): seq<ConfigError> {
    (if c.gitlabBaseUrl == "" then [MissingGitLabBaseUrl] else [])
    + (if c.gitlabToken == "" then [MissingGitLabToken] else [])
    + (if c.botUsername == "" then [MissingBotUsername] else [])
    + (if c.llmBaseUrl == "" then [MissingLlmBaseUrl] else [])
    + (if c.llmApiKey == "" then [MissingLlmApiKey] else [])
    + (if c.workerConcurrency <= 0 then [NonPositiveWorkerConcurrency] else [])
    + (if c.jobTimeout <= 0 then [NonPositiveJobTimeout] else [])
  }

  /** `Load` after the file has been read and decoded: a read or decode
      failure is reported first; otherwise the checks run in order and the
      first one that fails decides the error. Every error comes with the
      zero configuration; success returns the file's values over the
      defaults. */
  function Load(src: Source): (r: Loaded)
    ensures src.Unreadable? ==> r == Loaded(ZeroConfig, Some(ReadFailed))
    ensures src.Undecodable? ==> r == Loaded(ZeroConfig, Some(DecodeFailed))
    ensures r.err.Some? ==> r.config == ZeroConfig
    ensures r.err.None? <==> src.File? && |Violations(WithDefaults(src.file))| == 0
    ensures src.File? && r.err.Some? ==> r.err.value == Violations(WithDefaults(src.file))[0]
    ensures r.err.None? ==> r.config == WithDefaults(src.file)
  {
    match src
    case Unreadable => Loaded(ZeroConfig, Some(ReadFailed))
    case Undecodable => Loaded(ZeroConfig, Some(DecodeFailed))
    case File(f) =>
      var cfg := WithDefaults(f);
      if cfg.gitlabBaseUrl == "" then Loaded(ZeroConfig, Some(MissingGitLabBaseUrl))
      else if cfg.gitlabToken == "" then Loaded(ZeroConfig, Some(MissingGitLabToken))
      else if cfg.botUsername == "" then Loaded(ZeroConfig, Some(MissingBotUsername))
      else if cfg.llmBaseUrl == "" then Loaded(ZeroConfig, Some(MissingLlmBaseUrl))
      else if cfg.llmApiKey == "" then Loaded(ZeroConfig, Some(MissingLlmApiKey))
      else if cfg.workerConcurrency <= 0 then Loaded(ZeroConfig, Some(NonPositiveWorkerConcurrency))
      else if cfg.jobTimeout <= 0 then Loaded(ZeroConfig, Some(NonPositiveJobTimeout))
      else Loaded(cfg, None)
  }

  /** Loading succeeds exactly when the seven checks pass. */
  lemma LoadSucceedsIff(f: ConfigFile)
    ensures var c := WithDefaults(f);
      Load(File(f)).err.None? <==>
        && c.gitlabBaseUrl != "" && c.gitlabToken != "" && c.botUsername != ""
        && c.llmBaseUrl != "" && c.llmApiKey != ""
        && c.workerConcurrency > 0 && c.jobTimeout > 0
  {
  }

  /** The webhook token, listen address, model name and HTTP timeout are
      never checked: changing them does not change whether or how loading
      fails. */
  lemma ValidationIgnoresOptionalKeys(f: ConfigFile, webhookToken: Option<string>, listenAddr: Option<string>,
                                      llmModel: Option<string>, httpTimeout: Option<int>)
    ensures Load(File(f)).err
      == Load(File(f.(webhookToken := webhookToken, listenAddr := listenAddr,
                      llmModel := llmModel, httpTimeout := httpTimeout))).err
  {
  }

  /** The five required strings and nothing else. */
  function RequiredOnly(): ConfigFile {
    ConfigFile(Some("https://gitlab.example.com"), Some("token"), None, Some("review-bot"), None,
               Some("https://llm.example.com"), Some("key"), None, None, None, None)
  }

  /** The loader test: the required strings alone load, with every default
      filled in. */
  lemma RequiredOnlyLoads()
    ensures var r := Load(File(RequiredOnly()));
      && r.err.None?
      && r.config.listenAddr == ":8080" && r.config.llmModel == "internal-reviewer"
      && r.config.httpTimeout == 30 * Second && r.config.workerConcurrency == 2
      && r.config.jobTimeout == 5 * Minute && r.config.webhookToken == ""
  {
  }

  /** The loader test: a file with only the GitLab URL fails, on the
      GitLab token, the next check in order. */
  lemma BaseUrlOnlyFails()
    ensures Load(File(ConfigFile(Some("https://gitlab.example.com"), None, None, None, None,
                                 None, None, None, None, None, None)))
      == Loaded(ZeroConfig, Some(MissingGitLabToken))
  {
  }
}
