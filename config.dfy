/** internal/config/config.go: the settings of one run, read from the
    environment. The environment is a map; a missing variable reads as "". */
module Config {
  import opened Outcomes
  import opened Strings

  datatype Config = Config(
    logDir: string,
    debug: bool,
    dryRun: bool,
    listOnly: bool,
    protectLatest: int,
    protectInUseByK8s: bool,
    targetRepoRegex: string,
    excludeRepoRegex: string,
    holdTagRegex: string,
    awsRegion: string,
    env: string,
    imageListFile: string,
    autoConfirm: bool,
    interactiveMode: bool)

  /** The reasons LoadConfig panics, in the order it checks them. */
  datatype ConfigError =
    | MissingLogDir
    | MissingRepoRegex
    | MissingRegion
    | MissingEnv
    | InvalidEnv(value: string)

  /** os.Getenv: "" for an unset variable. */
  function Getenv(env: map<string, string>, key: string): string {
    if key in env then env[key] else ""
  }

  /** A boolean setting is on only when the variable is exactly "true". */
  function Flag(env: map<string, string>, key: string): bool {
    Getenv(env, key) == "true"
  }

  /** PROTECT_LATEST: the parsed integer, or 3 when unset or not an integer. */
  function ProtectLatestSetting(v: string): int {
    if v != "" then
      match Atoi(v)
      case Some(n) => n
      case None => 3
    else 3
  }

  /** The in-use image list of each environment. */
  function ImageListFor(envVal: string): Option<string> {
    if envVal == "pre" then Some("IMG_LIST/PRE_IMG_LIST.txt")
    else if envVal == "prd" then Some("IMG_LIST/PRD_IMG_LIST.txt")
    else if envVal == "mgmt" then Some("IMG_LIST/MGMT_IMG_LIST.txt")
    else None
  }

  /** LoadConfig, with the panics as failures. The checks fail in a fixed
      order, each only when every earlier one passed; a successful load copies
      the strings, reads each flag as exactly "true", lowercases ENV and picks
      the image list that belongs to it. */
  function LoadConfig(env: map<string, string>): (r: Result<Config, ConfigError>)
    ensures r == Failure(MissingLogDir) <==> Getenv(env, "LOGDIR") == ""
    ensures r == Failure(MissingRepoRegex) <==>
              Getenv(env, "LOGDIR") != ""
              && (Getenv(env, "TARGET_REPO_REGEX") == "" || Getenv(env, "HOLD_TAG_REGEX") == "")
    ensures r == Failure(MissingRegion) <==>
              Getenv(env, "LOGDIR") != "" && Getenv(env, "TARGET_REPO_REGEX") != ""
              && Getenv(env, "HOLD_TAG_REGEX") != "" && Getenv(env, "AWS_REGION") == ""
    ensures r == Failure(MissingEnv) <==>
              Getenv(env, "LOGDIR") != "" && Getenv(env, "TARGET_REPO_REGEX") != ""
              && Getenv(env, "HOLD_TAG_REGEX") != "" && Getenv(env, "AWS_REGION") != ""
              && Getenv(env, "ENV") == ""
    ensures (r.Failure? && r.error.InvalidEnv?) <==>
              Getenv(env, "LOGDIR") != "" && Getenv(env, "TARGET_REPO_REGEX") != ""
              && Getenv(env, "HOLD_TAG_REGEX") != "" && Getenv(env, "AWS_REGION") != ""
              && Getenv(env, "ENV") != "" && ImageListFor(ToLower(Getenv(env, "ENV"))).None?
    ensures r.Success? ==>
              && r.value.logDir == Getenv(env, "LOGDIR") != ""
              && r.value.targetRepoRegex == Getenv(env, "TARGET_REPO_REGEX") != ""
              && r.value.holdTagRegex == Getenv(env, "HOLD_TAG_REGEX") != ""
              && r.value.awsRegion == Getenv(env, "AWS_REGION") != ""
              && r.value.excludeRepoRegex == Getenv(env, "EXCLUDE_REPO_REGEX")
              && r.value.env == ToLower(Getenv(env, "ENV"))
              && (r.value.env == "pre" || r.value.env == "prd" || r.value.env == "mgmt")
              && (r.value.env == "pre" ==> r.value.imageListFile == "IMG_LIST/PRE_IMG_LIST.txt")
              && (r.value.env == "prd" ==> r.value.imageListFile == "IMG_LIST/PRD_IMG_LIST.txt")
              && (r.value.env == "mgmt" ==> r.value.imageListFile == "IMG_LIST/MGMT_IMG_LIST.txt")
              && r.value.protectLatest == ProtectLatestSetting(Getenv(env, "PROTECT_LATEST"))
              && (r.value.debug <==> Getenv(env, "DEBUG") == "true")
              && (r.value.dryRun <==> Getenv(env, "DRYRUN") == "true")
              && (r.value.listOnly <==> Getenv(env, "LIST_ONLY") == "true")
              && (r.value.protectInUseByK8s <==> Getenv(env, "PROTECT_INUSE_BY_K8S") == "true")
              && (r.value.autoConfirm <==> Getenv(env, "AUTO_CONFIRM") == "true")
              && (r.value.interactiveMode <==> Getenv(env, "INTERACTIVE_MODE") == "true")
  {
    var logDir := Getenv(env, "LOGDIR");
    if logDir == "" then Failure(MissingLogDir)
    else
      var targetRepoRegex := Getenv(env, "TARGET_REPO_REGEX");
      var holdTagRegex := Getenv(env, "HOLD_TAG_REGEX");
      if targetRepoRegex == "" || holdTagRegex == "" then Failure(MissingRepoRegex)
      else
        var awsRegion := Getenv(env, "AWS_REGION");
        if awsRegion == "" then Failure(MissingRegion)
        else
          var envVal := ToLower(Getenv(env, "ENV"));
          if envVal == "" then Failure(MissingEnv)
          else
            match ImageListFor(envVal)
            case None => Failure(InvalidEnv(envVal))
            case Some(imageListFile) =>
              Success(Config(
                logDir,
                Flag(env, "DEBUG"),
                Flag(env, "DRYRUN"),
                Flag(env, "LIST_ONLY"),
                ProtectLatestSetting(Getenv(env, "PROTECT_LATEST")),
                Flag(env, "PROTECT_INUSE_BY_K8S"),
                targetRepoRegex,
                Getenv(env, "EXCLUDE_REPO_REGEX"),
                holdTagRegex,
                awsRegion,
                envVal,
                imageListFile,
                Flag(env, "AUTO_CONFIRM"),
                Flag(env, "INTERACTIVE_MODE")))
  }

  /** Only the three known environments have an image list. */
  lemma ImageListForKnown(envVal: string)
    ensures ImageListFor(envVal).Some? <==> envVal == "pre" || envVal == "prd" || envVal == "mgmt"
  {
  }

  /** PROTECT_LATEST defaults to 3 when unset, when it is not an optionally
      signed digit string, or when its value is outside the 64-bit range; it is
      the denoted value otherwise, negative values included. */
  lemma ProtectLatestDefault(v: string)
    ensures !IntegerSyntax(v) ==> ProtectLatestSetting(v) == 3
    ensures IntegerSyntax(v) && !(MinInt64 <= SignedDecimal(v) <= MaxInt64) ==> ProtectLatestSetting(v) == 3
    ensures IntegerSyntax(v) && MinInt64 <= SignedDecimal(v) <= MaxInt64 ==> ProtectLatestSetting(v) == SignedDecimal(v)
  {
  }

  /** Any 64-bit integer written with strconv.Itoa is read back unchanged, so
      a negative protection count reaches the selector. */
  lemma ProtectLatestRoundTrip(n: int)
    requires MinInt64 <= n <= MaxInt64
    ensures ProtectLatestSetting(Itoa(n)) == n
  {
    AtoiItoa(n);
  }

  /** ENV is read case-insensitively: two spellings with the same lowercase
      form load the same settings. */
  lemma EnvCaseInsensitive(env: map<string, string>, a: string, b: string)
    requires ToLower(a) == ToLower(b)
    ensures LoadConfig(env["ENV" := a]) == LoadConfig(env["ENV" := b])
  {
    var ea, eb := env["ENV" := a], env["ENV" := b];
    assert Getenv(ea, "LOGDIR") == Getenv(eb, "LOGDIR");
    assert Getenv(ea, "TARGET_REPO_REGEX") == Getenv(eb, "TARGET_REPO_REGEX");
    assert Getenv(ea, "HOLD_TAG_REGEX") == Getenv(eb, "HOLD_TAG_REGEX");
    assert Getenv(ea, "AWS_REGION") == Getenv(eb, "AWS_REGION");
    assert ToLower(Getenv(ea, "ENV")) == ToLower(Getenv(eb, "ENV"));
    assert Getenv(ea, "EXCLUDE_REPO_REGEX") == Getenv(eb, "EXCLUDE_REPO_REGEX");
    assert Getenv(ea, "PROTECT_LATEST") == Getenv(eb, "PROTECT_LATEST");
    assert Flag(ea, "DEBUG") == Flag(eb, "DEBUG");
    assert Flag(ea, "DRYRUN") == Flag(eb, "DRYRUN");
    assert Flag(ea, "LIST_ONLY") == Flag(eb, "LIST_ONLY");
    assert Flag(ea, "PROTECT_INUSE_BY_K8S") == Flag(eb, "PROTECT_INUSE_BY_K8S");
    assert Flag(ea, "AUTO_CONFIRM") == Flag(eb, "AUTO_CONFIRM");
    assert Flag(ea, "INTERACTIVE_MODE") == Flag(eb, "INTERACTIVE_MODE");
  }
}
