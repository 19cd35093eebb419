/** Provider configuration (internal/infisical/config.go): defaults, overrides, and the approval block's checks. */
module Config {
  import opened Wrappers
  import opened Strings

  const SECOND := 1_000_000_000
  const MINUTE := 60 * SECOND
  const HOUR := 60 * MINUTE
  const DAY := 24 * HOUR

  /** A 64-bit signed result, wrapped around. */
  function Wrap64(x: int): (r: int)
    ensures -0x8000_0000_0000_0000 <= r < 0x8000_0000_0000_0000
    ensures (r - x) % 0x1_0000_0000_0000_0000 == 0
    ensures -0x8000_0000_0000_0000 <= x < 0x8000_0000_0000_0000 ==> r == x
  {
    (x + 0x8000_0000_0000_0000) % 0x1_0000_0000_0000_0000 - 0x8000_0000_0000_0000
  }

  predicate IsInt64(x: int) {
    -0x8000_0000_0000_0000 <= x < 0x8000_0000_0000_0000
  }

  const AUTH_METHOD_UNIVERSAL := "universal-auth"
  const AUTH_METHOD_TOKEN := "token"

  datatype CacheConfig = CacheConfig(tokenTtlSeconds: int, certTtlSeconds: int, signerTtlSeconds: int)
  datatype AuthConfig = AuthConfig(authMethod: string, clientId: string, clientSecret: string, token: string)
  datatype ApprovalConfig = ApprovalConfig(signingCount: int, signingDuration: string)

  datatype Settings = Settings(
    serverUrl: string,
    auth: AuthConfig,
    cache: CacheConfig,
    approval: ApprovalConfig,
    logLevel: string,
    logFile: string)

  /** The environment variables that override the file; "" when unset. */
  datatype EnvOverrides = EnvOverrides(serverUrl: string, clientId: string, clientSecret: string, token: string)

  datatype ParsedUrl = ParsedUrl(scheme: string, host: string)

  /** Library parsers: time.ParseDuration (in nanoseconds) and url.Parse. None is an error. */
  datatype Parsers = Parsers(duration: string -> Option<int>, url: string -> Option<ParsedUrl>)

  datatype ConfigError =
    | MissingServerUrl | InvalidUrl | UnsupportedScheme | MissingHost | UnsupportedAuthMethod
    | InvalidSigningDuration | SigningDurationOutOfRange | NegativeSigningCount

  // ---- Durations ---------------------------------------------------------------------------------

  predicate AllDigits(s: string) {
    s != "" && forall i :: 0 <= i < |s| ==> '0' <= s[i] <= '9'
  }

  function DecimalValue(digits: string): nat
    requires forall i :: 0 <= i < |digits| ==> '0' <= digits[i] <= '9'
  {
    if digits == "" then 0
    else 10 * DecimalValue(digits[..|digits| - 1]) + (digits[|digits| - 1] as int - '0' as int)
  }

  /** strconv.Atoi: an optional sign, decimal digits, and a value that fits an int. */
  function Atoi(s: string): Option<int> {
    var digits := if "-" <= s || "+" <= s then s[1..] else s;
    if !AllDigits(digits) then None
    else
      var sign := if "-" <= s then -1 else 1;
      var value := sign * DecimalValue(digits);
      if IsInt64(value) then Some(value) else None
  }

  /** "Nd" is N days, multiplied in 64-bit arithmetic; anything else is left to time.ParseDuration. */
  function ParseApprovalDuration(lib: Parsers, duration: string): Option<int> {
    if HasSuffix(duration, "d") then
      match Atoi(duration[..|duration| - 1])
      case None => None
      case Some(count) => Some(Wrap64(Wrap64(count * 24) * HOUR))
    else lib.duration(duration)
  }

  // ---- Loading -----------------------------------------------------------------------------------

  function OrDefault(x: int, default: int): int {
    if x == 0 then default else x
  }

  function Defaulted(s: Settings, defaultLogPath: string): Settings {
    Settings(
      s.serverUrl,
      s.auth.(authMethod := if s.auth.authMethod != "" then s.auth.authMethod
                            else if s.auth.token != "" then AUTH_METHOD_TOKEN
                            else AUTH_METHOD_UNIVERSAL),
      CacheConfig(
        OrDefault(s.cache.tokenTtlSeconds, 300),
        OrDefault(s.cache.certTtlSeconds, 3600),
        OrDefault(s.cache.signerTtlSeconds, 300)),
      s.approval,
      if s.logLevel == "" then "info" else s.logLevel,
      if s.logFile == "" then defaultLogPath else s.logFile)
  }

  function Overridden(s: Settings, env: EnvOverrides): Settings {
    s.(serverUrl := if env.serverUrl != "" then env.serverUrl else s.serverUrl,
       auth := AuthConfig(
         if env.token != "" then AUTH_METHOD_TOKEN else s.auth.authMethod,
         if env.clientId != "" then env.clientId else s.auth.clientId,
         if env.clientSecret != "" then env.clientSecret else s.auth.clientSecret,
         if env.token != "" then env.token else s.auth.token))
  }

  /** The first check that fails, if any. */
  function Validated(lib: Parsers, s: Settings): Option<ConfigError> {
    if s.serverUrl == "" then Some(MissingServerUrl)
    else
      match lib.url(s.serverUrl)
      case None => Some(InvalidUrl)
      case Some(parsed) =>
        if ToLower(parsed.scheme) !in {"http", "https"} then Some(UnsupportedScheme)
        else if parsed.host == "" then Some(MissingHost)
        else if s.auth.authMethod !in {AUTH_METHOD_UNIVERSAL, AUTH_METHOD_TOKEN} then Some(UnsupportedAuthMethod)
        else
          match ValidatedDuration(lib, s.approval.signingDuration)
          case Some(error) => Some(error)
          case None => if s.approval.signingCount < 0 then Some(NegativeSigningCount) else None
  }

  function ValidatedDuration(lib: Parsers, duration: string): Option<ConfigError> {
    if duration == "" then None
    else
      match ParseApprovalDuration(lib, duration)
      case None => Some(InvalidSigningDuration)
      case Some(d) => if d < MINUTE || d > 30 * DAY then Some(SigningDurationOutOfRange) else None
  }

  class Config {
    var serverUrl: string
    var auth: AuthConfig
    var cache: CacheConfig
    var approval: ApprovalConfig
    var logLevel: string
    var logFile: string

    function Value(): Settings
      reads this
    {
      Settings(serverUrl, auth, cache, approval, logLevel, logFile)
    }

    constructor (s: Settings)
      ensures Value() == s
    {
      serverUrl, auth, cache := s.serverUrl, s.auth, s.cache;
      approval, logLevel, logFile := s.approval, s.logLevel, s.logFile;
    }

    method SetDefaults(defaultLogPath: string)
      modifies this
      ensures Value() == Defaulted(old(Value()), defaultLogPath)
    {
      if cache.tokenTtlSeconds == 0 {
        cache := cache.(tokenTtlSeconds := 300);
      }
      if cache.certTtlSeconds == 0 {
        cache := cache.(certTtlSeconds := 3600);
      }
      if cache.signerTtlSeconds == 0 {
        cache := cache.(signerTtlSeconds := 300);
      }
      if logLevel == "" {
        logLevel := "info";
      }
      if auth.authMethod == "" {
        if auth.token != "" {
          auth := auth.(authMethod := AUTH_METHOD_TOKEN);
        } else {
          auth := auth.(authMethod := AUTH_METHOD_UNIVERSAL);
        }
      }
      if logFile == "" {
        logFile := defaultLogPath;
      }
    }

    method ApplyEnvOverrides(env: EnvOverrides)
      modifies this
      ensures Value() == Overridden(old(Value()), env)
    {
      if env.serverUrl != "" {
        serverUrl := env.serverUrl;
      }
      if env.clientId != "" {
        auth := auth.(clientId := env.clientId);
      }
      if env.clientSecret != "" {
        auth := auth.(clientSecret := env.clientSecret);
      }
      if env.token != "" {
        auth := auth.(token := env.token);
        auth := auth.(authMethod := AUTH_METHOD_TOKEN);
      }
    }
  }

  method LoadConfig(lib: Parsers, file: Settings, env: EnvOverrides, defaultLogPath: string)
    returns (result: Result<Settings, ConfigError>)
    ensures result == Loaded(lib, file, env, defaultLogPath)
  {
    var cfg := new Config(file);
    cfg.SetDefaults(defaultLogPath);
    cfg.ApplyEnvOverrides(env);
    var error := Validated(lib, cfg.Value());
    result := if error.Some? then Failure(error.value) else Success(cfg.Value());
  }

  function Loaded(lib: Parsers, file: Settings, env: EnvOverrides, defaultLogPath: string):
    Result<Settings, ConfigError>
  {
    var s := Overridden(Defaulted(file, defaultLogPath), env);
    match Validated(lib, s)
    case Some(error) => Failure(error)
    case None => Success(s)
  }

  // ---- What a loaded configuration guarantees ----------------------------------------------------

  /** Every accepted duration parses again, to between one minute and thirty days. */
  predicate ApprovalUsable(lib: Parsers, approval: ApprovalConfig) {
    && approval.signingCount >= 0
    && (approval.signingDuration != "" ==>
          var d := ParseApprovalDuration(lib, approval.signingDuration);
          d.Some? && MINUTE <= d.value <= 30 * DAY)
  }

  /**
   Any configuration that loads: a known auth method, the documented cache lifetimes where none are
   given, a usable approval block; the environment wins over the file, and its token over all.
   */
  lemma LoadedConfigIsUsable(lib: Parsers, file: Settings, env: EnvOverrides, defaultLogPath: string)
    requires Loaded(lib, file, env, defaultLogPath).Success?
    ensures var s := Loaded(lib, file, env, defaultLogPath).value;
            && ApprovalUsable(lib, s.approval)
            && s.auth.authMethod in {AUTH_METHOD_UNIVERSAL, AUTH_METHOD_TOKEN}
            && s.cache.tokenTtlSeconds != 0 && s.cache.certTtlSeconds != 0 && s.cache.signerTtlSeconds != 0
            && (env.token != "" ==> s.auth.authMethod == AUTH_METHOD_TOKEN && s.auth.token == env.token)
            && (env.token == "" && file.auth.authMethod == "" ==>
                  (s.auth.authMethod == AUTH_METHOD_TOKEN <==> file.auth.token != ""))
            && (file.cache == CacheConfig(0, 0, 0) ==> s.cache == CacheConfig(300, 3600, 300))
            && s.serverUrl in {env.serverUrl, file.serverUrl} && (env.serverUrl != "" ==> s.serverUrl == env.serverUrl)
  {
  }

  /**
   A configuration loads exactly when its server URL, the environment's before the file's, is HTTP or HTTPS
   with a host, its auth method is one of two, and the approval block asks for no negative count and for no
   duration but one between a minute and thirty days.
   */
  lemma LoadsIff(lib: Parsers, file: Settings, env: EnvOverrides, defaultLogPath: string)
    ensures var url := lib.url(if env.serverUrl != "" then env.serverUrl else file.serverUrl);
            var duration := file.approval.signingDuration;
            Loaded(lib, file, env, defaultLogPath).Success? <==>
            && (env.serverUrl != "" || file.serverUrl != "")
            && url.Some? && url.value.host != "" && ToLower(url.value.scheme) in {"http", "https"}
            && (env.token != "" || file.auth.authMethod in {"", "token", "universal-auth"})
            && file.approval.signingCount >= 0
            && (duration != "" ==>
                  && ParseApprovalDuration(lib, duration).Some?
                  && 60_000_000_000 <= ParseApprovalDuration(lib, duration).value <= 2_592_000_000_000_000)
    ensures Loaded(lib, file, env, defaultLogPath).Success? ==>
              var s := Loaded(lib, file, env, defaultLogPath).value;
              && s.approval == file.approval
              && s.auth.token == (if env.token != "" then env.token else file.auth.token)
              && s.auth.clientId == (if env.clientId != "" then env.clientId else file.auth.clientId)
              && s.auth.clientSecret == (if env.clientSecret != "" then env.clientSecret else file.auth.clientSecret)
              && s.auth.authMethod in {"token", "universal-auth"}
              && (s.auth.authMethod == "token" <==>
                  || env.token != "" || file.auth.authMethod == "token"
                  || (file.auth.authMethod == "" && file.auth.token != ""))
              && var cache, given := s.cache, file.cache;
              && cache.tokenTtlSeconds == (if given.tokenTtlSeconds == 0 then 300 else given.tokenTtlSeconds)
              && cache.certTtlSeconds == (if given.certTtlSeconds == 0 then 3600 else given.certTtlSeconds)
              && cache.signerTtlSeconds == (if given.signerTtlSeconds == 0 then 300 else given.signerTtlSeconds)
              && s.logLevel == (if file.logLevel == "" then "info" else file.logLevel)
              && s.logFile == (if file.logFile == "" then defaultLogPath else file.logFile)
  {
    hide ParseApprovalDuration, ToLower;
  }

  /** Durations that do not end in d are the library's. */
  lemma OtherDurations(lib: Parsers, duration: string)
    requires duration == "" || duration[|duration| - 1] != 'd'
    ensures ParseApprovalDuration(lib, duration) == lib.duration(duration)
  {
  }

  // ---- Day counts --------------------------------------------------------------------------------

  lemma {:induction false} ShiftedModulo(x: int, j: int)
    ensures (x + j * 0x1_0000_0000_0000_0000) % 0x1_0000_0000_0000_0000 == x % 0x1_0000_0000_0000_0000
  {
    assert x + j * 0x1_0000_0000_0000_0000 ==
           (x / 0x1_0000_0000_0000_0000 + j) * 0x1_0000_0000_0000_0000 + x % 0x1_0000_0000_0000_0000;
  }

  /** Wrapping after each of the two multiplications is wrapping once. */
  lemma DayProduct(count: int)
    ensures Wrap64(Wrap64(count * 24) * HOUR) == Wrap64(count * DAY)
  {
    var q := (Wrap64(count * 24) - count * 24) / 0x1_0000_0000_0000_0000;
    assert Wrap64(count * 24) == count * 24 + q * 0x1_0000_0000_0000_0000;
    ShiftedModulo(count * DAY + 0x8000_0000_0000_0000, q * HOUR);
  }

  /** The day count of "Nd", if it has one. */
  function DayCount(duration: string): Option<int> {
    if HasSuffix(duration, "d") then Atoi(duration[..|duration| - 1]) else None
  }

  /** 86400 seconds in nanoseconds are 2^16 times this odd number. */
  const ODD_DAY := 1318359375

  /**
   What "Nd" means for every count: the duration is the 64-bit product, which wraps exactly outside
   106751 days either way, and the checks accept exactly the counts whose product modulo 2^64 falls
   between a minute and thirty days. Among counts that do not wrap these are 1 to 30.
   */
  lemma DayCountAccepted(lib: Parsers, duration: string)
    requires DayCount(duration).Some?
    ensures var n := DayCount(duration).value;
            && ParseApprovalDuration(lib, duration) == Some(Wrap64(n * DAY))
            && (Wrap64(n * DAY) == n * DAY <==> -106751 <= n <= 106751)
            && (ValidatedDuration(lib, duration) == None <==>
                915528 <= n * ODD_DAY % 0x1_0000_0000_0000 <= 30 * ODD_DAY)
            && (-106751 <= n <= 106751 ==> (ValidatedDuration(lib, duration) == None <==> 1 <= n <= 30))
  {
    var n := DayCount(duration).value;
    DayProduct(n);
    WrappedDays(n);
    assert duration != "";
    hide Wrap64;
  }

  /** The wrapped product of a day count, through its remainder modulo 2^48. */
  lemma WrappedDays(n: int)
    ensures var r := n * ODD_DAY % 0x1_0000_0000_0000;
            Wrap64(n * DAY) == if r < 0x8000_0000_0000 then 0x1_0000 * r else 0x1_0000 * r - 0x1_0000_0000_0000_0000
    ensures Wrap64(n * DAY) == n * DAY <==> -106751 <= n <= 106751
  {
    var q, r := n * ODD_DAY / 0x1_0000_0000_0000, n * ODD_DAY % 0x1_0000_0000_0000;
    assert n * DAY == 0x1_0000 * r + q * 0x1_0000_0000_0000_0000;
    ShiftedModulo(0x1_0000 * r + 0x8000_0000_0000_0000, q);
  }

  function Digit(d: int): char
    requires 0 <= d < 10
  {
    ('0' as int + d) as char
  }

  /** strconv.Itoa of a positive number. */
  function Decimal(n: nat): (s: string)
    ensures forall i :: 0 <= i < |s| ==> '0' <= s[i] <= '9'
    ensures DecimalValue(s) == n
    ensures n > 0 ==> s != ""
  {
    if n == 0 then "" else Decimal(n / 10) + [Digit(n % 10)]
  }

  lemma DayCountOfDecimal(n: int)
    requires 0 < n < 0x8000_0000_0000_0000
    ensures DayCount(Decimal(n) + "d") == Some(n)
    ensures DayCount("+" + Decimal(n) + "d") == Some(n)
    ensures DayCount("-" + Decimal(n) + "d") == Some(-n)
  {
    hide Decimal, DecimalValue;
    var digits := Decimal(n);
    assert (digits + "d")[..|digits|] == digits;
    assert ("-" + digits + "d")[..|digits| + 1] == "-" + digits;
    assert ("+" + digits + "d")[..|digits| + 1] == "+" + digits;
    assert ("-" + digits)[1..] == digits && ("+" + digits)[1..] == digits;
    assert digits[0] != '-' && digits[0] != '+';
  }

  /**
   Counts outside 1 to 30 that are accepted: 213504 days are taken for some 25 minutes, minus 213503
   days for some 23 hours, and 2^48 + 1 days for one day.
   */
  lemma WrappedDayCountsAccepted(lib: Parsers)
    ensures ParseApprovalDuration(lib, Decimal(213504) + "d") == Some(1_526_290_448_384)
    ensures ValidatedDuration(lib, Decimal(213504) + "d") == None
    ensures ParseApprovalDuration(lib, "-" + Decimal(213503) + "d") == Some(84_873_709_551_616)
    ensures ValidatedDuration(lib, "-" + Decimal(213503) + "d") == None
    ensures ParseApprovalDuration(lib, Decimal(0x1_0000_0000_0001) + "d") == Some(DAY)
    ensures ValidatedDuration(lib, Decimal(0x1_0000_0000_0001) + "d") == None
  {
    hide *;
    DayCountOfDecimal(213504);
    DayCountOfDecimal(213503);
    DayCountOfDecimal(0x1_0000_0000_0001);
    WrappedCounts();
    DaysInRange(lib, Decimal(213504) + "d");
    DaysInRange(lib, "-" + Decimal(213503) + "d");
    DaysInRange(lib, Decimal(0x1_0000_0000_0001) + "d");
  }

  lemma WrappedCounts()
    ensures Wrap64(213504 * DAY) == 1_526_290_448_384
    ensures Wrap64(-213503 * DAY) == 84_873_709_551_616
    ensures Wrap64(0x1_0000_0000_0001 * DAY) == DAY == 86_400_000_000_000
  {
  }

  lemma DaysInRange(lib: Parsers, duration: string)
    requires DayCount(duration).Some?
    ensures var d := Wrap64(DayCount(duration).value * DAY);
            && ParseApprovalDuration(lib, duration) == Some(d)
            && (60_000_000_000 <= d <= 2_592_000_000_000_000 ==> ValidatedDuration(lib, duration) == None)
  {
    hide Wrap64;
    DayProduct(DayCount(duration).value);
  }
}
