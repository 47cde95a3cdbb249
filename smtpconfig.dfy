/**
 * The SMTP settings (config/smtp.go): the check that names the missing
 * required variables, and the load that runs once and caches its result.
 * The environment (the .env file and the process variables) is an input.
 */
module SmtpConfig {
  import opened Wrappers
  import opened Ascii

  /** config.SMTPConfig */
  datatype Config = Config(from: string, password: string, hostAlt: string, host: string,
                           port: string, security: string, domain: string)

  /** The required variables. */
  datatype Variable = SmtpEmail | SmtpPassword | SmtpHost | SmtpPort

  /** A variable's name in the environment and in the report. */
  function Name(v: Variable): string {
    match v
    case SmtpEmail => "SMTP_EMAIL"
    case SmtpPassword => "SMTP_PASSWORD"
    case SmtpHost => "SMTP_HOST"
    case SmtpPort => "SMTP_PORT"
  }

  /** The required variables, in the order they are reported. */
  const Required: seq<Variable> := [SmtpEmail, SmtpPassword, SmtpHost, SmtpPort]

  /** The value a required variable stands for. */
  function Field(c: Config, v: Variable): string {
    match v
    case SmtpEmail => c.from
    case SmtpPassword => c.password
    case SmtpHost => c.host
    case SmtpPort => c.port
  }

  /** The names of the required variables that are empty, one check after the other. */
  function MissingNames(c: Config): seq<string> {
    (if c.from == "" then ["SMTP_EMAIL"] else [])
    + ((if c.password == "" then ["SMTP_PASSWORD"] else [])
       + ((if c.host == "" then ["SMTP_HOST"] else [])
          + (if c.port == "" then ["SMTP_PORT"] else [])))
  }

  /** checkMissingFields */
  function CheckMissingFields(c: Config): (r: string)
    ensures r == "" <==> c.from != "" && c.password != "" && c.host != "" && c.port != ""
    ensures r != "" ==> r == "\U{274C} " + Join(MissingNames(c), ", ")
  {
    var missing := MissingNames(c);
    if missing == [] then "" else "\U{274C} " + Join(missing, ", ")
  }

  /** The names of the given variables whose value is empty. */
  function EmptyOf(c: Config, vs: seq<Variable>): seq<string> {
    if vs == [] then [] else (if Field(c, vs[0]) == "" then [Name(vs[0])] else []) + EmptyOf(c, vs[1..])
  }

  /** The reported names are exactly the required ones whose value is empty, in the fixed order. */
  lemma {:induction false} MissingNamesInOrder(c: Config)
    ensures MissingNames(c) == EmptyOf(c, Required)
  {
    EmptyOfCons(c, SmtpPort, []);
    EmptyOfCons(c, SmtpHost, [SmtpPort]);
    EmptyOfCons(c, SmtpPassword, [SmtpHost, SmtpPort]);
    EmptyOfCons(c, SmtpEmail, [SmtpPassword, SmtpHost, SmtpPort]);
  }

  lemma EmptyOfCons(c: Config, v: Variable, rest: seq<Variable>)
    ensures EmptyOf(c, [v] + rest) == (if Field(c, v) == "" then [Name(v)] else []) + EmptyOf(c, rest)
  {
    assert ([v] + rest)[1..] == rest;
  }

  /** SMTP_HOST_ALT, SMTP_SECURITY and DOMAIN are never reported. */
  lemma OptionalFieldsIgnored(c: Config, hostAlt: string, security: string, domain: string)
    ensures CheckMissingFields(c.(hostAlt := hostAlt, security := security, domain := domain)) == CheckMissingFields(c)
  {
  }

  /** With only the password missing, the message is the one name after the marker. */
  lemma OnlyPasswordMissing(c: Config)
    requires c.from != "" && c.password == "" && c.host != "" && c.port != ""
    ensures CheckMissingFields(c) == "\U{274C} SMTP_PASSWORD"
  {
  }

  /** With every required value empty, all four names appear in order. */
  lemma AllMissing(c: Config)
    requires c.from == "" && c.password == "" && c.host == "" && c.port == ""
    ensures CheckMissingFields(c) == "\U{274C} " + ("SMTP_EMAIL" + ", " + ("SMTP_PASSWORD" + ", " + ("SMTP_HOST" + ", " + "SMTP_PORT")))
  {
    assert MissingNames(c) == ["SMTP_EMAIL"] + (["SMTP_PASSWORD"] + (["SMTP_HOST"] + ["SMTP_PORT"]));
    JoinCons("SMTP_HOST", ["SMTP_PORT"], ", ");
    JoinCons("SMTP_PASSWORD", ["SMTP_HOST"] + ["SMTP_PORT"], ", ");
    JoinCons("SMTP_EMAIL", ["SMTP_PASSWORD"] + (["SMTP_HOST"] + ["SMTP_PORT"]), ", ");
  }

  /* ---------- the load-once cache ---------- */

  /** The package-level `once` and `smtpConfig`. */
  datatype Loader = Loader(done: bool, cached: Option<Config>)

  /** What LoadSMTPConfig returns: the configuration pointer (None for nil) and the error. */
  datatype Loaded = Loaded(config: Option<Config>, err: Option<string>)

  const Initial: Loader := Loader(false, None)

  /**
   * As written: the first call reads the environment, keeps the settings or
   * clears them and returns an error; every later call returns the cached
   * pointer with a nil error.
   */
  function Load(l: Loader, env: Config): (Loader, Loaded) {
    if l.done then (l, Loaded(l.cached, None))
    else
      var missing := CheckMissingFields(env);
      if missing != "" then (Loader(true, None), Loaded(None, Some("\U{274C} Missing required SMTP config fields: " + missing)))
      else (Loader(true, Some(env)), Loaded(Some(env), None))
  }

  /** LoadSMTPConfig over the package state. */
  class SmtpLoader {
    var done: bool
    var cached: Option<Config>

    constructor ()
      ensures !done && cached.None?
    {
      done := false;
      cached := None;
    }

    method LoadSmtpConfig(env: Config) returns (r: Loaded)
      modifies this
      ensures (Loader(done, cached), r) == Load(Loader(old(done), old(cached)), env)
    {
      if !done {
        done := true;
        cached := Some(env);
        var missing := CheckMissingFields(env);
        if missing != "" {
          cached := None;
          return Loaded(None, Some("\U{274C} Missing required SMTP config fields: " + missing));
        }
        return Loaded(cached, None);
      }
      return Loaded(cached, None);
    }
  }

  /** The environment is read once: whatever it holds on later calls, they return the first call's settings. */
  lemma {:induction false} LoadedOnce(env1: Config, env2: Config)
    ensures var (l1, r1) := Load(Initial, env1);
      var (l2, r2) := Load(l1, env2);
      l2 == l1 && r2.config == r1.config
    ensures Load(Initial, env1).1.err.None? <==> CheckMissingFields(env1) == ""
    ensures Load(Initial, env1).1.config.Some? ==> Load(Initial, env1).1.config.value == env1
  {
  }

  /** Finding, as written: after a failed first load, a later call reports neither settings nor an error. */
  lemma {:induction false} FailedLoadLaterNilNil(env1: Config, env2: Config)
    requires CheckMissingFields(env1) != ""
    ensures Load(Initial, env1).1.err.Some?
    ensures Load(Load(Initial, env1).0, env2).1 == Loaded(None, None)
  {
  }

  /** The evident intent: the first call's error is cached along with the settings. */
  datatype CorrectedLoader = CorrectedLoader(done: bool, cached: Option<Config>, err: Option<string>)

  const CorrectedInitial: CorrectedLoader := CorrectedLoader(false, None, None)

  function CorrectedLoad(l: CorrectedLoader, env: Config): (CorrectedLoader, Loaded) {
    if l.done then (l, Loaded(l.cached, l.err))
    else
      var missing := CheckMissingFields(env);
      if missing != "" then
        var e := Some("\U{274C} Missing required SMTP config fields: " + missing);
        (CorrectedLoader(true, None, e), Loaded(None, e))
      else (CorrectedLoader(true, Some(env), None), Loaded(Some(env), None))
  }

  /**
   * Corrected: every call returns either settings or an error, never
   * neither, and later calls repeat the first call's answer.
   */
  lemma {:induction false} CorrectedLoadAnswers(env1: Config, env2: Config)
    ensures var (l1, r1) := CorrectedLoad(CorrectedInitial, env1);
      var (l2, r2) := CorrectedLoad(l1, env2);
      r2 == r1 && (r1.config.Some? <==> r1.err.None?)
    ensures CorrectedLoad(CorrectedInitial, env1).1 == Load(Initial, env1).1
  {
  }
}
