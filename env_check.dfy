/** The start-up check of utils/validateEnv.mjs: which configuration
    variables are missing (which stops the server) and which groups are only
    partly set or too weak (which only warns). The process environment is a
    map from names to values; a variable counts as set when it is present and
    not empty, as JavaScript's `!process.env[key]` decides. */
module EnvCheck {
  import opened Common
  import opened Tables

  type Env = map<string, string>

  /** `!!process.env[key]`. */
  predicate IsSet(env: Env, key: string) {
    key in env && env[key] != ""
  }

  /** An entry of the `requiredEnvVars` table. */
  datatype EnvVar = EnvVar(key: string, required: bool, description: string)

  /** One entry of `missing`. */
  datatype Problem = Problem(key: string, description: string)

  /** One entry of `warnings`: its type, its message, and the descriptions
      of the variables it is about (`missing`, absent for the security warning). */
  datatype Warning = Warning(kind: string, message: string, missing: Option<seq<string>>)

  datatype Validation = Validation(isValid: bool, missing: seq<Problem>, warnings: seq<Warning>)

  const JwtSecret: string := "JWT_SECRET"
  const DatabaseUrl: string := "DATABASE_URL"
  const DbVars: seq<string> := ["DB_USER", "DB_HOST", "DB_NAME", "DB_PASSWORD", "DB_PORT"]
  const EmailVars: seq<string> := ["EMAIL_HOST", "EMAIL_USER", "EMAIL_PASS"]
  const CloudinaryVars: seq<string> := ["CLOUDINARY_CLOUD_NAME", "CLOUDINARY_API_KEY", "CLOUDINARY_API_SECRET"]
  const MinSecretLength: nat := 32

  const Incomplete: string := "incomplete"
  const Security: string := "security"
  const DbKey: string := "DATABASE_URL or (DB_USER, DB_HOST, DB_NAME, DB_PASSWORD, DB_PORT)"
  const DbDescription: string :=
    "Either DATABASE_URL connection string OR all individual database variables (DB_USER, DB_HOST, DB_NAME, DB_PASSWORD, DB_PORT) are required"
  const EmailIncomplete: string := "Email configuration is incomplete. Email features may not work properly."
  const CloudinaryIncomplete: string := "Cloudinary configuration is incomplete. Image upload features may not work properly."
  const SecretTooShort: string := "JWT_SECRET is too short. For security, it should be at least 32 characters long."

  const DatabaseUrlText: string := "PostgreSQL database connection string (alternative to DB_USER/DB_HOST/etc.)"
  const DbUserText: string := "PostgreSQL database user (required if not using DATABASE_URL)"
  const DbHostText: string := "PostgreSQL database host (required if not using DATABASE_URL)"
  const DbNameText: string := "PostgreSQL database name (required if not using DATABASE_URL)"
  const DbPasswordText: string := "PostgreSQL database password (required if not using DATABASE_URL)"
  const DbPortText: string := "PostgreSQL database port (required if not using DATABASE_URL)"
  const JwtSecretText: string := "Secret key for JWT token signing"
  const EmailHostText: string := "SMTP server host for email sending"
  const EmailUserText: string := "SMTP username for email sending"
  const EmailPassText: string := "SMTP password/app password for email sending"
  const CloudNameText: string := "Cloudinary cloud name for image storage"
  const ApiKeyText: string := "Cloudinary API key"
  const ApiSecretText: string := "Cloudinary API secret"

  /** The `requiredEnvVars` table, in its declaration order; only
      `JWT_SECRET` is marked required. */
  const RequiredEnvVars: seq<EnvVar> := [
    EnvVar(DatabaseUrl, false, DatabaseUrlText),
    EnvVar(DbVars[0], false, DbUserText),
    EnvVar(DbVars[1], false, DbHostText),
    EnvVar(DbVars[2], false, DbNameText),
    EnvVar(DbVars[3], false, DbPasswordText),
    EnvVar(DbVars[4], false, DbPortText),
    EnvVar(JwtSecret, true, JwtSecretText),
    EnvVar(EmailVars[0], false, EmailHostText),
    EnvVar(EmailVars[1], false, EmailUserText),
    EnvVar(EmailVars[2], false, EmailPassText),
    EnvVar(CloudinaryVars[0], false, CloudNameText),
    EnvVar(CloudinaryVars[1], false, ApiKeyText),
    EnvVar(CloudinaryVars[2], false, ApiSecretText)
  ]

  // ---------------------------------------------------------------------------
  // The pieces of the check

  /** What the loop over the table pushes: each required entry that is not set. */
  function RequiredMissing(vars: seq<EnvVar>, env: Env): (r: seq<Problem>)
    ensures |r| <= |vars|
    decreases |vars|
  {
    if vars == [] then []
    else
      var last := vars[|vars| - 1];
      RequiredMissing(vars[..|vars| - 1], env) +
        (if last.required && !IsSet(env, last.key) then [Problem(last.key, last.description)] else [])
  }

  /** An entry is reported exactly when it is required and not set. */
  lemma {:induction false} RequiredMissingReports(vars: seq<EnvVar>, env: Env)
    ensures forall p :: p in RequiredMissing(vars, env) <==>
              exists v :: v in vars && v.required && !IsSet(env, v.key) && p == Problem(v.key, v.description)
    decreases |vars|
  {
    if vars != [] {
      var init := vars[..|vars| - 1];
      RequiredMissingReports(init, env);
      assert vars == init + [vars[|vars| - 1]];
    }
  }

  /** The configuration has `DATABASE_URL`, or all five `DB_*` variables. */
  predicate DatabaseConfigured(env: Env) {
    IsSet(env, DatabaseUrl) || forall k :: k in DbVars ==> IsSet(env, k)
  }

  /** The five `DB_*` checks of the source, written out one by one, are
      `DatabaseConfigured` without `DATABASE_URL`. */
  lemma DbVarsChecked(env: Env)
    ensures (IsSet(env, DatabaseUrl) || (IsSet(env, DbVars[0]) && IsSet(env, DbVars[1]) && IsSet(env, DbVars[2]) &&
             IsSet(env, DbVars[3]) && IsSet(env, DbVars[4]))) <==> DatabaseConfigured(env)
  {
    if IsSet(env, DbVars[0]) && IsSet(env, DbVars[1]) && IsSet(env, DbVars[2]) && IsSet(env, DbVars[3]) && IsSet(env, DbVars[4]) {
      forall k | k in DbVars
        ensures IsSet(env, k)
      {
        var j :| 0 <= j < |DbVars| && DbVars[j] == k;
      }
    }
  }

  /** `requiredEnvVars[key]?.description || key`. */
  function Describe(key: string): string {
    var hit := First(RequiredEnvVars, (v: EnvVar) => v.key == key);
    if hit.Some? && hit.value.description != "" then hit.value.description else key
  }

  /** `vars.filter(key => !process.env[key])`. */
  function Unset(keys: seq<string>, env: Env): seq<string> {
    Filter(keys, (k: string) => !IsSet(env, k))
  }

  /** The warning for a group that is set only in part, if it is. */
  function PartialWarning(keys: seq<string>, env: Env, message: string): (w: seq<Warning>) {
    var unset := Unset(keys, env);
    if 0 < |unset| < |keys| then [Warning(Incomplete, message, Some(seq(|unset|, i requires 0 <= i < |unset| => Describe(unset[i]))))]
    else []
  }

  function SecretWarning(env: Env): seq<Warning> {
    if IsSet(env, JwtSecret) && |env[JwtSecret]| < MinSecretLength then [Warning(Security, SecretTooShort, None)] else []
  }

  /** The `missing` list: the unset required entries, then the database entry. */
  function MissingSpec(env: Env): seq<Problem> {
    RequiredMissing(RequiredEnvVars, env) + (if DatabaseConfigured(env) then [] else [Problem(DbKey, DbDescription)])
  }

  /** The `warnings` list: email, Cloudinary, then the secret's strength. */
  function WarningsSpec(env: Env): seq<Warning> {
    PartialWarning(EmailVars, env, EmailIncomplete) + PartialWarning(CloudinaryVars, env, CloudinaryIncomplete) +
      SecretWarning(env)
  }

  /** The whole result of `validateEnvironmentVariables`. */
  function ValidateSpec(env: Env): Validation {
    Validation(|MissingSpec(env)| == 0, MissingSpec(env), WarningsSpec(env))
  }

  /** The loop over the table: each required entry that is not set is pushed. */
  method CollectRequiredMissing(vars: seq<EnvVar>, env: Env) returns (missing: seq<Problem>)
    ensures missing == RequiredMissing(vars, env)
  {
    missing := [];
    var i := 0;
    while i < |vars|
      invariant 0 <= i <= |vars|
      invariant missing == RequiredMissing(vars[..i], env)
    {
      var v := vars[i];
      assert vars[..i + 1][..i] == vars[..i];
      if v.required && !IsSet(env, v.key) {
        missing := missing + [Problem(v.key, v.description)];
      }
      i := i + 1;
    }
    assert vars[..i] == vars;
  }

  /** `validateEnvironmentVariables`: a loop over the table collects the
      missing required entries; the database, email, Cloudinary and secret
      checks follow. */
  method ValidateEnvironmentVariables(env: Env) returns (r: Validation)
    ensures r == ValidateSpec(env)
  {
    var missing := CollectRequiredMissing(RequiredEnvVars, env);
    var hasDatabaseUrl := IsSet(env, DatabaseUrl);
    var hasIndividualDbVars := IsSet(env, DbVars[0]) && IsSet(env, DbVars[1]) && IsSet(env, DbVars[2]) &&
                               IsSet(env, DbVars[3]) && IsSet(env, DbVars[4]);
    DbVarsChecked(env);
    if !hasDatabaseUrl && !hasIndividualDbVars {
      missing := missing + [Problem(DbKey, DbDescription)];
    }
    assert missing == MissingSpec(env);
    var emailWarning := PartialWarning(EmailVars, env, EmailIncomplete);
    var cloudinaryWarning := PartialWarning(CloudinaryVars, env, CloudinaryIncomplete);
    var warnings := emailWarning + cloudinaryWarning;
    if IsSet(env, JwtSecret) && |env[JwtSecret]| < MinSecretLength {
      warnings := warnings + [Warning(Security, SecretTooShort, None)];
    } else {
      assert warnings == warnings + SecretWarning(env);
    }
    r := Validation(|missing| == 0, missing, warnings);
  }

  // ---------------------------------------------------------------------------
  // What the check promises

  /** `JWT_SECRET` is the only entry the table marks required: the loop
      reports it, and only it, when it is unset. */
  lemma OnlySecretRequired(env: Env)
    ensures RequiredMissing(RequiredEnvVars, env) ==
              if IsSet(env, JwtSecret) then [] else [Problem(JwtSecret, JwtSecretText)]
  {
    var t := RequiredEnvVars;
    OptionalEntriesAddNothing([], t[..6], env);
    assert [] + t[..6] == t[..6];
    assert t[..7][..6] == t[..6];
    OptionalEntriesAddNothing(t[..7], t[7..], env);
    assert t[..7] + t[7..] == t;
  }

  /** Entries that are not required never add to `missing`. */
  lemma {:induction false} OptionalEntriesAddNothing(init: seq<EnvVar>, rest: seq<EnvVar>, env: Env)
    requires forall v :: v in rest ==> !v.required
    ensures RequiredMissing(init + rest, env) == RequiredMissing(init, env)
    decreases |rest|
  {
    if rest == [] {
      assert init + rest == init;
    } else {
      var all := init + rest;
      assert all[..|all| - 1] == init + rest[..|rest| - 1];
      assert all[|all| - 1] == rest[|rest| - 1];
      OptionalEntriesAddNothing(init, rest[..|rest| - 1], env);
    }
  }

  /** The configuration is valid exactly when `JWT_SECRET` is set and the
      database is configured one way or the other; each failure adds exactly
      one entry to `missing`. */
  lemma ValidIff(env: Env)
    ensures var r := ValidateSpec(env);
            && (r.isValid <==> IsSet(env, JwtSecret) && DatabaseConfigured(env))
            && (r.isValid <==> |r.missing| == 0)
            && |r.missing| == (if IsSet(env, JwtSecret) then 0 else 1) + (if DatabaseConfigured(env) then 0 else 1)
            && (!DatabaseConfigured(env) ==> r.missing[|r.missing| - 1] == Problem(DbKey, DbDescription))
  {
    OnlySecretRequired(env);
  }

  /** A group of variables warns exactly when some but not all of it is set. */
  lemma PartialWarningIff(keys: seq<string>, env: Env, message: string)
    ensures |PartialWarning(keys, env, message)| <= 1
    ensures |PartialWarning(keys, env, message)| == 1 <==>
              (exists k :: k in keys && !IsSet(env, k)) && (exists k :: k in keys && IsSet(env, k))
  {
    var keep := (k: string) => !IsSet(env, k);
    var unset := Unset(keys, env);
    var isSet := (k: string) => IsSet(env, k);
    FilterSplit(keys, isSet, keep);
    FilterCount(keys, keep);
    if exists k :: k in keys && !IsSet(env, k) {
      var k :| k in keys && !IsSet(env, k);
      assert k in unset;
    }
  }

  /** Only the secret's check produces a security warning. */
  lemma OnlySecretWarnsSecurity(env: Env)
    ensures forall v :: v in PartialWarning(EmailVars, env, EmailIncomplete) ==> v.kind == Incomplete
    ensures forall v :: v in PartialWarning(CloudinaryVars, env, CloudinaryIncomplete) ==> v.kind == Incomplete
    ensures (exists v :: v in SecretWarning(env) && v.kind == Security) <==> IsSet(env, JwtSecret) && |env[JwtSecret]| < 32
  {
    if IsSet(env, JwtSecret) && |env[JwtSecret]| < 32 {
      assert SecretWarning(env)[0] in SecretWarning(env);
    }
  }

  /** The warnings: at most one for each incomplete group, and a security
      warning exactly when the secret is set but shorter than 32 characters. */
  lemma WarningsIff(env: Env)
    ensures var w := ValidateSpec(env).warnings;
            && |w| <= 3
            && ((exists v :: v in w && v.kind == Security) <==> IsSet(env, JwtSecret) && |env[JwtSecret]| < 32)
  {
    var e := PartialWarning(EmailVars, env, EmailIncomplete);
    var c := PartialWarning(CloudinaryVars, env, CloudinaryIncomplete);
    var sec := SecretWarning(env);
    var w := ValidateSpec(env).warnings;
    assert w == e + c + sec;
    OnlySecretWarnsSecurity(env);
    SecurityComesLast(e, c, sec);
  }

  /** Two groups of at most one `Incomplete` warning each, then `sec`: a
      security warning in the whole list is one of `sec`. */
  lemma SecurityComesLast(e: seq<Warning>, c: seq<Warning>, sec: seq<Warning>)
    requires |e| <= 1 && |c| <= 1 && |sec| <= 1
    requires forall v :: v in e ==> v.kind == Incomplete
    requires forall v :: v in c ==> v.kind == Incomplete
    ensures |e + c + sec| <= 3
    ensures (exists v :: v in e + c + sec && v.kind == Security) <==> (exists v :: v in sec && v.kind == Security)
  {
    assert forall v :: v in e + c + sec ==> v in e || v in c || v in sec;
  }

  /** `printValidationResults` returns whether the configuration is valid. */
  function PrintValidationResults(results: Validation): (ok: bool) {
    results.isValid
  }

  /** The server refuses to start exactly when `JWT_SECRET` is unset or the
      database is not configured. */
  lemma StartsIff(env: Env)
    ensures PrintValidationResults(ValidateSpec(env)) <==> IsSet(env, JwtSecret) && DatabaseConfigured(env)
  {
    ValidIff(env);
  }
}
