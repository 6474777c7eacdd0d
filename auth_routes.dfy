/** The request checks that routes/authRoutes.mjs puts in front of the
    identity handlers: the body validators of register, login and reset,
    the rate-limiter configuration chosen from the environment, and the
    `GET /reset-password/:token` probe that tells the reset page whether a
    token is still good.

    The validators follow express-validator: every validator of a chain
    runs and each failing one contributes its own message, a missing field
    is validated as the empty string, `optional()` skips a field only when
    it is absent, and `isLength` counts code points without the emoji
    presentation selectors U+FE0E and U+FE0F. */
module AuthRoutes {
  import opened Common
  import opened Tables
  import Identity

  // ---------------------------------------------------------------------
  // Lengths and the password pattern
  // ---------------------------------------------------------------------

  predicate IsPresentationSelector(c: char) {
    c == '\U{FE0E}' || c == '\U{FE0F}'
  }

  /** The length `isLength` compares with its bounds. */
  function ValidatorLength(s: string): (n: nat)
    ensures n <= |s|
    ensures (forall i :: 0 <= i < |s| ==> !IsPresentationSelector(s[i])) ==> n == |s|
  {
    |s| - Count(s, IsPresentationSelector)
  }

  /** The characters that end a line for a JavaScript regular expression;
      `.` matches every character but these. */
  predicate IsLineTerminator(c: char) {
    c == '\n' || c == '\r' || c == '\U{2028}' || c == '\U{2029}'
  }

  /** The longest prefix without a line terminator: the part of the input
      that a lookahead `(?=.*X)` anchored at the start can look into. */
  function FirstLine(s: string): (r: string)
    ensures r <= s
    ensures forall i :: 0 <= i < |r| ==> !IsLineTerminator(r[i])
    ensures |r| < |s| ==> IsLineTerminator(s[|r|])
  {
    if s == [] || IsLineTerminator(s[0]) then [] else [s[0]] + FirstLine(s[1..])
  }

  /** Whether some character of `s` lies in the range `lo`..`hi`. */
  function HasInRange(s: string, lo: char, hi: char): (b: bool)
    ensures b <==> exists i :: 0 <= i < |s| && lo <= s[i] <= hi
  {
    if s == [] then false
    else if lo <= s[0] <= hi then true
    else
      var b := HasInRange(s[1..], lo, hi);
      assert b ==> exists i :: 0 <= i < |s| && lo <= s[i] <= hi by {
        if b {
          var j :| 0 <= j < |s[1..]| && lo <= s[1..][j] <= hi;
          assert s[j + 1] == s[1..][j];
        }
      }
      assert (exists i :: 0 <= i < |s| && lo <= s[i] <= hi) ==> b by {
        if exists i :: 0 <= i < |s| && lo <= s[i] <= hi {
          var i :| 0 <= i < |s| && lo <= s[i] <= hi;
          assert i != 0;
          assert s[1..][i - 1] == s[i];
        }
      }
      b
  }

  /** The pattern `/^(?=.*[a-z])(?=.*[A-Z])(?=.*\d)/`: all three classes
      occur on the first line. */
  predicate MatchesPasswordPattern(p: string) {
    var line := FirstLine(p);
    HasInRange(line, 'a', 'z') && HasInRange(line, 'A', 'Z') && HasInRange(line, '0', '9')
  }

  /** What one lookahead `(?=.*[lo-hi])` at the start of `p` accepts, stated
      directly: a character of the class with no line terminator before it. */
  predicate LookaheadFinds(p: string, lo: char, hi: char) {
    exists j :: 0 <= j < |p| && lo <= p[j] <= hi && forall k :: 0 <= k < j ==> !IsLineTerminator(p[k])
  }

  /** The first-line reading of the pattern agrees with the lookahead
      semantics, class by class. */
  lemma FirstLineFinds(p: string, lo: char, hi: char)
    requires !(lo <= '\n' <= hi) && !(lo <= '\r' <= hi) && !(lo <= '\U{2028}' <= hi) && !(lo <= '\U{2029}' <= hi)
    ensures HasInRange(FirstLine(p), lo, hi) <==> LookaheadFinds(p, lo, hi)
  {
    var line := FirstLine(p);
    assert HasInRange(line, lo, hi) ==> LookaheadFinds(p, lo, hi) by {
      if HasInRange(line, lo, hi) {
        var j :| 0 <= j < |line| && lo <= line[j] <= hi;
        assert p[j] == line[j];
        assert forall k :: 0 <= k < j ==> p[k] == line[k];
      }
    }
    assert LookaheadFinds(p, lo, hi) ==> HasInRange(line, lo, hi) by {
      if LookaheadFinds(p, lo, hi) {
        var j :| 0 <= j < |p| && lo <= p[j] <= hi && forall k :: 0 <= k < j ==> !IsLineTerminator(p[k]);
        if |line| <= j {
          assert false;
        }
        assert line[j] == p[j];
      }
    }
  }

  // ---------------------------------------------------------------------
  // Body validators
  // ---------------------------------------------------------------------

  const UsernameTooShort: string := "Username must be at least 3 characters long"
  const InvalidEmail: string := "Invalid email format"
  const PasswordTooShort: string := "Password must be at least 8 characters long"
  const PasswordTooWeak: string := "Password must contain at least one uppercase letter, one lowercase letter, and one number"
  const FullNameEmpty: string := "Full name cannot be empty"
  const EmailOrUsernameRequired: string := "Please provide email or username"
  const PasswordRequired: string := "Please enter password"

  const MinUsernameLength: nat := 3
  const MinPasswordLength: nat := 8

  /** The body fields the validators look at; `None` is an absent field. */
  datatype Body = Body(username: Option<string>, email: Option<string>, password: Option<string>, fullName: Option<string>)

  /** The password chain shared by register and reset. */
  function PasswordErrors(password: Option<string>): (errs: seq<string>)
    ensures errs == [] <==>
      var p := OrElse(password, "");
      ValidatorLength(p) >= MinPasswordLength &&
      LookaheadFinds(p, 'a', 'z') && LookaheadFinds(p, 'A', 'Z') && LookaheadFinds(p, '0', '9')
    ensures forall e :: e in errs ==> e == PasswordTooShort || e == PasswordTooWeak
  {
    var p := OrElse(password, "");
    FirstLineFinds(p, 'a', 'z');
    FirstLineFinds(p, 'A', 'Z');
    FirstLineFinds(p, '0', '9');
    (if ValidatorLength(p) >= MinPasswordLength then [] else [PasswordTooShort]) +
    (if MatchesPasswordPattern(p) then [] else [PasswordTooWeak])
  }

  /** `registerValidation`; whether the email passes `isEmail` is given as
      `emailIsValid`. */
  function RegisterErrors(b: Body, emailIsValid: bool): (errs: seq<string>)
    ensures errs == [] <==>
      ValidatorLength(Trim(OrElse(b.username, ""))) >= MinUsernameLength &&
      emailIsValid &&
      PasswordErrors(b.password) == [] &&
      (b.fullName.Some? ==> Trim(b.fullName.value) != "")
  {
    var username := if ValidatorLength(Trim(OrElse(b.username, ""))) >= MinUsernameLength then [] else [UsernameTooShort];
    var email := if emailIsValid then [] else [InvalidEmail];
    var password := PasswordErrors(b.password);
    var fullName := if b.fullName.None? || Trim(b.fullName.value) != "" then [] else [FullNameEmpty];
    assert |username + email + password + fullName| == |username| + |email| + |password| + |fullName|;
    username + email + password + fullName
  }

  /** `loginValidation`: email and username are optional on their own, but
      one of them must be truthy, and the password must not be empty. */
  function LoginErrors(b: Body): (errs: seq<string>)
    ensures errs == [] <==> (Truthy(b.email) || Truthy(b.username)) && b.password.Some? && b.password.value != ""
    ensures EmailOrUsernameRequired in errs <==> !Truthy(b.email) && !Truthy(b.username)
  {
    (if !Truthy(b.email) && !Truthy(b.username) then [EmailOrUsernameRequired] else []) +
    (if OrElse(b.password, "") != "" then [] else [PasswordRequired])
  }

  /** `resetPasswordValidation`: the same password rule as registration. */
  function ResetErrors(b: Body): (errs: seq<string>)
    ensures errs == [] <==> PasswordErrors(b.password) == []
  {
    PasswordErrors(b.password)
  }

  /** A password that registration accepts is accepted by reset, and the
      reverse for every other part of a valid registration body. */
  lemma RegisterAndResetAgree(b: Body, emailIsValid: bool)
    requires ValidatorLength(Trim(OrElse(b.username, ""))) >= MinUsernameLength && emailIsValid
    requires b.fullName.None?
    ensures RegisterErrors(b, emailIsValid) == [] <==> ResetErrors(b) == []
  {
  }

  /** What the register route makes of a body: `validateRequest` refuses
      it with the chain's messages, or `register` runs on the sanitized
      body. The reply `validateRequest` builds is not part of this model. */
  datatype Routed = Refused(errors: seq<string>) | Handled(store: Store, reply: Identity.Reply)

  /** `body('full_name').optional().trim()`: a present full name is
      replaced by its trimmed text, an absent one stays absent. */
  function SanitizedFullName(f: Option<string>): (r: Option<string>)
    ensures r.None? <==> f.None?
    ensures r.Some? ==> r.value == Trim(f.value)
  {
    match f
    case None => None
    case Some(n) => Some(Trim(n))
  }

  /** `POST /register`: the validators, then `register` on the body as the
      sanitizers left it, the username and full name trimmed. `hashed` is
      bcrypt's hash of the password. */
  function RegisterRoute(s: Store, b: Body, emailIsValid: bool, hashed: string, verificationToken: string,
                         cfg: Identity.JwtConfig, now: nat): (r: Routed)
    ensures r.Refused? <==> RegisterErrors(b, emailIsValid) != []
    ensures r.Refused? ==> r.errors == RegisterErrors(b, emailIsValid)
  {
    var errs := RegisterErrors(b, emailIsValid);
    if errs != [] then Refused(errs)
    else
      var out := Identity.RegisterSpec(s, Trim(OrElse(b.username, "")), OrElse(b.email, ""), hashed,
                                       SanitizedFullName(b.fullName), verificationToken, cfg, now);
      Handled(out.0, out.1)
  }

  /** A body that passes the validators is registered under its trimmed
      username: the duplicate check compares the trimmed name (so
      `" alice "` is refused with 409 once `alice` exists), and a new
      account stores the trimmed username and the trimmed full name. */
  lemma RegisterRouteTrimsNames(s: Store, b: Body, emailIsValid: bool, hashed: string, verificationToken: string,
                                cfg: Identity.JwtConfig, now: nat)
    requires RegisterErrors(b, emailIsValid) == []
    ensures var r := RegisterRoute(s, b, emailIsValid, hashed, verificationToken, cfg, now);
            var name := Trim(OrElse(b.username, ""));
            && r.Handled?
            && (r.reply.status == 409 <==>
                  exists u :: u in s.users && (u.email == OrElse(b.email, "") || u.username == name))
            && (r.reply.status == 409 ==> r.store == s)
            && (r.reply.status != 409 ==>
                  && r.reply.status == 201
                  && r.store.users == s.users + [Identity.NewUser(s.nextUserId, name, OrElse(b.email, ""), hashed,
                                                                  SanitizedFullName(b.fullName))])
  {
  }

  /** For a password on one line and without presentation selectors the
      rule is the plain one: at least 8 characters, with a lower-case
      letter, an upper-case letter and a digit somewhere. */
  lemma PlainPasswordRule(p: string)
    requires forall i :: 0 <= i < |p| ==> !IsLineTerminator(p[i]) && !IsPresentationSelector(p[i])
    ensures PasswordErrors(Some(p)) == [] <==>
      |p| >= 8 &&
      (exists i :: 0 <= i < |p| && 'a' <= p[i] <= 'z') &&
      (exists i :: 0 <= i < |p| && 'A' <= p[i] <= 'Z') &&
      (exists i :: 0 <= i < |p| && '0' <= p[i] <= '9')
  {
    assert FirstLine(p) == p;
  }

  /** A line break hides the classes after it: a password whose first line
      has no upper-case letter is refused as too weak, however many
      upper-case letters follow the break (`"abcdefgh\nA1"`, say), because
      `.` stops at the break. */
  lemma LineBreakHidesClasses(q: string, c: char, r: string)
    requires IsLineTerminator(c)
    requires forall i :: 0 <= i < |q| ==> !('A' <= q[i] <= 'Z')
    ensures PasswordTooWeak in PasswordErrors(Some(q + [c] + r))
  {
    var p := q + [c] + r;
    forall j | 0 <= j < |p| && 'A' <= p[j] <= 'Z'
      ensures |q| < j && IsLineTerminator(p[|q|])
    {
    }
    FirstLineFinds(p, 'A', 'Z');
  }

  // ---------------------------------------------------------------------
  // Rate limiters
  // ---------------------------------------------------------------------

  const Minute: nat := 60 * 1000
  const Hour: nat := 60 * Minute

  const TooManyLogins: string := "Too many login attempts, please try again after 15 minutes"
  const TooManyRegistrations: string := "Too many registration attempts, please try again after 1 hour"
  const TooManyResets: string := "Too many password reset requests, please try again after 1 hour"

  datatype LimitedRoute = LoginLimiter | RegisterLimiter | ForgotPasswordLimiter

  /** The options a `rateLimit` call receives: window, maximum per window,
      the rejection message, and whether requests bypass the limiter. */
  datatype Limiter = Limiter(windowMs: nat, max: nat, message: string, skip: bool)

  predicate EnvEquals(env: map<string, string>, key: string, value: string) {
    key in env && env[key] == value
  }

  /** The limiter each route is built with, given the process environment. */
  function LimiterFor(route: LimitedRoute, env: map<string, string>): (r: Limiter)
    ensures r.skip <==> EnvEquals(env, "DISABLE_RATE_LIMIT", "true")
    ensures r.windowMs == (if route.LoginLimiter? then 15 * Minute else Hour)
  {
    var production := EnvEquals(env, "NODE_ENV", "production");
    var skip := EnvEquals(env, "DISABLE_RATE_LIMIT", "true");
    match route
    case LoginLimiter => Limiter(15 * Minute, if production then 5 else 20, TooManyLogins, skip)
    case RegisterLimiter => Limiter(Hour, if production then 3 else 20, TooManyRegistrations, skip)
    case ForgotPasswordLimiter => Limiter(Hour, if production then 3 else 10, TooManyResets, skip)
  }

  /** Production is stricter than any other `NODE_ENV`, and only the maximum
      depends on it: the window and the skip switch do not. */
  lemma ProductionIsStricter(route: LimitedRoute, prod: map<string, string>, dev: map<string, string>)
    requires EnvEquals(prod, "NODE_ENV", "production") && !EnvEquals(dev, "NODE_ENV", "production")
    ensures LimiterFor(route, prod).max < LimiterFor(route, dev).max
    ensures LimiterFor(route, prod).max == (if route.LoginLimiter? then 5 else 3)
    ensures LimiterFor(route, dev).max == (match route case LoginLimiter => 20 case RegisterLimiter => 20 case ForgotPasswordLimiter => 10)
    ensures LimiterFor(route, prod).windowMs == LimiterFor(route, dev).windowMs
    ensures EnvEquals(prod, "DISABLE_RATE_LIMIT", "true") == EnvEquals(dev, "DISABLE_RATE_LIMIT", "true") ==>
            LimiterFor(route, prod).skip == LimiterFor(route, dev).skip
  {
  }

  // ---------------------------------------------------------------------
  // GET /reset-password/:token
  // ---------------------------------------------------------------------

  const ResetLinkInvalidOrExpired: string := "Reset password link is invalid or expired"
  const TokenIsValid: string := "Token is valid"

  datatype Reply = Reply(status: nat, message: string)

  /** The reply of the reset-page probe. */
  function ResetTokenCheckSpec(s: Store, token: string, now: nat): (r: Reply)
    ensures r.status == 200 <==>
      exists u :: u in s.users && u.resetToken == Some(token) && u.resetExpires.Some? && now < u.resetExpires.value
    ensures r.status != 200 ==> r == Reply(400, ResetLinkInvalidOrExpired)
    ensures r.status == 200 ==> r.message == TokenIsValid
  {
    if Identity.ResetHolder(s.users, token, now).None? then Reply(400, ResetLinkInvalidOrExpired)
    else Reply(200, TokenIsValid)
  }

  /** The handler only reads the store: it has no `modifies` clause. */
  method CheckResetToken(db: Db, token: string, now: nat) returns (r: Reply)
    ensures r == ResetTokenCheckSpec(db.Contents(), token, now)
  {
    var holder := Identity.ResetHolder(db.users, token, now);
    if holder.None? {
      return Reply(400, ResetLinkInvalidOrExpired);
    }
    r := Reply(200, TokenIsValid);
  }

  /** The probe predicts the reset: at the same moment, the page reports the
      token valid exactly when posting a new password with it succeeds. */
  lemma CheckPredictsReset(s: Store, token: string, hashed: string, now: nat)
    ensures ResetTokenCheckSpec(s, token, now).status == 200 <==>
            Identity.ResetPasswordSpec(s, token, hashed, now).1.status == 200
  {
  }
}
