/** The identity lifecycle of controllers/authController.mjs: register, login,
    refresh, logout, profile, verify-email, resend-verification,
    forgot-password and reset-password.

    Each handler is a specification function from the store before the
    request to the store after it and the reply, and a method that performs
    the handler's statements one by one on the shared `Db` and is proved to
    end in the state and reply the specification gives.

    Collaborators are inputs: `hashed` is what bcrypt made of the submitted
    password, `compare` is bcrypt's comparison, random tokens are string
    arguments, and `Delivery` says whether the email was sent. */
module Identity {
  import opened Common
  import opened Tables
  import Gate

  // ---------------------------------------------------------------------------
  // Constants and replies

  /** Token lifetimes in milliseconds. */
  const HourMs: nat := 60 * 60 * 1000
  const VerificationTtl: nat := 24 * HourMs
  const ResetTtl: nat := HourMs
  const RefreshTtl: nat := 7 * 24 * HourMs

  /** The `JWT_EXPIRES_IN` and `REFRESH_TOKEN_EXPIRES_IN` settings. */
  datatype JwtConfig = JwtConfig(accessExpiresIn: string, refreshExpiresIn: string)

  /** The outcome of handing an email to the mail transport. */
  datatype Delivery = Delivered | Failed(reason: string)

  /** The user columns returned by the registration insert. */
  datatype NewUserView = NewUserView(id: nat, username: string, email: string, fullName: Option<string>, role: Role, isVerified: bool)

  /** The user object of a successful login. */
  datatype LoginView = LoginView(id: nat, username: string, email: string, role: Role, fullName: Option<string>, status: string)

  /** The user columns of the profile query (bio and timestamps left out). */
  datatype ProfileView = ProfileView(id: nat, username: string, email: string, fullName: Option<string>, avatarUrl: Option<string>, role: Role)

  datatype Data =
    | NoData
    | Registered(user: NewUserView, accessToken: Jwt, refreshToken: Jwt)
    | LoggedIn(account: LoginView, accessToken: Jwt, refreshToken: Jwt)
    | Refreshed(newAccessToken: Jwt)
    | ProfileOf(profile: ProfileView)

  /** A JSON reply: the HTTP status, the message, the `requiresVerification`
      flag of an unverified login, and the `data` object. */
  datatype Reply = Reply(status: nat, message: string, requiresVerification: bool, data: Data)

  function Error(status: nat, message: string): Reply {
    Reply(status, message, false, NoData)
  }

  const AccountExists: string := "Email or username already exists"
  const RegisteredMessage: string := "Registration successful. Please check your email to verify your account."
  const IdentifierRequired: string := "Please provide email or username"
  const AccountLocked: string := "This account has been locked. Please contact the administrator"
  const VerifyFirst: string := "Please verify your email before logging in. Check your email for the verification link."
  const RefreshInvalid: string := "Refresh token is invalid or expired"
  const ResetLinkSent: string := "Password reset link has been sent to your email"
  const SendFailed: string := "Failed to send email"
  const PasswordReset: string := "Password has been reset successfully"
  const TokenRequired: string := "Verification token is required"
  const EmailVerified: string := "Email verified successfully"
  const VerificationSent: string := "Verification email has been sent"
  const ResendFailed: string := "Failed to send verification email. Please try again later."
  const EmailNotFound: string := "Email not found"
  const EmailRequired: string := "Email is required"
  const LoggedOut: string := "Logout successful"
  const LoginSucceeded: string := "Login successful"
  const UserNotFound: string := "User not found"
  const BadCredentials: string := "Invalid email or password"
  const AlreadyVerified: string := "Email has already been verified"
  const WrongLinkType: string := "Invalid verification link type"
  const LinkExpired: string := "Verification link has expired. Please request a new verification email."
  const LinkInvalid: string := "Verification link is invalid or has expired"
  const ResetLinkInvalid: string := "Reset password link is invalid or has expired"

  /** `jwt.sign({ userId }, secret, { expiresIn })` at time `now` (milliseconds). */
  function Sign(userId: nat, expiresIn: string, now: nat): (t: Jwt)
    ensures t.userId == userId && t.expiresIn == expiresIn
  {
    Jwt(userId, now / 1000, expiresIn)
  }

  /** The `status` column the login query derives from `is_locked`. */
  function AccountStatus(isLocked: bool): (status: string)
    ensures status == "locked" <==> isLocked
    ensures status == "active" <==> !isLocked
  {
    if isLocked then "locked" else "active"
  }

  /** Every refresh-token row holds a token signed for the row's own user, as
      register and login store them. */
  predicate RefreshRowsSignedForOwner(rows: seq<RefreshToken>) {
    forall t :: t in rows ==> t.token.userId == t.userId
  }

  // ---------------------------------------------------------------------------
  // register

  /** `SELECT id FROM users WHERE email = $1 OR username = $2` found a row. */
  function AccountTaken(users: seq<User>, email: string, username: string): (taken: bool)
    ensures taken <==> exists u :: u in users && (u.email == email || u.username == username)
  {
    First(users, (u: User) => u.email == email || u.username == username).Some?
  }

  function NewUser(id: nat, username: string, email: string, hashed: string, fullName: Option<string>): User {
    User(id, username, email, hashed, NullIfFalsy(fullName), None, Reader, false, false, None, None)
  }

  /** The store and reply after `register`. The email outcome is not an input:
      a failed send is only logged. */
  function RegisterSpec(s: Store, username: string, email: string, hashed: string, fullName: Option<string>,
                        verificationToken: string, cfg: JwtConfig, now: nat): (out: (Store, Reply))
    ensures out.1.status == 409 <==> AccountTaken(s.users, email, username)
    ensures out.1.status == 409 ==> out == (s, Error(409, AccountExists))
    ensures out.1.status != 409 ==> out.1.status == 201 && out.1.data.Registered?
  {
    if AccountTaken(s.users, email, username) then
      (s, Error(409, AccountExists))
    else
      var u := NewUser(s.nextUserId, username, email, hashed, fullName);
      var refresh := Sign(u.id, cfg.refreshExpiresIn, now);
      (s.(users := s.users + [u],
          verificationTokens := s.verificationTokens + [VerificationToken(u.id, verificationToken, EmailVerification, now + VerificationTtl)],
          refreshTokens := s.refreshTokens + [RefreshToken(u.id, refresh, now + RefreshTtl)],
          nextUserId := s.nextUserId + 1),
       Reply(201, RegisteredMessage, false,
             Registered(NewUserView(u.id, u.username, u.email, u.fullName, u.role, u.isVerified),
                        Sign(u.id, cfg.accessExpiresIn, now), refresh)))
  }

  /** A successful registration appends exactly one unverified, unlocked
      `user` account with the next id, one 24-hour email verification token
      and one 7-day refresh token for it, and changes nothing else; the reply
      carries tokens signed for the new id. */
  lemma RegisterCreatesAccount(s: Store, username: string, email: string, hashed: string, fullName: Option<string>,
                               verificationToken: string, cfg: JwtConfig, now: nat)
    requires !AccountTaken(s.users, email, username)
    ensures var (s', r) := RegisterSpec(s, username, email, hashed, fullName, verificationToken, cfg, now);
            var id := s.nextUserId;
            && r.status == 201 && r.data.user.id == id
            && r.data.accessToken.userId == id && r.data.refreshToken.userId == id
            && |s'.users| == |s.users| + 1 && s'.users[..|s.users|] == s.users
            && s'.users[|s.users|].id == id && s'.users[|s.users|].email == email
            && s'.users[|s.users|].username == username && s'.users[|s.users|].password == hashed
            && s'.users[|s.users|].role == Reader && !s'.users[|s.users|].isVerified && !s'.users[|s.users|].isLocked
            && s'.verificationTokens == s.verificationTokens + [VerificationToken(id, verificationToken, EmailVerification, now + VerificationTtl)]
            && s'.refreshTokens == s.refreshTokens + [RefreshToken(id, r.data.refreshToken, now + RefreshTtl)]
            && s' == s.(users := s'.users, verificationTokens := s'.verificationTokens,
                        refreshTokens := s'.refreshTokens, nextUserId := id + 1)
  {
    var u := NewUser(s.nextUserId, username, email, hashed, fullName);
    assert (s.users + [u])[..|s.users|] == s.users;
  }

  /** Registration keeps the store well formed, keeps emails and usernames
      unique, and stores only refresh tokens signed for their row's user. */
  lemma RegisterPreservesInvariants(s: Store, username: string, email: string, hashed: string, fullName: Option<string>,
                                    verificationToken: string, cfg: JwtConfig, now: nat)
    requires WellFormed(s) && IdentitiesUnique(s.users) && RefreshRowsSignedForOwner(s.refreshTokens)
    ensures var s' := RegisterSpec(s, username, email, hashed, fullName, verificationToken, cfg, now).0;
            WellFormed(s') && IdentitiesUnique(s'.users) && RefreshRowsSignedForOwner(s'.refreshTokens)
  {
    if !AccountTaken(s.users, email, username) {
      var s' := RegisterSpec(s, username, email, hashed, fullName, verificationToken, cfg, now).0;
      var u := NewUser(s.nextUserId, username, email, hashed, fullName);
      assert s'.users == s.users + [u];
      forall i, j | 0 <= i < j < |s'.users|
        ensures s'.users[i].id != s'.users[j].id
        ensures s'.users[i].email != s'.users[j].email && s'.users[i].username != s'.users[j].username
      {
        if j == |s.users| {
          assert s'.users[i] == s.users[i] && s.users[i] in s.users;
        }
      }
    }
  }

  method Register(db: Db, username: string, email: string, hashed: string, fullName: Option<string>,
                  verificationToken: string, mail: Delivery, cfg: JwtConfig, now: nat) returns (r: Reply)
    modifies db
    ensures (db.Contents(), r) == RegisterSpec(old(db.Contents()), username, email, hashed, fullName, verificationToken, cfg, now)
  {
    if AccountTaken(db.users, email, username) {
      return Error(409, AccountExists);
    }
    var user := NewUser(db.nextUserId, username, email, hashed, fullName);
    db.users := db.users + [user];
    db.nextUserId := db.nextUserId + 1;
    db.verificationTokens := db.verificationTokens + [VerificationToken(user.id, verificationToken, EmailVerification, now + VerificationTtl)];
    // The verification email is sent here; a failure is logged and ignored,
    // since the account can still be verified after a resend.
    var accessToken := Sign(user.id, cfg.accessExpiresIn, now);
    var refreshToken := Sign(user.id, cfg.refreshExpiresIn, now);
    db.refreshTokens := db.refreshTokens + [RefreshToken(user.id, refreshToken, now + RefreshTtl)];
    r := Reply(201, RegisteredMessage, false,
               Registered(NewUserView(user.id, user.username, user.email, user.fullName, user.role, user.isVerified),
                          accessToken, refreshToken));
  }

  // ---------------------------------------------------------------------------
  // login

  /** The account a login looks up: by email when an email is given, else by
      username; `None` also when neither is given. */
  function LoginAccount(users: seq<User>, email: Option<string>, username: Option<string>): (r: Option<User>)
    ensures Truthy(email) ==> r == UserByEmail(users, email.value)
    ensures !Truthy(email) && Truthy(username) ==> r == UserByUsername(users, username.value)
    ensures !Truthy(email) && !Truthy(username) ==> r.None?
  {
    if Truthy(email) then UserByEmail(users, email.value)
    else if Truthy(username) then UserByUsername(users, username.value)
    else None
  }

  /** The store and reply after `login`. */
  function LoginSpec(s: Store, email: Option<string>, username: Option<string>, password: string,
                     compare: (string, string) -> bool, cfg: JwtConfig, ip: string, userAgent: Option<string>,
                     now: nat): (out: (Store, Reply))
    ensures out.1.status in {200, 400, 401, 403}
    ensures out.1.status != 200 ==> out.0 == s
  {
    if !Truthy(email) && !Truthy(username) then
      (s, Error(400, IdentifierRequired))
    else
      match LoginAccount(s.users, email, username)
      case None => (s, Error(401, BadCredentials))
      case Some(user) =>
        if user.isLocked then
          (s, Error(403, AccountLocked))
        else if !compare(password, user.password) then
          (s, Error(401, BadCredentials))
        else if !user.isVerified then
          (s, Reply(403, VerifyFirst, true, NoData))
        else
          var refresh := Sign(user.id, cfg.refreshExpiresIn, now);
          (s.(refreshTokens := s.refreshTokens + [RefreshToken(user.id, refresh, now + RefreshTtl)],
              sessions := s.sessions + [Session(user.id, ip, OrElse(userAgent, ""), now)]),
           Reply(200, LoginSucceeded, false,
                 LoggedIn(LoginView(user.id, user.username, user.email, user.role, user.fullName, AccountStatus(user.isLocked)),
                          Sign(user.id, cfg.accessExpiresIn, now), refresh)))
  }

  /** How `login` decides: 400 without an identifier; 401 for an unknown
      account or, on an unlocked account, a wrong password; 403 for a locked
      account; 403 with `requiresVerification` for a correct password on an
      unverified account; otherwise 200, recording one refresh token and one
      session for the account and nothing else. */
  lemma LoginOutcomes(s: Store, email: Option<string>, username: Option<string>, password: string,
                      compare: (string, string) -> bool, cfg: JwtConfig, ip: string, userAgent: Option<string>, now: nat)
    ensures var (s', r) := LoginSpec(s, email, username, password, compare, cfg, ip, userAgent, now);
            var a := LoginAccount(s.users, email, username);
            && (r.status == 400 <==> !Truthy(email) && !Truthy(username))
            && (r.status == 401 <==> (Truthy(email) || Truthy(username)) &&
                                     (a.None? || (!a.value.isLocked && !compare(password, a.value.password))))
            && (r.status == 401 ==> r == Error(401, BadCredentials))
            && (r.status == 403 && !r.requiresVerification <==> a.Some? && a.value.isLocked)
            && (r.requiresVerification <==> a.Some? && !a.value.isLocked && compare(password, a.value.password) && !a.value.isVerified)
            && (r.status == 200 <==> a.Some? && !a.value.isLocked && compare(password, a.value.password) && a.value.isVerified)
            && (r.status == 200 ==>
                  && r.data.LoggedIn?
                  && r.data.account == LoginView(a.value.id, a.value.username, a.value.email, a.value.role, a.value.fullName, "active")
                  && r.data.refreshToken.userId == a.value.id && r.data.accessToken.userId == a.value.id
                  && s' == s.(refreshTokens := s.refreshTokens + [RefreshToken(a.value.id, r.data.refreshToken, now + RefreshTtl)],
                              sessions := s.sessions + [Session(a.value.id, ip, OrElse(userAgent, ""), now)]))
  {
  }

  method Login(db: Db, email: Option<string>, username: Option<string>, password: string,
               compare: (string, string) -> bool, cfg: JwtConfig, ip: string, userAgent: Option<string>,
               now: nat) returns (r: Reply)
    modifies db
    ensures (db.Contents(), r) == LoginSpec(old(db.Contents()), email, username, password, compare, cfg, ip, userAgent, now)
  {
    var found: Option<User>;
    if Truthy(email) {
      found := UserByEmail(db.users, email.value);
    } else if Truthy(username) {
      found := UserByUsername(db.users, username.value);
    } else {
      return Error(400, IdentifierRequired);
    }
    if found.None? {
      return Error(401, BadCredentials);
    }
    var user := found.value;
    if user.isLocked {
      return Error(403, AccountLocked);
    }
    if !compare(password, user.password) {
      return Error(401, BadCredentials);
    }
    if !user.isVerified {
      return Reply(403, VerifyFirst, true, NoData);
    }
    var accessToken := Sign(user.id, cfg.accessExpiresIn, now);
    var refreshToken := Sign(user.id, cfg.refreshExpiresIn, now);
    db.refreshTokens := db.refreshTokens + [RefreshToken(user.id, refreshToken, now + RefreshTtl)];
    db.sessions := db.sessions + [Session(user.id, ip, OrElse(userAgent, ""), now)];
    r := Reply(200, LoginSucceeded, false,
               LoggedIn(LoginView(user.id, user.username, user.email, user.role, user.fullName, AccountStatus(user.isLocked)),
                        accessToken, refreshToken));
  }

  /** A locked account is refused before its password is compared: the reply
      and the store are the same whatever the password and the comparison say. */
  lemma LockedAccountIgnoresPassword(s: Store, email: Option<string>, username: Option<string>,
                                     p1: string, p2: string, c1: (string, string) -> bool, c2: (string, string) -> bool,
                                     cfg: JwtConfig, ip: string, userAgent: Option<string>, now: nat)
    requires LoginAccount(s.users, email, username).Some? && LoginAccount(s.users, email, username).value.isLocked
    ensures LoginSpec(s, email, username, p1, c1, cfg, ip, userAgent, now) == LoginSpec(s, email, username, p2, c2, cfg, ip, userAgent, now)
    ensures LoginSpec(s, email, username, p1, c1, cfg, ip, userAgent, now).1.status == 403
  {
  }

  /** An unknown account and a wrong password get byte-identical replies. */
  lemma LoginDoesNotRevealAccounts(s1: Store, s2: Store, email: Option<string>, username: Option<string>,
                                   p1: string, p2: string, c1: (string, string) -> bool, c2: (string, string) -> bool,
                                   cfg: JwtConfig, ip: string, userAgent: Option<string>, now: nat)
    requires Truthy(email) || Truthy(username)
    requires LoginAccount(s1.users, email, username).None?
    requires var a := LoginAccount(s2.users, email, username); a.Some? && !a.value.isLocked && !c2(p2, a.value.password)
    ensures LoginSpec(s1, email, username, p1, c1, cfg, ip, userAgent, now).1 == LoginSpec(s2, email, username, p2, c2, cfg, ip, userAgent, now).1
  {
  }

  /** When both are given, the email decides which account is tried. */
  lemma LoginPrefersEmail(s: Store, email: string, username: Option<string>, password: string,
                          compare: (string, string) -> bool, cfg: JwtConfig, ip: string, userAgent: Option<string>, now: nat)
    requires email != ""
    ensures LoginSpec(s, Some(email), username, password, compare, cfg, ip, userAgent, now)
         == LoginSpec(s, Some(email), None, password, compare, cfg, ip, userAgent, now)
  {
  }

  // ---------------------------------------------------------------------------
  // refresh-token

  /** The reply of `refreshToken`: a new access token for the owner of the
      first stored refresh token equal to the submitted one and expiring
      strictly after `now`, else 401. The handler only reads the table. */
  function RefreshReply(rows: seq<RefreshToken>, token: Option<Jwt>, cfg: JwtConfig, now: nat): (r: Reply)
    ensures r.status == 200 <==> token.Some? && exists t :: t in rows && t.token == token.value && now < t.expiresAt
    ensures r.status != 200 ==> r == Error(401, RefreshInvalid)
    ensures r.status == 200 ==>
              exists t :: t in rows && t.token == token.value && now < t.expiresAt &&
                          r.data == Refreshed(Sign(t.userId, cfg.accessExpiresIn, now))
  {
    if token.None? then Error(401, RefreshInvalid)
    else
      match First(rows, (t: RefreshToken) => t.token == token.value && now < t.expiresAt)
      case None => Error(401, RefreshInvalid)
      case Some(t) => Reply(200, "", false, Refreshed(Sign(t.userId, cfg.accessExpiresIn, now)))
  }

  // ---------------------------------------------------------------------------
  // logout

  /** `DELETE FROM refresh_tokens WHERE user_id = $1` with `$1` taken from
      `req.userId`; a missing value is bound as NULL, which equals no row. */
  function DeleteRefreshTokensWhere(rows: seq<RefreshToken>, userId: Option<nat>): (r: seq<RefreshToken>)
    ensures forall t :: t in r <==> t in rows && (userId.None? || t.userId != userId.value)
    ensures userId.None? ==> r == rows
  {
    Filter(rows, (t: RefreshToken) => userId.None? || t.userId != userId.value)
  }

  /** `logout` as written: it reads `req.userId`, which no middleware sets. */
  method LogoutAsWritten(db: Db, req: Gate.Request) returns (r: Reply)
    modifies db
    ensures db.Contents() == old(db.Contents()).(refreshTokens := DeleteRefreshTokensWhere(old(db.refreshTokens), req.userId))
    ensures r == Error(200, LoggedOut)
  {
    db.refreshTokens := DeleteRefreshTokensWhere(db.refreshTokens, req.userId);
    r := Error(200, LoggedOut);
  }

  /** The revocation `logout` is meant to perform: every refresh token of the
      user goes, every other user's stays. */
  function RevokeRefreshTokens(rows: seq<RefreshToken>, userId: nat): (r: seq<RefreshToken>)
    ensures forall t :: t in r <==> t in rows && t.userId != userId
    ensures |r| <= |rows|
  {
    DeleteRefreshTokensWhere(rows, Some(userId))
  }

  /** `logout` reading the authenticated user's id from `req.user`. */
  method Logout(db: Db, userId: nat) returns (r: Reply)
    modifies db
    ensures db.Contents() == old(db.Contents()).(refreshTokens := RevokeRefreshTokens(old(db.refreshTokens), userId))
    ensures r == Error(200, LoggedOut)
  {
    db.refreshTokens := RevokeRefreshTokens(db.refreshTokens, userId);
    r := Error(200, LoggedOut);
  }

  /** As written, a logout that passed the gate deletes nothing: a refresh
      token that worked before it still works after it. */
  lemma LogoutAsWrittenRevokesNothing(rows: seq<RefreshToken>, req: Gate.Request, verify: string -> Option<nat>,
                                      users: seq<User>, token: Jwt, cfg: JwtConfig, now: nat)
    requires req.userId.None?
    requires Gate.AuthenticateToken(req, verify, users).Proceed?
    requires RefreshReply(rows, Some(token), cfg, now).status == 200
    ensures var passed := Gate.AuthenticateToken(req, verify, users).req;
            RefreshReply(DeleteRefreshTokensWhere(rows, passed.userId), Some(token), cfg, now).status == 200
  {
    Gate.GateLeavesUserIdUnset(req, verify, users);
  }

  /** After the intended logout, no refresh token signed for that user is
      accepted any more, and other users' tokens are accepted as before. */
  lemma LogoutEndsRefresh(rows: seq<RefreshToken>, userId: nat, token: Jwt, cfg: JwtConfig, now: nat)
    requires RefreshRowsSignedForOwner(rows)
    ensures token.userId == userId ==> RefreshReply(RevokeRefreshTokens(rows, userId), Some(token), cfg, now).status == 401
    ensures token.userId != userId ==>
              RefreshReply(RevokeRefreshTokens(rows, userId), Some(token), cfg, now).status == RefreshReply(rows, Some(token), cfg, now).status
  {
    var after := RevokeRefreshTokens(rows, userId);
    if token.userId != userId && RefreshReply(rows, Some(token), cfg, now).status == 200 {
      var t :| t in rows && t.token == token && now < t.expiresAt;
      assert t in after;
    }
  }

  // ---------------------------------------------------------------------------
  // profile

  /** `getProfile` as written: it looks the user up by `req.userId`, bound as
      NULL when missing, so only a request carrying that field finds anyone. */
  function ProfileAsWritten(users: seq<User>, req: Gate.Request): (r: Reply)
    ensures req.userId.None? ==> r == Error(404, UserNotFound)
  {
    if req.userId.None? then Error(404, UserNotFound) else Profile(users, req.userId.value)
  }

  /** The profile of the user with id `userId`, or 404. */
  function Profile(users: seq<User>, userId: nat): (r: Reply)
    ensures r.status == 404 <==> forall u :: u in users ==> u.id != userId
    ensures r.status != 404 ==>
              r.status == 200 && r.data.ProfileOf? &&
              exists u :: u in users && u.id == userId &&
                          r.data.profile == ProfileView(u.id, u.username, u.email, u.fullName, u.avatarUrl, u.role)
  {
    match UserById(users, userId)
    case None => Error(404, UserNotFound)
    case Some(u) => Reply(200, "", false, ProfileOf(ProfileView(u.id, u.username, u.email, u.fullName, u.avatarUrl, u.role)))
  }

  /** As written, every authenticated request for the profile gets 404, even
      though the gate has just found the user. */
  lemma ProfileAsWrittenNeverFound(users: seq<User>, req: Gate.Request, verify: string -> Option<nat>)
    requires req.userId.None?
    requires Gate.AuthenticateToken(req, verify, users).Proceed?
    ensures var passed := Gate.AuthenticateToken(req, verify, users).req;
            && passed.user.value in users
            && ProfileAsWritten(users, passed).status == 404
            && Profile(users, passed.user.value.id).status == 200
  {
    Gate.GateLeavesUserIdUnset(req, verify, users);
  }

  // ---------------------------------------------------------------------------
  // forgot-password and reset-password

  /** `UPDATE users SET reset_password_token = $1, reset_password_expires = $2 WHERE email = $3`. */
  function SetResetFields(users: seq<User>, email: string, token: Option<string>, expires: Option<int>): (r: seq<User>)
    ensures |r| == |users|
    ensures forall i :: 0 <= i < |users| ==>
              r[i] == if users[i].email == email then users[i].(resetToken := token, resetExpires := expires) else users[i]
  {
    UpdateWhere(users, (u: User) => u.email == email, (u: User) => u.(resetToken := token, resetExpires := expires))
  }

  /** The store and reply after `forgotPassword`. */
  function ForgotPasswordSpec(s: Store, email: string, resetToken: string, mail: Delivery, now: nat): (out: (Store, Reply))
    ensures out.1.status == 404 <==> forall u :: u in s.users ==> u.email != email
    ensures out.1.status == 404 ==> out.0 == s
    ensures out.1.status == 200 <==> (exists u :: u in s.users && u.email == email) && mail.Delivered?
    ensures out.1.status == 200 ==> out.0 == s.(users := SetResetFields(s.users, email, Some(resetToken), Some(now + ResetTtl)))
    ensures out.1.status == 500 <==> (exists u :: u in s.users && u.email == email) && mail.Failed?
    ensures out.1.status == 500 ==> out.0 == s.(users := SetResetFields(s.users, email, None, None))
    ensures out.0.users != s.users ==> |out.0.users| == |s.users|
  {
    if UserByEmail(s.users, email).None? then
      (s, Error(404, EmailNotFound))
    else if mail.Delivered? then
      (s.(users := SetResetFields(s.users, email, Some(resetToken), Some(now + ResetTtl))),
       Error(200, ResetLinkSent))
    else
      (s.(users := SetResetFields(s.users, email, None, None)),
       Error(500, if mail.reason != "" then mail.reason else SendFailed))
  }

  /** Two reset-field updates on the same email leave what the second one wrote. */
  lemma SetResetFieldsTwice(users: seq<User>, email: string, t1: Option<string>, e1: Option<int>, t2: Option<string>, e2: Option<int>)
    ensures SetResetFields(SetResetFields(users, email, t1, e1), email, t2, e2) == SetResetFields(users, email, t2, e2)
  {
    var a := SetResetFields(SetResetFields(users, email, t1, e1), email, t2, e2);
    var b := SetResetFields(users, email, t2, e2);
    assert forall i :: 0 <= i < |users| ==> a[i] == b[i];
  }

  method ForgotPassword(db: Db, email: string, resetToken: string, mail: Delivery, now: nat) returns (r: Reply)
    modifies db
    ensures (db.Contents(), r) == ForgotPasswordSpec(old(db.Contents()), email, resetToken, mail, now)
  {
    if UserByEmail(db.users, email).None? {
      return Error(404, EmailNotFound);
    }
    db.users := SetResetFields(db.users, email, Some(resetToken), Some(now + ResetTtl));
    if mail.Delivered? {
      return Error(200, ResetLinkSent);
    }
    // The send failed: revert the token columns, then report the failure.
    SetResetFieldsTwice(old(db.users), email, Some(resetToken), Some(now + ResetTtl), None, None);
    db.users := SetResetFields(db.users, email, None, None);
    r := Error(500, if mail.reason != "" then mail.reason else SendFailed);
  }

  /** A failed forgot-password leaves the account with no pending reset at
      all: a reset link sent earlier is invalidated too. */
  lemma ForgotFailureClearsEarlierReset(s: Store, email: string, resetToken: string, reason: string, now: nat, i: nat)
    requires i < |s.users| && s.users[i].email == email
    ensures var after := ForgotPasswordSpec(s, email, resetToken, Failed(reason), now).0;
            after.users[i].resetToken.None? && after.users[i].resetExpires.None? &&
            after.users[i] == s.users[i].(resetToken := None, resetExpires := None)
  {
  }

  /** `SELECT id FROM users WHERE reset_password_token = $1 AND reset_password_expires > NOW()`. */
  function ResetHolder(users: seq<User>, token: string, now: nat): (r: Option<User>)
    ensures r.Some? ==> r.value in users && r.value.resetToken == Some(token) && r.value.resetExpires.Some? && now < r.value.resetExpires.value
    ensures r.None? <==> forall u :: u in users ==> !(u.resetToken == Some(token) && u.resetExpires.Some? && now < u.resetExpires.value)
  {
    First(users, (u: User) => u.resetToken == Some(token) && u.resetExpires.Some? && now < u.resetExpires.value)
  }

  /** `UPDATE users SET password = $1, reset_password_token = NULL,
      reset_password_expires = NULL WHERE reset_password_token = $2`: the
      update matches on the token alone, expired or not. */
  function ApplyNewPassword(users: seq<User>, token: string, hashed: string): (r: seq<User>)
    ensures |r| == |users|
    ensures forall i :: 0 <= i < |users| ==>
              r[i] == if users[i].resetToken == Some(token)
                      then users[i].(password := hashed, resetToken := None, resetExpires := None)
                      else users[i]
  {
    UpdateWhere(users, (u: User) => u.resetToken == Some(token),
                (u: User) => u.(password := hashed, resetToken := None, resetExpires := None))
  }

  /** The store and reply after `resetPassword`. */
  function ResetPasswordSpec(s: Store, token: string, hashed: string, now: nat): (out: (Store, Reply))
    ensures out.1.status == 400 <==> ResetHolder(s.users, token, now).None?
    ensures out.1.status == 400 ==> out.0 == s && out.1.message == ResetLinkInvalid
    ensures out.1.status != 400 ==> out.1.status == 200 && out.0 == s.(users := ApplyNewPassword(s.users, token, hashed))
    ensures out.1.status == 200 ==> forall u :: u in out.0.users ==> u.resetToken != Some(token)
  {
    if ResetHolder(s.users, token, now).None? then
      (s, Error(400, ResetLinkInvalid))
    else
      var users' := ApplyNewPassword(s.users, token, hashed);
      assert forall u :: u in users' ==> u.resetToken != Some(token);
      (s.(users := users'), Error(200, PasswordReset))
  }

  method ResetPassword(db: Db, token: string, hashed: string, now: nat) returns (r: Reply)
    modifies db
    ensures (db.Contents(), r) == ResetPasswordSpec(old(db.Contents()), token, hashed, now)
  {
    var holder := ResetHolder(db.users, token, now);
    if holder.None? {
      return Error(400, ResetLinkInvalid);
    }
    db.users := ApplyNewPassword(db.users, token, hashed);
    r := Error(200, PasswordReset);
  }

  /** A reset token works once: after a successful reset the same token is refused. */
  lemma ResetTokenSingleUse(s: Store, token: string, h1: string, h2: string, now: nat, later: nat)
    requires ResetPasswordSpec(s, token, h1, now).1.status == 200
    ensures var s1 := ResetPasswordSpec(s, token, h1, now).0;
            ResetPasswordSpec(s1, token, h2, later).1.status == 400 &&
            ResetPasswordSpec(s1, token, h2, later).0 == s1
  {
    var s1 := ResetPasswordSpec(s, token, h1, now).0;
    assert ResetHolder(s1.users, token, later).None?;
  }

  /** Forgot-password followed, within the hour, by a reset with the mailed
      token replaces that user's password and clears both reset columns. */
  lemma ForgotThenReset(s: Store, email: string, resetToken: string, hashed: string, t0: nat, t1: nat, i: nat)
    requires i < |s.users| && s.users[i].email == email
    requires forall u :: u in s.users && u.email != email ==> u.resetToken != Some(resetToken)
    requires t1 < t0 + ResetTtl
    ensures var s1 := ForgotPasswordSpec(s, email, resetToken, Delivered, t0).0;
            var out := ResetPasswordSpec(s1, resetToken, hashed, t1);
            && out.1.status == 200
            && out.0.users[i] == s.users[i].(password := hashed, resetToken := None, resetExpires := None)
  {
    var s1 := ForgotPasswordSpec(s, email, resetToken, Delivered, t0).0;
    assert s1.users[i].resetToken == Some(resetToken) && s1.users[i].resetExpires == Some(t0 + ResetTtl);
    assert s1.users[i] in s1.users;
    assert ResetHolder(s1.users, resetToken, t1).Some?;
  }

  // ---------------------------------------------------------------------------
  // verify-email

  /** The row the verification query joins to its user: the token matches,
      its type is `email_verification`, it expires after `now`, and its user exists. */
  function LiveVerification(s: Store, token: string, now: nat): (r: Option<VerificationToken>)
    ensures r.Some? ==> r.value in s.verificationTokens && r.value.token == token && r.value.kind == EmailVerification &&
                        now < r.value.expiresAt && UserById(s.users, r.value.userId).Some?
    ensures r.None? <==> forall v :: v in s.verificationTokens && v.token == token && v.kind == EmailVerification && now < v.expiresAt
                                     ==> UserById(s.users, v.userId).None?
  {
    var users := s.users;
    First(s.verificationTokens, (v: VerificationToken) =>
      v.token == token && v.kind == EmailVerification && now < v.expiresAt && UserById(users, v.userId).Some?)
  }

  /** The row the fallback query joins to its user: any type, any expiry. */
  function AnyVerification(s: Store, token: string): (r: Option<VerificationToken>)
    ensures r.Some? ==> r.value in s.verificationTokens && r.value.token == token && UserById(s.users, r.value.userId).Some?
    ensures r.None? <==> forall v :: v in s.verificationTokens && v.token == token ==> UserById(s.users, v.userId).None?
  {
    var users := s.users;
    First(s.verificationTokens, (v: VerificationToken) => v.token == token && UserById(users, v.userId).Some?)
  }

  /** `DELETE FROM verification_tokens WHERE token = $1`. */
  function DeleteVerificationToken(rows: seq<VerificationToken>, token: string): (r: seq<VerificationToken>)
    ensures forall v :: v in r <==> v in rows && v.token != token
  {
    Filter(rows, (v: VerificationToken) => v.token != token)
  }

  /** `UPDATE users SET is_verified = true WHERE id = $1`. */
  function MarkVerified(users: seq<User>, userId: nat): (r: seq<User>)
    ensures |r| == |users|
    ensures forall i :: 0 <= i < |users| ==>
              r[i] == if users[i].id == userId then users[i].(isVerified := true) else users[i]
  {
    UpdateWhere(users, (u: User) => u.id == userId, (u: User) => u.(isVerified := true))
  }

  /** The 400 reply of the fallback path, when no live row matched: the
      token's row is inspected for the wrong type, then an already verified
      user, then expiry; anything else gets the generic message. */
  function VerificationFailure(s: Store, token: string, now: nat): (r: Reply)
    ensures r.status == 400
    ensures r.message == WrongLinkType <==> AnyVerification(s, token).Some? && AnyVerification(s, token).value.kind != EmailVerification
    ensures AnyVerification(s, token).None? ==> r.message == LinkInvalid
    ensures AnyVerification(s, token).Some? && AnyVerification(s, token).value.kind == EmailVerification ==>
              var v := AnyVerification(s, token).value;
              var u := UserById(s.users, v.userId).value;
              && (u.isVerified ==> r == Error(400, AlreadyVerified))
              && (!u.isVerified && v.expiresAt < now ==> r == Error(400, LinkExpired))
              && (!u.isVerified && now <= v.expiresAt ==> r == Error(400, LinkInvalid))
  {
    match AnyVerification(s, token)
    case None => Error(400, LinkInvalid)
    case Some(v) =>
      if v.kind != EmailVerification then Error(400, WrongLinkType)
      else if UserById(s.users, v.userId).value.isVerified then Error(400, AlreadyVerified)
      else if v.expiresAt < now then Error(400, LinkExpired)
      else Error(400, LinkInvalid)
  }

  /** The store and reply after `verifyEmail`. */
  function VerifyEmailSpec(s: Store, token: Option<string>, now: nat): (out: (Store, Reply))
    ensures out.1.status in {200, 400}
  {
    if !Truthy(token) then
      (s, Error(400, TokenRequired))
    else
      var t := token.value;
      match LiveVerification(s, t, now)
      case None => (s, VerificationFailure(s, t, now))
      case Some(v) =>
        var user := UserById(s.users, v.userId).value;
        if user.isVerified then
          (s.(verificationTokens := DeleteVerificationToken(s.verificationTokens, t)), Error(400, AlreadyVerified))
        else
          (s.(users := MarkVerified(s.users, v.userId), verificationTokens := DeleteVerificationToken(s.verificationTokens, t)),
           Error(200, EmailVerified))
  }

  /** How `verifyEmail` decides: 400 without a token; when no live
      `email_verification` row matches, the fallback reply and no change;
      when one does, every row with that token is deleted and its user is
      marked verified (200), or, already verified, left as it is (400).
      Nothing else changes. */
  lemma VerifyEmailOutcomes(s: Store, token: Option<string>, now: nat)
    ensures var out := VerifyEmailSpec(s, token, now);
            && (!Truthy(token) ==> out == (s, Error(400, TokenRequired)))
            && (Truthy(token) && LiveVerification(s, token.value, now).None? ==>
                  out == (s, VerificationFailure(s, token.value, now)))
            && (out.0 != s ==>
                  && Truthy(token) && LiveVerification(s, token.value, now).Some?
                  && out.0.verificationTokens == DeleteVerificationToken(s.verificationTokens, token.value)
                  && out.0 == s.(users := out.0.users, verificationTokens := out.0.verificationTokens))
            && (out.1.status == 200 <==>
                  Truthy(token) && LiveVerification(s, token.value, now).Some? &&
                  !UserById(s.users, LiveVerification(s, token.value, now).value.userId).value.isVerified)
            && (out.1.status == 200 ==>
                  out.0.users == MarkVerified(s.users, LiveVerification(s, token.value, now).value.userId))
            && (Truthy(token) && LiveVerification(s, token.value, now).Some? && out.1.status == 400 ==>
                  out.1.message == AlreadyVerified && out.0.users == s.users)
  {
  }

  method VerifyEmail(db: Db, token: Option<string>, now: nat) returns (r: Reply)
    modifies db
    ensures (db.Contents(), r) == VerifyEmailSpec(old(db.Contents()), token, now)
  {
    if !Truthy(token) {
      return Error(400, TokenRequired);
    }
    var t := token.value;
    var before := db.Contents();
    var live := LiveVerification(before, t, now);
    if live.None? {
      return VerificationFailure(before, t, now);
    }
    var user := UserById(db.users, live.value.userId).value;
    if user.isVerified {
      // The token was already used: delete it and refuse.
      db.verificationTokens := DeleteVerificationToken(db.verificationTokens, t);
      assert db.Contents() == before.(verificationTokens := db.verificationTokens);
      return Error(400, AlreadyVerified);
    }
    db.users := MarkVerified(db.users, live.value.userId);
    db.verificationTokens := DeleteVerificationToken(db.verificationTokens, t);
    assert db.Contents() == before.(users := db.users, verificationTokens := db.verificationTokens);
    r := Error(200, EmailVerified);
  }

  /** A token that has expired, of whatever type, changes nothing. When
      every row with the token is an `email_verification` row of an
      unverified user that expired before now, the reply says the link has
      expired. */
  lemma ExpiredVerificationChangesNothing(s: Store, token: string, now: nat)
    requires forall v :: v in s.verificationTokens && v.token == token ==> v.expiresAt <= now
    ensures VerifyEmailSpec(s, Some(token), now).0 == s
    ensures VerifyEmailSpec(s, Some(token), now).1.status == 400
    ensures token != "" &&
            (exists v :: v in s.verificationTokens && v.token == token && UserById(s.users, v.userId).Some?) &&
            (forall v :: v in s.verificationTokens && v.token == token ==>
                           v.kind == EmailVerification && v.expiresAt < now &&
                           (UserById(s.users, v.userId).Some? ==> !UserById(s.users, v.userId).value.isVerified))
            ==> VerifyEmailSpec(s, Some(token), now).1 == Error(400, LinkExpired)
  {
  }

  /** A verification token is consumed by its first use: any later use is refused. */
  lemma VerificationTokenSingleUse(s: Store, token: string, now: nat, later: nat)
    requires VerifyEmailSpec(s, Some(token), now).1.status == 200
    ensures var s1 := VerifyEmailSpec(s, Some(token), now).0;
            VerifyEmailSpec(s1, Some(token), later) == (s1, Error(400, LinkInvalid))
  {
    var s1 := VerifyEmailSpec(s, Some(token), now).0;
    assert forall v :: v in s1.verificationTokens ==> v.token != token;
    TokenGone(s1, token, later);
  }

  /** With no row left for a token, both lookups miss and the link is invalid. */
  lemma TokenGone(s: Store, token: string, now: nat)
    requires token != ""
    requires forall v :: v in s.verificationTokens ==> v.token != token
    ensures VerifyEmailSpec(s, Some(token), now) == (s, Error(400, LinkInvalid))
  {
    assert LiveVerification(s, token, now).None?;
    assert AnyVerification(s, token).None?;
  }

  // ---------------------------------------------------------------------------
  // resend-verification

  /** `DELETE FROM verification_tokens WHERE user_id = $1 AND type = 'email_verification'`. */
  function DeleteUserVerifications(rows: seq<VerificationToken>, userId: nat): (r: seq<VerificationToken>)
    ensures forall v :: v in r <==> v in rows && !(v.userId == userId && v.kind == EmailVerification)
  {
    Filter(rows, (v: VerificationToken) => !(v.userId == userId && v.kind == EmailVerification))
  }

  /** The store and reply after `resendVerificationEmail`. */
  function ResendVerificationSpec(s: Store, email: Option<string>, token: string, mail: Delivery, now: nat): (out: (Store, Reply))
    ensures !Truthy(email) ==> out == (s, Error(400, EmailRequired))
    ensures Truthy(email) ==> (out.1.status == 404 <==> forall u :: u in s.users ==> u.email != email.value)
    ensures out.1.status in {400, 404} ==> out.0 == s
    ensures out.1.status in {200, 500} ==>
              && Truthy(email) && UserByEmail(s.users, email.value).Some?
              && var u := UserByEmail(s.users, email.value).value;
              && !u.isVerified
              && out.0 == s.(verificationTokens := out.0.verificationTokens)
              && (out.1.status == 200 <==> mail.Delivered?)
              && (mail.Delivered? ==>
                    out.0.verificationTokens ==
                      DeleteUserVerifications(s.verificationTokens, u.id) + [VerificationToken(u.id, token, EmailVerification, now + VerificationTtl)])
              && (mail.Failed? ==>
                    out.0.verificationTokens ==
                      DeleteVerificationToken(DeleteUserVerifications(s.verificationTokens, u.id) + [VerificationToken(u.id, token, EmailVerification, now + VerificationTtl)], token))
  {
    if !Truthy(email) then
      (s, Error(400, EmailRequired))
    else
      match UserByEmail(s.users, email.value)
      case None => (s, Error(404, EmailNotFound))
      case Some(u) =>
        if u.isVerified then
          (s, Error(400, AlreadyVerified))
        else
          var issued := DeleteUserVerifications(s.verificationTokens, u.id) + [VerificationToken(u.id, token, EmailVerification, now + VerificationTtl)];
          if mail.Delivered? then
            (s.(verificationTokens := issued), Error(200, VerificationSent))
          else
            (s.(verificationTokens := DeleteVerificationToken(issued, token)),
             Error(500, ResendFailed))
  }

  method ResendVerification(db: Db, email: Option<string>, token: string, mail: Delivery, now: nat) returns (r: Reply)
    modifies db
    ensures (db.Contents(), r) == ResendVerificationSpec(old(db.Contents()), email, token, mail, now)
  {
    if !Truthy(email) {
      return Error(400, EmailRequired);
    }
    var found := UserByEmail(db.users, email.value);
    if found.None? {
      return Error(404, EmailNotFound);
    }
    var user := found.value;
    if user.isVerified {
      return Error(400, AlreadyVerified);
    }
    db.verificationTokens := DeleteUserVerifications(db.verificationTokens, user.id);
    db.verificationTokens := db.verificationTokens + [VerificationToken(user.id, token, EmailVerification, now + VerificationTtl)];
    if mail.Delivered? {
      return Error(200, VerificationSent);
    }
    // The send failed: delete the token just issued, then report the failure.
    db.verificationTokens := DeleteVerificationToken(db.verificationTokens, token);
    r := Error(500, ResendFailed);
  }

  /** A successful resend leaves the user exactly one verification token, the new one. */
  lemma ResendLeavesOneToken(s: Store, email: string, token: string, now: nat)
    requires ResendVerificationSpec(s, Some(email), token, Delivered, now).1.status == 200
    ensures var u := UserByEmail(s.users, email).value;
            var rows := ResendVerificationSpec(s, Some(email), token, Delivered, now).0.verificationTokens;
            forall v :: v in rows && v.userId == u.id && v.kind == EmailVerification ==>
                          v == VerificationToken(u.id, token, EmailVerification, now + VerificationTtl)
  {
  }

  /** A failed resend with a fresh token leaves the user with no verification
      token at all: the earlier links were deleted before the send and the
      new one after it, while every other row survives. */
  lemma ResendFailureLeavesNoToken(s: Store, email: string, token: string, reason: string, now: nat)
    requires ResendVerificationSpec(s, Some(email), token, Failed(reason), now).1.status == 500
    requires forall v :: v in s.verificationTokens ==> v.token != token
    ensures var u := UserByEmail(s.users, email).value;
            var rows := ResendVerificationSpec(s, Some(email), token, Failed(reason), now).0.verificationTokens;
            forall v :: v in rows <==> v in s.verificationTokens && !(v.userId == u.id && v.kind == EmailVerification)
  {
  }

  // ---------------------------------------------------------------------------
  // The lifecycle end to end

  /** After a registration the new account is the one its email finds, and
      the one its id finds. */
  lemma RegisteredAccountFound(s: Store, username: string, email: string, hashed: string, fullName: Option<string>,
                               token: string, cfg: JwtConfig, now: nat)
    requires WellFormed(s)
    requires !AccountTaken(s.users, email, username)
    ensures var s1 := RegisterSpec(s, username, email, hashed, fullName, token, cfg, now).0;
            var u := NewUser(s.nextUserId, username, email, hashed, fullName);
            && s1.users == s.users + [u]
            && UserByEmail(s1.users, email) == Some(u)
            && UserById(s1.users, u.id) == Some(u)
  {
    var u := NewUser(s.nextUserId, username, email, hashed, fullName);
    FirstAppend(s.users, u, (x: User) => x.email == email);
    assert forall x :: x in s.users ==> x.id != u.id;
    FirstAppend(s.users, u, (x: User) => x.id == u.id);
  }

  /** A registration's mailed token, used within a day, verifies the new
      account and nothing else. */
  lemma RegisteredTokenVerifies(s: Store, username: string, email: string, hashed: string, fullName: Option<string>,
                                token: string, cfg: JwtConfig, t0: nat, t1: nat)
    requires WellFormed(s)
    requires !AccountTaken(s.users, email, username)
    requires token != ""
    requires forall v :: v in s.verificationTokens ==> v.token != token
    requires t1 < t0 + VerificationTtl
    ensures var s1 := RegisterSpec(s, username, email, hashed, fullName, token, cfg, t0).0;
            var u := NewUser(s.nextUserId, username, email, hashed, fullName);
            var (s2, r2) := VerifyEmailSpec(s1, Some(token), t1);
            r2.status == 200 && s2.users == s.users + [u.(isVerified := true)]
  {
    var s1 := RegisterSpec(s, username, email, hashed, fullName, token, cfg, t0).0;
    var u := NewUser(s.nextUserId, username, email, hashed, fullName);
    RegisteredAccountFound(s, username, email, hashed, fullName, token, cfg, t0);
    var row := VerificationToken(u.id, token, EmailVerification, t0 + VerificationTtl);
    assert s1.verificationTokens == s.verificationTokens + [row];
    NewRowIsLive(s1, s.verificationTokens, row, t1);
    assert forall i :: 0 <= i < |s.users| ==> s.users[i].id < u.id;
    MarkNewUserVerified(s.users, u);
    VerifyLiveUnverified(s1, token, t1, row, u);
  }

  /** A live token of an unverified user verifies that user. */
  lemma VerifyLiveUnverified(s: Store, token: string, now: nat, v: VerificationToken, u: User)
    requires token != ""
    requires LiveVerification(s, token, now) == Some(v)
    requires UserById(s.users, v.userId) == Some(u) && !u.isVerified
    ensures VerifyEmailSpec(s, Some(token), now).1.status == 200
    ensures VerifyEmailSpec(s, Some(token), now).0.users == MarkVerified(s.users, v.userId)
  {
  }

  /** A matching row appended after rows with other tokens is the live one. */
  lemma NewRowIsLive(s: Store, earlier: seq<VerificationToken>, row: VerificationToken, now: nat)
    requires s.verificationTokens == earlier + [row]
    requires forall v :: v in earlier ==> v.token != row.token
    requires row.kind == EmailVerification && now < row.expiresAt && UserById(s.users, row.userId).Some?
    ensures LiveVerification(s, row.token, now) == Some(row)
  {
    var users := s.users;
    FirstAppend(earlier, row, (v: VerificationToken) =>
      v.token == row.token && v.kind == EmailVerification && now < v.expiresAt && UserById(users, v.userId).Some?);
  }

  /** Marking a user appended after users with other ids verified changes only that user. */
  lemma MarkNewUserVerified(users: seq<User>, u: User)
    requires forall i :: 0 <= i < |users| ==> users[i].id != u.id
    ensures MarkVerified(users + [u], u.id) == users + [u.(isVerified := true)]
  {
    UpdateWhereAppend(users, u, (x: User) => x.id == u.id, (x: User) => x.(isVerified := true));
  }

  /** Logging in to an account that matches by email, is unlocked and whose
      password compares equal: refused with `requiresVerification` and no
      change while unverified, accepted with the account's role once verified. */
  lemma LoginWithGoodPassword(s: Store, email: string, password: string, compare: (string, string) -> bool,
                              cfg: JwtConfig, ip: string, userAgent: Option<string>, now: nat, u: User)
    requires email != ""
    requires UserByEmail(s.users, email) == Some(u) && !u.isLocked && compare(password, u.password)
    ensures var out := LoginSpec(s, Some(email), None, password, compare, cfg, ip, userAgent, now);
            && (!u.isVerified ==> out.1.status == 403 && out.1.requiresVerification && out.0 == s)
            && (u.isVerified ==> out.1.status == 200 && out.1.data.LoggedIn? && out.1.data.account.role == u.role)
  {
  }

  /** Register, then log in before verifying (refused with
      `requiresVerification`, nothing stored), then verify with the mailed
      token within a day, then log in again: it succeeds with role `user`. */
  lemma RegisterVerifyLogin(s: Store, username: string, email: string, password: string, hashed: string,
                            fullName: Option<string>, token: string, compare: (string, string) -> bool,
                            cfg: JwtConfig, ip: string, userAgent: Option<string>, t0: nat, t1: nat)
    requires WellFormed(s)
    requires !AccountTaken(s.users, email, username)
    requires email != "" && token != ""
    requires compare(password, hashed)
    requires forall v :: v in s.verificationTokens ==> v.token != token
    requires t1 < t0 + VerificationTtl
    ensures var s1 := RegisterSpec(s, username, email, hashed, fullName, token, cfg, t0);
            var s2 := LoginSpec(s1.0, Some(email), None, password, compare, cfg, ip, userAgent, t1);
            var s3 := VerifyEmailSpec(s2.0, Some(token), t1);
            var s4 := LoginSpec(s3.0, Some(email), None, password, compare, cfg, ip, userAgent, t1);
            && s1.1.status == 201
            && s2.1.status == 403 && s2.1.requiresVerification && s2.0 == s1.0
            && s3.1.status == 200
            && s4.1.status == 200 && s4.1.data.LoggedIn? && s4.1.data.account.role == Reader
  {
    var s1 := RegisterSpec(s, username, email, hashed, fullName, token, cfg, t0).0;
    var u := NewUser(s.nextUserId, username, email, hashed, fullName);
    RegisteredAccountFound(s, username, email, hashed, fullName, token, cfg, t0);
    LoginWithGoodPassword(s1, email, password, compare, cfg, ip, userAgent, t1, u);
    RegisteredTokenVerifies(s, username, email, hashed, fullName, token, cfg, t0, t1);
    var s3 := VerifyEmailSpec(s1, Some(token), t1).0;
    assert s3.users == s.users + [u.(isVerified := true)];
    assert forall x :: x in s.users ==> x.email != email;
    FirstAppend(s.users, u.(isVerified := true), (x: User) => x.email == email);
    assert UserByEmail(s3.users, email) == Some(u.(isVerified := true));
    LoginWithGoodPassword(s3, email, password, compare, cfg, ip, userAgent, t1, u.(isVerified := true));
  }
}
