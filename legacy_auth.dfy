/** The older login controller, controllers/authController.js: look the
    account up by email, compare the password, and hand back a 24-hour token
    with the account's id, email and role; plus `checkUserRole`, which tells
    the front end where to send a signed-in user.

    Unlike the login of controllers/authController.mjs, this one answers an
    unknown email and a wrong password differently. */
module LegacyAuth {
  import opened Common
  import opened Tables
  import Identity

  const UserNotFound: string := "User not found."
  const InvalidPassword: string := "Invalid password."
  const CheckRoleFailed: string := "Error checking user role."
  const TokenLifetime: string := "24h"
  const AdminHome: string := "/admin"
  const Home: string := "/"

  /** The `user` object of a successful reply. */
  datatype Account = Account(id: nat, email: string, role: Role)

  datatype Reply = Reply(status: nat, message: string, token: Option<Jwt>, user: Option<Account>)

  /** The reply of `login` for `{ email, password }`; `compare` is bcrypt's. */
  function Login(users: seq<User>, email: string, password: string, compare: (string, string) -> bool, now: nat): (r: Reply)
  {
    match UserByEmail(users, email)
    case None => Reply(404, UserNotFound, None, None)
    case Some(u) =>
      if !compare(password, u.password) then Reply(401, InvalidPassword, None, None)
      else Reply(200, "", Some(Identity.Sign(u.id, TokenLifetime, now)), Some(Account(u.id, u.email, u.role)))
  }

  /** 404 exactly when no account has the email; 401 exactly when it has one
      and the password does not match; otherwise a token for that account
      lasting 24 hours and just its id, email and role. */
  lemma LoginOutcomes(users: seq<User>, email: string, password: string, compare: (string, string) -> bool, now: nat)
    ensures var r := Login(users, email, password, compare, now);
      && (r.status == 404 <==> forall u :: u in users ==> u.email != email)
      && (r.status == 404 ==> r.message == UserNotFound && r.token.None?)
      && (r.status == 401 <==> exists u :: UserByEmail(users, email) == Some(u) && !compare(password, u.password))
      && (r.status == 401 ==> r.message == InvalidPassword && r.token.None?)
      && (r.status != 404 && r.status != 401 ==>
            r.status == 200 &&
            exists u :: u in users && u.email == email && compare(password, u.password) &&
                        r.token == Some(Identity.Sign(u.id, TokenLifetime, now)) &&
                        r.user == Some(Account(u.id, email, u.role)))
  {
    var r := Login(users, email, password, compare, now);
    if r.status == 200 {
      var u := UserByEmail(users, email).value;
      assert u in users && u.email == email;
    }
  }

  /** Account enumeration: for a known email with a wrong password and an
      unknown email, this login gives two different replies, while the
      login of controllers/authController.mjs gives the same 401 to both
      (the known account being unlocked). */
  lemma LegacyRevealsAccounts(s: Store, known: string, unknown: string, password: string,
                              compare: (string, string) -> bool, cfg: Identity.JwtConfig, ip: string, now: nat)
    requires known != "" && unknown != ""
    requires UserByEmail(s.users, known).Some? && !UserByEmail(s.users, known).value.isLocked
    requires !compare(password, UserByEmail(s.users, known).value.password)
    requires UserByEmail(s.users, unknown).None?
    ensures Login(s.users, known, password, compare, now) != Login(s.users, unknown, password, compare, now)
    ensures Identity.LoginSpec(s, Some(known), None, password, compare, cfg, ip, None, now).1 ==
            Identity.LoginSpec(s, Some(unknown), None, password, compare, cfg, ip, None, now).1
  {
  }

  /** The reply of `checkUserRole` for `req.user`. */
  datatype RoleReply = RoleReply(status: nat, role: Option<Role>, redirectUrl: string, message: string)

  /** With no `req.user` the property access throws and the handler answers 500. */
  function CheckUserRole(user: Option<User>): (r: RoleReply)
    ensures r.status == 200 <==> user.Some?
    ensures r.status == 200 ==> r.role == Some(user.value.role) && (r.redirectUrl == AdminHome <==> user.value.role == Admin)
    ensures r.status == 200 && user.value.role != Admin ==> r.redirectUrl == Home
    ensures r.status != 200 ==> r == RoleReply(500, None, "", CheckRoleFailed)
  {
    match user
    case None => RoleReply(500, None, "", CheckRoleFailed)
    case Some(u) => RoleReply(200, Some(u.role), if u.role == Admin then AdminHome else Home, "")
  }
}
