/** The authorization gate of middleware/auth.mjs: extracting the bearer token
    from the `Authorization` header, and the four per-request checks
    (authenticated, admin, editor-or-admin, optional). JWT verification is an
    oracle `verify` that maps a token to the user id it was signed for, or to
    `None` when the signature or the expiry check fails. */
module Gate {
  import opened Common
  import opened Tables

  // ---------------------------------------------------------------------------
  // `authHeader.split(' ')[1]`

  /** JavaScript `s.split(' ')`: the pieces between single spaces, empty
      pieces included. */
  function Split(s: string): (parts: seq<string>)
    ensures |parts| >= 1
    ensures forall k :: 0 <= k < |parts| ==> ' ' !in parts[k]
    decreases |s|
  {
    if s == [] then [""]
    else if s[0] == ' ' then [""] + Split(s[1..])
    else
      var rest := Split(s[1..]);
      [[s[0]] + rest[0]] + rest[1..]
  }

  /** `parts.join(' ')`, the inverse of `Split`. */
  function Join(parts: seq<string>): string
    requires |parts| >= 1
    decreases |parts|
  {
    if |parts| == 1 then parts[0] else parts[0] + " " + Join(parts[1..])
  }

  /** Splitting loses nothing: joining the pieces with single spaces gives the header back. */
  lemma {:induction false} JoinSplit(s: string)
    ensures Join(Split(s)) == s
    decreases |s|
  {
    if s != [] {
      JoinSplit(s[1..]);
      var rest := Split(s[1..]);
      if s[0] == ' ' {
        assert Split(s) == [""] + rest;
        assert Split(s)[1..] == rest;
      } else if |rest| == 1 {
        assert Split(s) == [[s[0]] + rest[0]];
      } else {
        assert Split(s)[1..] == rest[1..];
        assert Join(rest) == rest[0] + " " + Join(rest[1..]);
      }
    }
  }

  /** A word without spaces followed by a space splits off as the first piece. */
  lemma {:induction false} SplitAfterWord(a: string, tail: string)
    requires ' ' !in a
    ensures Split(a + " " + tail) == [a] + Split(tail)
    decreases |a|
  {
    if a == [] {
      assert a + " " + tail == [' '] + tail;
      assert ([' '] + tail)[1..] == tail;
    } else {
      assert (a + " " + tail)[1..] == a[1..] + " " + tail;
      SplitAfterWord(a[1..], tail);
      assert [a[0]] + a[1..] == a;
    }
  }

  /** A word without spaces that ends the text or is followed by a space is the first piece. */
  lemma {:induction false} SplitFirstWord(w: string, rest: string)
    requires ' ' !in w
    requires rest == [] || rest[0] == ' '
    ensures Split(w + rest)[0] == w
    decreases |w|
  {
    if w == [] {
      assert w + rest == rest;
    } else {
      assert (w + rest)[1..] == w[1..] + rest;
      SplitFirstWord(w[1..], rest);
      assert [w[0]] + w[1..] == w;
    }
  }

  /** The token the handlers read from the `Authorization` header: the second
      space-separated piece, when the header is present and that piece is not
      empty. The scheme word in front of it is not checked. */
  function BearerToken(header: Option<string>): (t: Option<string>)
    ensures t.Some? ==> t.value != "" && ' ' !in t.value
    ensures t.Some? ==> Truthy(header) && |Split(header.value)| > 1 && Split(header.value)[1] == t.value
  {
    if !Truthy(header) then None
    else
      var parts := Split(header.value);
      if |parts| > 1 && parts[1] != "" then Some(parts[1]) else None
  }

  /** `<scheme> <token>` yields the token whatever the scheme is, so long as
      the scheme has no space and the token is not empty. */
  lemma BearerTokenOf(scheme: string, token: string, rest: string)
    requires ' ' !in scheme && ' ' !in token
    requires rest == [] || rest[0] == ' '
    ensures BearerToken(Some(scheme + " " + token + rest)) == if token == "" then None else Some(token)
  {
    assert scheme + " " + token + rest == scheme + " " + (token + rest);
    SplitAfterWord(scheme, token + rest);
    SplitFirstWord(token, rest);
  }

  /** A header with no space in it carries no token. */
  lemma {:induction false} NoSpaceNoToken(header: string)
    requires ' ' !in header
    ensures BearerToken(Some(header)).None?
    decreases |header|
  {
    if header != [] {
      NoSpaceNoToken(header[1..]);
    }
  }

  // ---------------------------------------------------------------------------
  // The checks

  /** The parts of an Express request the gate reads and writes: the
      `Authorization` header, `req.user` (set by the gate) and `req.userId`
      (read by some handlers, set by no middleware of this model). */
  datatype Request = Request(authorization: Option<string>, user: Option<User>, userId: Option<nat>)

  /** The outcome of a middleware: the request goes on to the next handler, or
      the chain stops with a status and a message. */
  datatype Verdict = Reject(status: nat, message: string) | Proceed(req: Request)

  /** `authenticateToken`: 401 without a token or with a token that does not
      verify, 403 when the token's user is unknown or locked; otherwise the
      request proceeds with `req.user` set to that user. */
  function AuthenticateToken(req: Request, verify: string -> Option<nat>, users: seq<User>): (v: Verdict)
    ensures v.Reject? ==> v.status == 401 || v.status == 403
    ensures (v.Reject? && v.status == 401) <==>
              BearerToken(req.authorization).None? || verify(BearerToken(req.authorization).value).None?
    ensures (v.Reject? && v.status == 403) <==>
              (BearerToken(req.authorization).Some? && verify(BearerToken(req.authorization).value).Some? &&
               var u := UserById(users, verify(BearerToken(req.authorization).value).value);
               u.None? || u.value.isLocked)
    ensures v.Proceed? ==>
              && v.req == req.(user := v.req.user)
              && v.req.user.Some? && v.req.user.value in users && !v.req.user.value.isLocked
              && BearerToken(req.authorization).Some?
              && verify(BearerToken(req.authorization).value) == Some(v.req.user.value.id)
  {
    match BearerToken(req.authorization)
    case None => Reject(401, "Authentication token not found")
    case Some(token) =>
      match verify(token)
      case None => Reject(401, "Token is invalid or expired. Please log in again")
      case Some(userId) =>
        match UserById(users, userId)
        case None => Reject(403, "User account not found")
        case Some(user) =>
          if user.isLocked then Reject(403, "Your account has been locked. Please contact the administrator")
          else Proceed(req.(user := Some(user)))
  }

  /** `authorizeAdmin`: 401 when no user is attached, 403 unless the role is admin. */
  function AuthorizeAdmin(req: Request): (v: Verdict)
    ensures v.Proceed? <==> req.user.Some? && req.user.value.role == Admin
    ensures v.Reject? && v.status == 401 <==> req.user.None?
    ensures v.Reject? ==> v.status == 401 || v.status == 403
    ensures v.Proceed? ==> v.req == req
  {
    if req.user.None? then Reject(401, "Please log in first")
    else if req.user.value.role != Admin then Reject(403, "You do not have permission to access this resource")
    else Proceed(req)
  }

  /** `authorizeEditorOrAdmin`: passes exactly an attached editor or admin, else 403. */
  function AuthorizeEditorOrAdmin(req: Request): (v: Verdict)
    ensures v.Proceed? <==> req.user.Some? && req.user.value.role in {Admin, Editor}
    ensures v.Reject? ==> v.status == 403
    ensures v.Proceed? ==> v.req == req
  {
    if req.user.Some? && (req.user.value.role == Admin || req.user.value.role == Editor) then Proceed(req)
    else Reject(403, "Access denied")
  }

  /** `optionalAuthenticate`: never rejects; attaches the token's user when the
      token verifies and the user exists, and `null` otherwise. The lock flag
      is not consulted. */
  function OptionalAuthenticate(req: Request, verify: string -> Option<nat>, users: seq<User>): (r: Request)
    ensures r == req.(user := r.user)
    ensures r.user.Some? <==>
              BearerToken(req.authorization).Some? && verify(BearerToken(req.authorization).value).Some? &&
              UserById(users, verify(BearerToken(req.authorization).value).value).Some?
    ensures r.user.Some? ==> r.user.value in users && verify(BearerToken(req.authorization).value) == Some(r.user.value.id)
  {
    match BearerToken(req.authorization)
    case None => req.(user := None)
    case Some(token) =>
      match verify(token)
      case None => req.(user := None)
      case Some(userId) => req.(user := UserById(users, userId))
  }

  /** `authenticateToken` followed by `authorizeEditorOrAdmin`, the chain in
      front of every category route. */
  function EditorOrAdminChain(req: Request, verify: string -> Option<nat>, users: seq<User>): (v: Verdict)
  {
    match AuthenticateToken(req, verify, users)
    case Reject(status, message) => Reject(status, message)
    case Proceed(r) => AuthorizeEditorOrAdmin(r)
  }

  /** A request passes the editor-or-admin chain exactly when its token
      verifies for an existing, unlocked user whose role is editor or admin. */
  lemma EditorOrAdminChainPasses(req: Request, verify: string -> Option<nat>, users: seq<User>)
    ensures EditorOrAdminChain(req, verify, users).Proceed? <==>
              exists u :: u in users && !u.isLocked && u.role in {Admin, Editor} &&
                          BearerToken(req.authorization).Some? &&
                          verify(BearerToken(req.authorization).value) == Some(u.id) &&
                          UserById(users, u.id) == Some(u)
  {
    var v := EditorOrAdminChain(req, verify, users);
    if v.Proceed? {
      var u := AuthenticateToken(req, verify, users).req.user.value;
      assert UserById(users, u.id) == Some(u);
    }
  }

  /** The gate writes `req.user` only: a request that arrives without
      `req.userId` still has none after `authenticateToken` let it through. */
  lemma GateLeavesUserIdUnset(req: Request, verify: string -> Option<nat>, users: seq<User>)
    requires req.userId.None?
    ensures AuthenticateToken(req, verify, users).Proceed? ==> AuthenticateToken(req, verify, users).req.userId.None?
    ensures OptionalAuthenticate(req, verify, users).userId.None?
  {
  }
}
