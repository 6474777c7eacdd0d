/** The relational store the handlers read and write, held in memory: one row
    datatype per table, the whole database as one value (`Tables.Store`) and
    the mutable database object (`Tables.Db`) whose fields are the tables.
    The realtime broadcast channel is kept beside the tables as an append-only
    log of emitted events, so that broadcasts can be counted. */
module Tables {
  import opened Common

  // ---------------------------------------------------------------------------
  // Generic row operations: SQL `SELECT ... LIMIT 1`, `DELETE ... WHERE` and
  // `UPDATE ... WHERE` over a table kept in insertion order.

  /** The rows of `s` that satisfy `keep`, in table order. */
  function Filter<T(!new)>(s: seq<T>, keep: T -> bool): (r: seq<T>)
    ensures |r| <= |s|
    ensures forall x :: x in r <==> x in s && keep(x)
    ensures (forall x :: x in s ==> keep(x)) ==> r == s
    decreases |s|
  {
    if s == [] then []
    else (if keep(s[0]) then [s[0]] else []) + Filter(s[1..], keep)
  }

  /** The number of rows of `s` that satisfy `p`. */
  function Count<T(!new)>(s: seq<T>, p: T -> bool): (n: nat)
    ensures n <= |s|
    ensures n == 0 <==> forall x :: x in s ==> !p(x)
    decreases |s|
  {
    if s == [] then 0 else (if p(s[0]) then 1 else 0) + Count(s[1..], p)
  }

  /** Filtering keeps exactly the rows `Count` counts. */
  lemma {:induction false} FilterCount<T(!new)>(s: seq<T>, keep: T -> bool)
    ensures |Filter(s, keep)| == Count(s, keep)
    decreases |s|
  {
    if s != [] {
      FilterCount(s[1..], keep);
    }
  }

  /** A `DELETE ... WHERE p` removes as many rows as satisfy `p`: the rows
      kept and the rows removed together make up the table. */
  lemma {:induction false} FilterSplit<T(!new)>(s: seq<T>, p: T -> bool, notP: T -> bool)
    requires forall x :: notP(x) == !p(x)
    ensures |Filter(s, notP)| + Count(s, p) == |s|
    decreases |s|
  {
    if s != [] {
      FilterSplit(s[1..], p, notP);
    }
  }

  /** The first row of `s` that satisfies `p`, as a query with `LIMIT 1` or a
      handler reading `rows[0]` sees it. */
  function First<T(!new)>(s: seq<T>, p: T -> bool): (r: Option<T>)
    ensures r.Some? ==> r.value in s && p(r.value)
    ensures r.None? <==> forall x :: x in s ==> !p(x)
    ensures r.Some? && p(s[0]) ==> r.value == s[0]
    decreases |s|
  {
    if s == [] then None else if p(s[0]) then Some(s[0]) else First(s[1..], p)
  }

  /** A row appended after rows that all fail `p` is the first to satisfy it. */
  lemma {:induction false} FirstAppend<T(!new)>(s: seq<T>, y: T, p: T -> bool)
    requires forall x :: x in s ==> !p(x)
    requires p(y)
    ensures First(s + [y], p) == Some(y)
    decreases |s|
  {
    if s != [] {
      assert (s + [y])[1..] == s[1..] + [y];
      FirstAppend(s[1..], y, p);
    }
  }

  /** Appending a row that fails `p` does not change the first row that satisfies it. */
  lemma {:induction false} FirstAppendOther<T(!new)>(s: seq<T>, y: T, p: T -> bool)
    requires !p(y)
    ensures First(s + [y], p) == First(s, p)
    decreases |s|
  {
    if s == [] {
      assert [y][1..] == [];
    } else {
      assert (s + [y])[1..] == s[1..] + [y];
      FirstAppendOther(s[1..], y, p);
    }
  }

  /** `UPDATE ... SET f WHERE p`: every row that satisfies `p` is replaced by
      `f` of it, every other row is left as it is. */
  function UpdateWhere<T>(s: seq<T>, p: T -> bool, f: T -> T): (r: seq<T>)
    ensures |r| == |s|
    ensures forall i :: 0 <= i < |s| ==> r[i] == (if p(s[i]) then f(s[i]) else s[i])
  {
    seq(|s|, i requires 0 <= i < |s| => if p(s[i]) then f(s[i]) else s[i])
  }

  /** An update whose condition holds of the appended row only rewrites that row. */
  lemma UpdateWhereAppend<T>(s: seq<T>, y: T, p: T -> bool, f: T -> T)
    requires forall i :: 0 <= i < |s| ==> !p(s[i])
    requires p(y)
    ensures UpdateWhere(s + [y], p, f) == s + [f(y)]
  {
    var r := UpdateWhere(s + [y], p, f);
    assert forall i :: 0 <= i < |s| ==> r[i] == (s + [f(y)])[i];
  }

  // ---------------------------------------------------------------------------
  // Rows

  /** The `role` column; the store admits exactly these three values. */
  datatype Role = Reader | Editor | Admin {
    function Name(): string {
      match this
      case Reader => "user"
      case Editor => "editor"
      case Admin => "admin"
    }
  }

  /** A row of `users`. `password` holds the bcrypt hash; the two reset
      columns are NULL unless a password reset is pending. */
  datatype User = User(
    id: nat,
    username: string,
    email: string,
    password: string,
    fullName: Option<string>,
    avatarUrl: Option<string>,
    role: Role,
    isVerified: bool,
    isLocked: bool,
    resetToken: Option<string>,
    resetExpires: Option<int>)

  /** The `type` value of an email verification token. */
  const EmailVerification: string := "email_verification"

  /** A row of `verification_tokens`; `kind` is the `type` column. */
  datatype VerificationToken = VerificationToken(userId: nat, token: string, kind: string, expiresAt: int)

  /** A signed JSON Web Token, represented by the claims it was signed over:
      with a fixed secret, signing is a function of the claims (`userId`, the
      issue time `issuedAt` in seconds and the `expiresIn` option), so two
      tokens are equal exactly when their claims are. */
  datatype Jwt = Jwt(userId: nat, issuedAt: int, expiresIn: string)

  /** A row of `refresh_tokens`. */
  datatype RefreshToken = RefreshToken(userId: nat, token: Jwt, expiresAt: int)

  /** A row of `user_sessions`, the login audit trail. */
  datatype Session = Session(userId: nat, ipAddress: string, userAgent: string, createdAt: int)

  /** The JSON `data` column of a notification: the acting user, the post it
      is about, and that post's title and slug; absent keys are `None`. */
  datatype Payload = Payload(userId: Option<nat>, postId: Option<nat>, postTitle: Option<string>, postSlug: Option<string>)

  /** The empty JSON object `{}`. */
  const EmptyPayload: Payload := Payload(None, None, None, None)

  /** A row of `notifications`; `kind` is the `type` column, `userId` the recipient. */
  datatype Notification = Notification(
    id: nat,
    userId: nat,
    kind: string,
    message: string,
    link: Option<string>,
    data: Payload,
    isRead: bool,
    createdAt: int)

  /** One event emitted on the realtime channel: the event name and its payload,
      a notification row extended with the acting user's name and avatar. */
  datatype Event = Event(name: string, notification: Notification, userName: Option<string>, userAvatar: Option<string>)

  /** A row of `posts` as the Article model returns it: `status` is the
      model's status text when it provides one, `published` the stored flag. */
  datatype Article = Article(
    id: nat,
    title: string,
    content: string,
    introduction: string,
    categoryId: Option<nat>,
    authorId: nat,
    status: Option<string>,
    published: bool,
    slug: Option<string>,
    thumbnailUrl: Option<string>)

  /** A row of `post_likes`. */
  datatype Like = Like(postId: nat, userId: nat)

  /** A row of `categories`. */
  datatype Category = Category(id: nat, name: string, slug: string, description: Option<string>)

  /** The whole database (and the broadcast log) as a value. The `next…`
      fields are the serial sequences that hand out row ids. */
  datatype Store = Store(
    users: seq<User>,
    verificationTokens: seq<VerificationToken>,
    refreshTokens: seq<RefreshToken>,
    sessions: seq<Session>,
    notifications: seq<Notification>,
    posts: seq<Article>,
    postLikes: seq<Like>,
    categories: seq<Category>,
    broadcasts: seq<Event>,
    nextUserId: nat,
    nextNotificationId: nat,
    nextPostId: nat,
    nextCategoryId: nat)

  const EmptyStore: Store := Store([], [], [], [], [], [], [], [], [], 1, 1, 1, 1)

  // ---------------------------------------------------------------------------
  // Invariants the serial ids keep

  predicate UserIdsBelow(users: seq<User>, next: nat) {
    forall i :: 0 <= i < |users| ==> 1 <= users[i].id < next
  }

  predicate UserIdsDistinct(users: seq<User>) {
    forall i, j :: 0 <= i < j < |users| ==> users[i].id != users[j].id
  }

  predicate NotificationIdsBelow(rows: seq<Notification>, next: nat) {
    forall i :: 0 <= i < |rows| ==> 1 <= rows[i].id < next
  }

  predicate NotificationIdsDistinct(rows: seq<Notification>) {
    forall i, j :: 0 <= i < j < |rows| ==> rows[i].id != rows[j].id
  }

  predicate PostIdsBelow(posts: seq<Article>, next: nat) {
    forall i :: 0 <= i < |posts| ==> 1 <= posts[i].id < next
  }

  predicate CategoryIdsBelow(rows: seq<Category>, next: nat) {
    forall i :: 0 <= i < |rows| ==> 1 <= rows[i].id < next
  }

  /** Every id in the store was handed out by its serial sequence, and user
      and notification ids are distinct. */
  predicate WellFormed(s: Store) {
    && 1 <= s.nextUserId && 1 <= s.nextNotificationId && 1 <= s.nextPostId && 1 <= s.nextCategoryId
    && UserIdsBelow(s.users, s.nextUserId)
    && UserIdsDistinct(s.users)
    && NotificationIdsBelow(s.notifications, s.nextNotificationId)
    && NotificationIdsDistinct(s.notifications)
    && PostIdsBelow(s.posts, s.nextPostId)
    && CategoryIdsBelow(s.categories, s.nextCategoryId)
  }

  /** No two users share an email address or a username (the rule registration enforces). */
  predicate IdentitiesUnique(users: seq<User>) {
    forall i, j :: 0 <= i < j < |users| ==> users[i].email != users[j].email && users[i].username != users[j].username
  }

  lemma EmptyStoreWellFormed()
    ensures WellFormed(EmptyStore) && IdentitiesUnique(EmptyStore.users)
  {
  }

  // ---------------------------------------------------------------------------
  // Lookups used by several handlers

  function UserById(users: seq<User>, id: nat): (r: Option<User>)
    ensures r.Some? ==> r.value in users && r.value.id == id
    ensures r.None? <==> forall u :: u in users ==> u.id != id
  {
    First(users, (u: User) => u.id == id)
  }

  function UserByEmail(users: seq<User>, email: string): (r: Option<User>)
    ensures r.Some? ==> r.value in users && r.value.email == email
    ensures r.None? <==> forall u :: u in users ==> u.email != email
  {
    First(users, (u: User) => u.email == email)
  }

  function UserByUsername(users: seq<User>, username: string): (r: Option<User>)
    ensures r.Some? ==> r.value in users && r.value.username == username
    ensures r.None? <==> forall u :: u in users ==> u.username != username
  {
    First(users, (u: User) => u.username == username)
  }

  function PostById(posts: seq<Article>, id: nat): (r: Option<Article>)
    ensures r.Some? ==> r.value in posts && r.value.id == id
    ensures r.None? <==> forall a :: a in posts ==> a.id != id
  {
    First(posts, (a: Article) => a.id == id)
  }

  // ---------------------------------------------------------------------------
  // The mutable database

  /** The database the handlers share. Each field is one table (plus the
      broadcast log); handlers are methods that `modify` it. */
  class Db {
    var users: seq<User>
    var verificationTokens: seq<VerificationToken>
    var refreshTokens: seq<RefreshToken>
    var sessions: seq<Session>
    var notifications: seq<Notification>
    var posts: seq<Article>
    var postLikes: seq<Like>
    var categories: seq<Category>
    var broadcasts: seq<Event>
    var nextUserId: nat
    var nextNotificationId: nat
    var nextPostId: nat
    var nextCategoryId: nat

    /** The current contents of every table. */
    function Contents(): Store
      reads this
    {
      Store(users, verificationTokens, refreshTokens, sessions, notifications, posts,
                   postLikes, categories, broadcasts, nextUserId, nextNotificationId, nextPostId, nextCategoryId)
    }

    constructor ()
      ensures Contents() == EmptyStore
    {
      users, verificationTokens, refreshTokens, sessions := [], [], [], [];
      notifications, posts, postLikes, categories, broadcasts := [], [], [], [], [];
      nextUserId, nextNotificationId, nextPostId, nextCategoryId := 1, 1, 1, 1;
    }
  }
}
