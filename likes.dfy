/** The like routes of routes/likeRoutes.mjs. Both route families, `POST /`
    with `DELETE /:postId` and `POST`/`DELETE /articles/:articleId/like`,
    share one behaviour and differ only in their texts. `post_likes` is a set
    of (post, user) pairs: a like is inserted only when the pair is absent.
    The post's author is told of a like unless they liked their own post.
    The notification is created outside any inner `try`, so its failure
    turns the reply into a 500 after the like has been stored. */
module Likes {
  import opened Common
  import opened Tables
  import Notifications

  const PostLikeKind: string := "post_like"
  const PostNotFound: string := "Post not found"
  const LikeNotFound: string := "Like not found"
  const LikedYourPost: string := " liked your post: "

  /** Which of the two route families handled the request. */
  datatype Route = LikesRoot | ArticleLike {
    function Duplicate(): string {
      match this
      case LikesRoot => "Already liked this post"
      case ArticleLike => "You have already liked this post"
    }
    function Added(): string {
      match this
      case LikesRoot => "Like added successfully"
      case ArticleLike => "Post liked successfully"
    }
    function Failed(): string {
      match this
      case LikesRoot => "Error adding like"
      case ArticleLike => "Failed to like post"
    }
    function Removed(): string {
      match this
      case LikesRoot => "Like removed successfully"
      case ArticleLike => "Post unliked successfully"
    }
    /** The name used for a liker without a username. */
    function Anonymous(): string {
      match this
      case LikesRoot => "Someone"
      case ArticleLike => "User"
    }
  }

  datatype Reply = Reply(status: nat, message: string)

  /** No (post, user) pair is stored twice. */
  predicate NoDuplicateLikes(likes: seq<Like>) {
    forall i, j :: 0 <= i < j < |likes| ==> likes[i] != likes[j]
  }

  /** `SELECT * FROM post_likes WHERE post_id = $1 AND user_id = $2` finds a row. */
  predicate HasLiked(likes: seq<Like>, postId: nat, userId: nat) {
    Like(postId, userId) in likes
  }

  /** `GET /post/:postId`: the post's likes, in table order. */
  function LikesOf(likes: seq<Like>, postId: nat): seq<Like> {
    Filter(likes, (l: Like) => l.postId == postId)
  }

  /** The list holds exactly the stored likes of that post. */
  lemma LikesOfPost(likes: seq<Like>, postId: nat)
    ensures forall l :: l in LikesOf(likes, postId) <==> l in likes && l.postId == postId
    ensures |LikesOf(likes, postId)| == Count(likes, (l: Like) => l.postId == postId)
  {
    FilterCount(likes, (l: Like) => l.postId == postId);
  }

  // ---------------------------------------------------------------------------
  // Adding a like

  /** The post a like names, found only when its author is a user (the
      handlers read the post through an inner join with `users`). */
  function LikedPost(s: Store, postId: nat): Option<Article> {
    match PostById(s.posts, postId)
    case None => None
    case Some(p) => if UserById(s.users, p.authorId).None? then None else Some(p)
  }

  /** `rows[0]?.username || <fallback>`. */
  function LikerName(users: seq<User>, userId: nat, route: Route): (name: string)
    ensures name != "" || route.Anonymous() == ""
  {
    match UserById(users, userId)
    case None => route.Anonymous()
    case Some(u) => if u.username != "" then u.username else route.Anonymous()
  }

  /** The notification text, link and data for a like of `post` by `userId`. */
  function LikeMessage(users: seq<User>, userId: nat, route: Route, post: Article): string {
    LikerName(users, userId, route) + LikedYourPost + post.title
  }

  function LikeLink(postId: nat): string {
    Notifications.PostsPrefix + Decimal(postId)
  }

  function LikeData(postId: nat, userId: nat): Payload {
    Payload(Some(userId), Some(postId), None, None)
  }

  /** The store and reply after a like. `notifyFails` stands for a failing
      `createNotification`. */
  function LikeSpec(s: Store, route: Route, userId: nat, postId: nat, now: nat, notifyFails: bool): (Store, Reply)
  {
    match LikedPost(s, postId)
    case None => (s, Reply(404, PostNotFound))
    case Some(post) =>
      if HasLiked(s.postLikes, postId, userId) then (s, Reply(400, route.Duplicate()))
      else
        var s1 := s.(postLikes := s.postLikes + [Like(postId, userId)]);
        if post.authorId == userId then (s1, Reply(201, route.Added()))
        else
          var (s2, row) := Notifications.CreateNotificationSpec(s1, post.authorId, PostLikeKind,
                             LikeMessage(s1.users, userId, route, post), Some(LikeLink(postId)), LikeData(postId, userId),
                             now, notifyFails);
          if row.None? then (s1, Reply(500, route.Failed()))
          else (s2, Reply(201, route.Added()))
  }

  method AddLike(db: Db, route: Route, userId: nat, postId: nat, now: nat, notifyFails: bool) returns (r: Reply)
    modifies db
    ensures (db.Contents(), r) == LikeSpec(old(db.Contents()), route, userId, postId, now, notifyFails)
  {
    var post := LikedPost(db.Contents(), postId);
    if post.None? {
      return Reply(404, PostNotFound);
    }
    if Like(postId, userId) in db.postLikes {
      return Reply(400, route.Duplicate());
    }
    db.postLikes := db.postLikes + [Like(postId, userId)];
    if post.value.authorId != userId {
      var message := LikeMessage(db.users, userId, route, post.value);
      var created := Notifications.CreateNotification(db, post.value.authorId, PostLikeKind, message, now, notifyFails,
                                                      Some(LikeLink(postId)), LikeData(postId, userId));
      if created.None? {
        return Reply(500, route.Failed());
      }
    }
    r := Reply(201, route.Added());
  }

  /** A like of a missing post (or one whose author is gone) answers 404,
      a repeated like 400, and neither changes anything. Otherwise the pair is
      stored, once, even when the reply is a 500 because notifying the
      author failed. */
  lemma LikeOutcomes(s: Store, route: Route, userId: nat, postId: nat, now: nat, notifyFails: bool)
    ensures var (s', r) := LikeSpec(s, route, userId, postId, now, notifyFails);
            && (r.status == 404 <==> LikedPost(s, postId).None?)
            && (r.status == 400 <==> LikedPost(s, postId).Some? && HasLiked(s.postLikes, postId, userId))
            && (r.status == 404 || r.status == 400 || r.status == 500 || r.status == 201)
            && (r.status == 404 || r.status == 400 ==> s' == s)
            && (r.status == 201 || r.status == 500 ==>
                  s'.postLikes == s.postLikes + [Like(postId, userId)] && !HasLiked(s.postLikes, postId, userId))
            && (r.status == 500 <==>
                  LikedPost(s, postId).Some? && !HasLiked(s.postLikes, postId, userId) &&
                  LikedPost(s, postId).value.authorId != userId && notifyFails)
            && (r.status == 500 ==> s' == s.(postLikes := s'.postLikes))
            && s'.posts == s.posts && s'.users == s.users
  {
  }

  /** The author of the liked post gets exactly one `post_like` notification,
      linking to `/posts/<id>` and naming the liker, when someone else likes
      it; liking one's own post notifies nobody. */
  lemma LikeNotifiesAuthor(s: Store, route: Route, userId: nat, postId: nat, now: nat)
    requires LikedPost(s, postId).Some? && !HasLiked(s.postLikes, postId, userId)
    ensures var (s', r) := LikeSpec(s, route, userId, postId, now, false);
            var post := LikedPost(s, postId).value;
            && r == Reply(201, route.Added())
            && (post.authorId == userId ==> s'.notifications == s.notifications && s'.broadcasts == s.broadcasts)
            && (post.authorId != userId ==>
                  && |s'.notifications| == |s.notifications| + 1
                  && s'.notifications[..|s.notifications|] == s.notifications
                  && var n := s'.notifications[|s.notifications|];
                  && n.userId == post.authorId && n.kind == PostLikeKind
                  && n.link == Some(Notifications.PostsPrefix + Decimal(postId))
                  && n.data.userId == Some(userId) && n.data.postId == Some(postId)
                  && n.message == LikerName(s.users, userId, route) + LikedYourPost + post.title
                  && |s'.broadcasts| == |s.broadcasts| + 1)
  {
    var (s', r) := LikeSpec(s, route, userId, postId, now, false);
    assert s'.notifications[..|s.notifications|] == s.notifications;
  }

  /** Adding likes keeps every pair unique. */
  lemma LikeKeepsPairsUnique(s: Store, route: Route, userId: nat, postId: nat, now: nat, notifyFails: bool)
    requires NoDuplicateLikes(s.postLikes)
    ensures NoDuplicateLikes(LikeSpec(s, route, userId, postId, now, notifyFails).0.postLikes)
  {
    var (s', r) := LikeSpec(s, route, userId, postId, now, notifyFails);
    if s'.postLikes != s.postLikes {
      var l := Like(postId, userId);
      assert s'.postLikes == s.postLikes + [l];
      forall i, j | 0 <= i < j < |s'.postLikes|
        ensures s'.postLikes[i] != s'.postLikes[j]
      {
        if j == |s.postLikes| {
          assert s'.postLikes[i] == s.postLikes[i];
        }
      }
    }
  }

  /** After a like has been stored, the check routes report it. */
  lemma LikeThenCheck(s: Store, route: Route, userId: nat, postId: nat, now: nat, notifyFails: bool)
    requires LikedPost(s, postId).Some?
    ensures HasLiked(LikeSpec(s, route, userId, postId, now, notifyFails).0.postLikes, postId, userId)
  {
    var s' := LikeSpec(s, route, userId, postId, now, notifyFails).0;
    if !HasLiked(s.postLikes, postId, userId) {
      assert s'.postLikes[|s.postLikes|] == Like(postId, userId);
    }
  }

  /** The feed shows a like's `/posts/<id>` link as the liked article's
      page, by slug when the post has one and by id otherwise. */
  lemma LikeLinkShownAsArticle(posts: seq<Article>, postId: nat, userId: nat)
    ensures var slug := Notifications.JoinedSlug(posts, LikeData(postId, userId));
            Notifications.DisplayLink(Some(LikeLink(postId)), slug, Some(postId)) ==
              if slug.Some? then Some(Notifications.ArticlePrefix + slug.value)
              else Some(Notifications.ArticlePrefix + Decimal(postId))
  {
    Notifications.DisplayLinkCases(Some(LikeLink(postId)), Notifications.JoinedSlug(posts, LikeData(postId, userId)), Some(postId));
  }

  // ---------------------------------------------------------------------------
  // Removing a like

  /** `WHERE post_id = $1 AND user_id = $2`. */
  function IsPair(postId: nat, userId: nat): Like -> bool {
    (l: Like) => l == Like(postId, userId)
  }

  function NotPair(postId: nat, userId: nat): Like -> bool {
    (l: Like) => l != Like(postId, userId)
  }

  /** The store and reply after an unlike: 404 when the delete matched no row. */
  function UnlikeSpec(s: Store, route: Route, userId: nat, postId: nat): (Store, Reply) {
    if Count(s.postLikes, IsPair(postId, userId)) == 0 then (s, Reply(404, LikeNotFound))
    else (s.(postLikes := Filter(s.postLikes, NotPair(postId, userId))), Reply(200, route.Removed()))
  }

  method RemoveLike(db: Db, route: Route, userId: nat, postId: nat) returns (r: Reply)
    modifies db
    ensures (db.Contents(), r) == UnlikeSpec(old(db.Contents()), route, userId, postId)
  {
    var rowCount := Count(db.postLikes, IsPair(postId, userId));
    db.postLikes := Filter(db.postLikes, NotPair(postId, userId));
    if rowCount == 0 {
      return Reply(404, LikeNotFound);
    }
    r := Reply(200, route.Removed());
  }

  /** Unliking a pair that is not stored answers 404 and changes nothing;
      otherwise exactly that pair goes, every other like stays, and with
      unique pairs exactly one row is removed. */
  lemma UnlikeOutcomes(s: Store, route: Route, userId: nat, postId: nat)
    ensures var (s', r) := UnlikeSpec(s, route, userId, postId);
            && (r.status == 404 <==> !HasLiked(s.postLikes, postId, userId))
            && (r.status != 404 ==> r.status == 200)
            && (r.status == 404 ==> s' == s)
            && (forall l :: l in s'.postLikes <==> l in s.postLikes && l != Like(postId, userId))
            && !HasLiked(s'.postLikes, postId, userId)
            && s' == s.(postLikes := s'.postLikes)
            && (r.status == 200 && NoDuplicateLikes(s.postLikes) ==> |s'.postLikes| + 1 == |s.postLikes|)
  {
    var (s', r) := UnlikeSpec(s, route, userId, postId);
    FilterSplit(s.postLikes, IsPair(postId, userId), NotPair(postId, userId));
    if HasLiked(s.postLikes, postId, userId) {
      assert IsPair(postId, userId)(Like(postId, userId));
      if NoDuplicateLikes(s.postLikes) {
        CountUniquePair(s.postLikes, Like(postId, userId));
      }
    }
  }

  /** A pair stored once is counted once. */
  lemma {:induction false} CountUniquePair(likes: seq<Like>, l: Like)
    requires NoDuplicateLikes(likes) && l in likes
    ensures Count(likes, IsPair(l.postId, l.userId)) == 1
    decreases |likes|
  {
    var tail := likes[1..];
    assert NoDuplicateLikes(tail) by {
      forall i, j | 0 <= i < j < |tail|
        ensures tail[i] != tail[j]
      {
        assert tail[i] == likes[i + 1] && tail[j] == likes[j + 1];
      }
    }
    if likes[0] == l {
      assert l !in tail;
      assert Count(tail, IsPair(l.postId, l.userId)) == 0;
    } else {
      CountUniquePair(tail, l);
    }
  }

  /** Removing likes keeps every pair unique. */
  lemma UnlikeKeepsPairsUnique(s: Store, route: Route, userId: nat, postId: nat)
    requires NoDuplicateLikes(s.postLikes)
    ensures NoDuplicateLikes(UnlikeSpec(s, route, userId, postId).0.postLikes)
  {
    var (s', r) := UnlikeSpec(s, route, userId, postId);
    if r.status == 200 {
      FilterKeepsUnique(s.postLikes, NotPair(postId, userId));
    }
  }

  lemma {:induction false} FilterKeepsUnique(likes: seq<Like>, keep: Like -> bool)
    requires NoDuplicateLikes(likes)
    ensures NoDuplicateLikes(Filter(likes, keep))
    decreases |likes|
  {
    if likes != [] {
      var tail := likes[1..];
      assert NoDuplicateLikes(tail) by {
        forall i, j | 0 <= i < j < |tail|
          ensures tail[i] != tail[j]
        {
          assert tail[i] == likes[i + 1] && tail[j] == likes[j + 1];
        }
      }
      FilterKeepsUnique(tail, keep);
      var rest := Filter(tail, keep);
      if keep(likes[0]) {
        var r := [likes[0]] + rest;
        assert Filter(likes, keep) == r;
        forall i, j | 0 <= i < j < |r|
          ensures r[i] != r[j]
        {
          if i == 0 {
            assert r[j] in tail;
            var m :| 0 <= m < |tail| && tail[m] == r[j];
            assert likes[m + 1] == r[j];
          } else {
            assert r[i] == rest[i - 1] && r[j] == rest[j - 1];
          }
        }
      } else {
        assert Filter(likes, keep) == rest;
      }
    }
  }

  // ---------------------------------------------------------------------------
  // Checking a like

  /** `GET /articles/:articleId/check` behind `optionalAuthenticate`: false
      without a user (or with a falsy id), else whether the pair is stored. */
  function OptionalCheck(likes: seq<Like>, postId: nat, user: Option<User>): (hasLiked: bool)
  {
    if user.None? || user.value.id == 0 then false else HasLiked(likes, postId, user.value.id)
  }

  lemma OptionalCheckAgrees(likes: seq<Like>, postId: nat, user: Option<User>)
    ensures OptionalCheck(likes, postId, user) <==> user.Some? && user.value.id != 0 && Like(postId, user.value.id) in likes
    ensures user.None? ==> !OptionalCheck(likes, postId, user)
  {
  }
}
