/** The notification store of controllers/notificationController.mjs: creating
    a notification (one row and one realtime broadcast), marking and deleting a
    user's notifications, and the feed `getNotifications` returns, newest
    first, at most fifty, with each link rewritten to an article page. */
module Notifications {
  import opened Common
  import opened Tables

  const NotificationEvent: string := "notification"
  const NotificationNotFound: string := "Notification not found"
  const NotificationDeleted: string := "Notification deleted successfully"
  const AllMarkedRead: string := "All notifications marked as read"
  const AllDeleted: string := "All notifications deleted successfully"

  /** The JSON reply of a notification handler: the status, the message, the
      row returned by `RETURNING *`, and `deletedCount` where there is one. */
  datatype Reply = Reply(status: nat, message: string, row: Option<Notification>, deletedCount: Option<nat>)

  function Status(status: nat, message: string): Reply {
    Reply(status, message, None, None)
  }

  // ---------------------------------------------------------------------------
  // createNotification

  /** `data.user_id || userId`: the user whose name and avatar go out with the
      broadcast. A missing or zero `user_id` falls back to the recipient. */
  function ActorId(userId: nat, data: Payload): (id: nat)
    ensures data.userId.Some? && data.userId.value != 0 ==> id == data.userId.value
    ensures data.userId.None? || data.userId.value == 0 ==> id == userId
  {
    if data.userId.Some? && data.userId.value != 0 then data.userId.value else userId
  }

  /** The event emitted for a new row: the row itself plus the actor's full
      name and avatar, both absent when the actor is not found. */
  function Broadcast(users: seq<User>, row: Notification, actor: nat): (e: Event)
    ensures e.name == NotificationEvent && e.notification == row
    ensures UserById(users, actor).None? ==> e.userName.None? && e.userAvatar.None?
    ensures UserById(users, actor).Some? ==>
              e.userName == UserById(users, actor).value.fullName && e.userAvatar == UserById(users, actor).value.avatarUrl
  {
    match UserById(users, actor)
    case None => Event(NotificationEvent, row, None, None)
    case Some(u) => Event(NotificationEvent, row, u.fullName, u.avatarUrl)
  }

  /** The store after `createNotification`, and the row it returns; `None`
      when the insert fails, in which case the error reaches the caller. */
  function CreateNotificationSpec(s: Store, userId: nat, kind: string, message: string, link: Option<string>,
                                  data: Payload, now: nat, insertFails: bool): (out: (Store, Option<Notification>))
  {
    if insertFails then (s, None)
    else
      var row := Notification(s.nextNotificationId, userId, kind, message, link, data, false, now);
      (s.(notifications := s.notifications + [row],
          nextNotificationId := s.nextNotificationId + 1,
          broadcasts := s.broadcasts + [Broadcast(s.users, row, ActorId(userId, data))]),
       Some(row))
  }

  /** `createNotification` with its defaults `link = null` and `data = {}`.
      `insertFails` stands for a failing insert; the error is passed on as `None`. */
  method CreateNotification(db: Db, userId: nat, kind: string, message: string, now: nat, insertFails: bool,
                            link: Option<string> := None, data: Payload := EmptyPayload)
    returns (r: Option<Notification>)
    modifies db
    ensures (db.Contents(), r) == CreateNotificationSpec(old(db.Contents()), userId, kind, message, link, data, now, insertFails)
  {
    if insertFails {
      return None;
    }
    var row := Notification(db.nextNotificationId, userId, kind, message, link, data, false, now);
    db.notifications := db.notifications + [row];
    db.nextNotificationId := db.nextNotificationId + 1;
    var actor := ActorId(userId, data);
    db.broadcasts := db.broadcasts + [Broadcast(db.users, row, actor)];
    r := Some(row);
  }

  /** A successful `createNotification` appends exactly one unread row with
      the given recipient, type, message, link and data under a fresh id, and
      emits exactly one `notification` event carrying that row; no other
      table changes. A failed one changes nothing. */
  lemma CreateNotificationAppendsOne(s: Store, userId: nat, kind: string, message: string, link: Option<string>,
                                     data: Payload, now: nat, insertFails: bool)
    requires WellFormed(s)
    ensures var (s', r) := CreateNotificationSpec(s, userId, kind, message, link, data, now, insertFails);
            && (insertFails ==> s' == s && r.None?)
            && (!insertFails ==>
                  && r.Some?
                  && s'.notifications == s.notifications + [r.value]
                  && r.value.userId == userId && r.value.kind == kind && r.value.message == message
                  && r.value.link == link && r.value.data == data && !r.value.isRead
                  && (forall n :: n in s.notifications ==> n.id != r.value.id)
                  && s'.broadcasts == s.broadcasts + [s'.broadcasts[|s.broadcasts|]]
                  && s'.broadcasts[|s.broadcasts|].name == NotificationEvent
                  && s'.broadcasts[|s.broadcasts|].notification == r.value
                  && WellFormed(s')
                  && s' == s.(notifications := s'.notifications, nextNotificationId := s'.nextNotificationId,
                              broadcasts := s'.broadcasts))
  {
    if !insertFails {
      var (s', r) := CreateNotificationSpec(s, userId, kind, message, link, data, now, insertFails);
      forall n | n in s.notifications
        ensures n.id != r.value.id
      {
        var i :| 0 <= i < |s.notifications| && s.notifications[i] == n;
      }
      assert NotificationIdsDistinct(s'.notifications) by {
        forall i, j | 0 <= i < j < |s'.notifications|
          ensures s'.notifications[i].id != s'.notifications[j].id
        {
          if j == |s.notifications| {
            assert s'.notifications[i] == s.notifications[i];
          }
        }
      }
    }
  }

  /** The `data` a like or publish notification carries and the link it
      gets do not affect which event name goes out: every create emits under
      `notification`, with the actor taken from `data.user_id` when set. */
  lemma BroadcastNamesActor(s: Store, userId: nat, kind: string, message: string, link: Option<string>,
                            data: Payload, now: nat, actor: User)
    requires data.userId == Some(actor.id) && actor.id != 0
    requires UserById(s.users, actor.id) == Some(actor)
    ensures var e := CreateNotificationSpec(s, userId, kind, message, link, data, now, false).0.broadcasts[|s.broadcasts|];
            e.userName == actor.fullName && e.userAvatar == actor.avatarUrl
  {
  }

  // ---------------------------------------------------------------------------
  // markAsRead, markAllAsRead

  /** `WHERE id = $1 AND user_id = $2`. */
  function Owned(id: nat, userId: nat): Notification -> bool {
    (n: Notification) => n.id == id && n.userId == userId
  }

  /** `WHERE user_id = $1`. */
  function Mine(userId: nat): Notification -> bool {
    (n: Notification) => n.userId == userId
  }

  /** `SET is_read = true`. */
  function SetRead(n: Notification): Notification {
    n.(isRead := true)
  }

  /** The table and reply after `markAsRead`. */
  function MarkAsReadSpec(rows: seq<Notification>, userId: nat, id: nat): (out: (seq<Notification>, Reply))
  {
    match First(rows, Owned(id, userId))
    case None => (rows, Status(404, NotificationNotFound))
    case Some(n) => (UpdateWhere(rows, Owned(id, userId), SetRead), Reply(200, "", Some(SetRead(n)), None))
  }

  method MarkAsRead(db: Db, userId: nat, id: nat) returns (r: Reply)
    modifies db
    ensures db.Contents() == old(db.Contents()).(notifications := MarkAsReadSpec(old(db.notifications), userId, id).0)
    ensures r == MarkAsReadSpec(old(db.notifications), userId, id).1
  {
    var updated := UpdateWhere(db.notifications, Owned(id, userId), SetRead);
    var first := First(db.notifications, Owned(id, userId));
    if first.None? {
      return Status(404, NotificationNotFound);
    }
    db.notifications := updated;
    r := Reply(200, "", Some(SetRead(first.value)), None);
  }

  /** `markAsRead` answers 404 and changes nothing unless a row has both the
      id and the caller as owner; otherwise exactly those rows become read,
      every other row is left as it was, and the reply carries the read row. */
  lemma MarkAsReadOutcomes(rows: seq<Notification>, userId: nat, id: nat)
    ensures var (rows', r) := MarkAsReadSpec(rows, userId, id);
            && (r.status == 404 <==> forall n :: n in rows ==> !(n.id == id && n.userId == userId))
            && (r.status == 404 ==> rows' == rows && r.message == NotificationNotFound)
            && (r.status != 404 ==>
                  && r.status == 200 && r.row.Some? && r.row.value.id == id && r.row.value.userId == userId && r.row.value.isRead
                  && |rows'| == |rows|
                  && (forall i :: 0 <= i < |rows| && rows[i].id == id && rows[i].userId == userId ==> rows'[i] == rows[i].(isRead := true))
                  && (forall i :: 0 <= i < |rows| && !(rows[i].id == id && rows[i].userId == userId) ==> rows'[i] == rows[i]))
  {
  }

  /** The table after `markAllAsRead`. */
  function MarkAllAsRead(rows: seq<Notification>, userId: nat): seq<Notification> {
    UpdateWhere(rows, Mine(userId), SetRead)
  }

  method MarkAllAsReadHandler(db: Db, userId: nat) returns (r: Reply)
    modifies db
    ensures db.Contents() == old(db.Contents()).(notifications := MarkAllAsRead(old(db.notifications), userId))
    ensures r == Status(200, AllMarkedRead)
  {
    db.notifications := MarkAllAsRead(db.notifications, userId);
    r := Status(200, AllMarkedRead);
  }

  /** After `markAllAsRead` every notification of the caller is read and every
      other user's notification is exactly as it was. */
  lemma MarkAllAsReadScope(rows: seq<Notification>, userId: nat)
    ensures var rows' := MarkAllAsRead(rows, userId);
            && |rows'| == |rows|
            && (forall n :: n in rows' && n.userId == userId ==> n.isRead)
            && (forall i :: 0 <= i < |rows| && rows[i].userId != userId ==> rows'[i] == rows[i])
            && (forall i :: 0 <= i < |rows| ==> rows'[i] == rows[i].(isRead := rows'[i].isRead))
  {
    var rows' := MarkAllAsRead(rows, userId);
    forall n | n in rows' && n.userId == userId
      ensures n.isRead
    {
      var i :| 0 <= i < |rows'| && rows'[i] == n;
    }
  }

  // ---------------------------------------------------------------------------
  // deleteNotification, deleteAllNotifications

  function NotOwned(id: nat, userId: nat): Notification -> bool {
    (n: Notification) => !(n.id == id && n.userId == userId)
  }

  function NotMine(userId: nat): Notification -> bool {
    (n: Notification) => n.userId != userId
  }

  /** The table and reply after `deleteNotification`. */
  function DeleteNotificationSpec(rows: seq<Notification>, userId: nat, id: nat): (out: (seq<Notification>, Reply))
  {
    if First(rows, Owned(id, userId)).None? then (rows, Status(404, NotificationNotFound))
    else (Filter(rows, NotOwned(id, userId)), Status(200, NotificationDeleted))
  }

  method DeleteNotification(db: Db, userId: nat, id: nat) returns (r: Reply)
    modifies db
    ensures db.Contents() == old(db.Contents()).(notifications := DeleteNotificationSpec(old(db.notifications), userId, id).0)
    ensures r == DeleteNotificationSpec(old(db.notifications), userId, id).1
  {
    var returned := First(db.notifications, Owned(id, userId));
    if returned.None? {
      return Status(404, NotificationNotFound);
    }
    db.notifications := Filter(db.notifications, NotOwned(id, userId));
    r := Status(200, NotificationDeleted);
  }

  /** `deleteNotification` removes exactly the rows with that id owned by the
      caller and keeps every other row; with no such row it answers 404 and
      removes nothing. */
  lemma DeleteNotificationOutcomes(rows: seq<Notification>, userId: nat, id: nat)
    ensures var (rows', r) := DeleteNotificationSpec(rows, userId, id);
            && (r.status == 404 <==> forall n :: n in rows ==> !(n.id == id && n.userId == userId))
            && (r.status == 404 ==> rows' == rows)
            && (r.status != 404 ==> r.status == 200 && |rows'| < |rows|)
            && (forall n :: n in rows' <==> n in rows && !(n.id == id && n.userId == userId))
  {
    var (rows', r) := DeleteNotificationSpec(rows, userId, id);
    if r.status != 404 {
      var n := First(rows, Owned(id, userId)).value;
      FilterSplit(rows, Owned(id, userId), NotOwned(id, userId));
      assert Count(rows, Owned(id, userId)) != 0 by {
        assert n in rows && Owned(id, userId)(n);
      }
    }
  }

  /** The table and reply after `deleteAllNotifications`: `deletedCount` is
      the number of rows the delete matched. */
  function DeleteAllSpec(rows: seq<Notification>, userId: nat): (out: (seq<Notification>, Reply))
  {
    (Filter(rows, NotMine(userId)), Reply(200, AllDeleted, None, Some(Count(rows, Mine(userId)))))
  }

  method DeleteAllNotifications(db: Db, userId: nat) returns (r: Reply)
    modifies db
    ensures db.Contents() == old(db.Contents()).(notifications := DeleteAllSpec(old(db.notifications), userId).0)
    ensures r == DeleteAllSpec(old(db.notifications), userId).1
  {
    var deleted := Count(db.notifications, Mine(userId));
    db.notifications := Filter(db.notifications, NotMine(userId));
    r := Reply(200, AllDeleted, None, Some(deleted));
  }

  /** `deletedCount` is exactly how many rows disappeared; none of the
      caller's rows remain and every other user's row does. */
  lemma DeleteAllCountsRemoved(rows: seq<Notification>, userId: nat)
    ensures var (rows', r) := DeleteAllSpec(rows, userId);
            && r.deletedCount.Some?
            && |rows'| + r.deletedCount.value == |rows|
            && (forall n :: n in rows' <==> n in rows && n.userId != userId)
  {
    FilterSplit(rows, Mine(userId), NotMine(userId));
  }

  // ---------------------------------------------------------------------------
  // getNotifications: the link rewrite

  const PostsPrefix: string := "/posts/"
  const ArticlePrefix: string := "/article/"

  /** The `CASE` that computes a feed row's link from the stored link, the
      slug of the post named by `data.post_id` (NULL when there is no such
      post) and `data.post_id` itself. SQL `||` with NULL is NULL, so a
      `/posts/…` link without slug or post id becomes `None`. */
  function DisplayLink(link: Option<string>, slug: Option<string>, postId: Option<nat>): (r: Option<string>)
    ensures r.Some? && r != link ==> StartsWith(r.value, ArticlePrefix)
  {
    if link.Some? && link.value != "" && !StartsWith(link.value, PostsPrefix) then link
    else if link.Some? && StartsWith(link.value, PostsPrefix) && slug.Some? then Some(ArticlePrefix + slug.value)
    else if link.Some? && StartsWith(link.value, PostsPrefix) then
      (if postId.Some? then Some(ArticlePrefix + Decimal(postId.value)) else None)
    else if slug.Some? then Some(ArticlePrefix + slug.value)
    else if postId.Some? then Some(ArticlePrefix + Decimal(postId.value))
    else link
  }

  /** An article link never looks like a post link. */
  lemma ArticleLinkIsNotPostLink(rest: string)
    ensures ArticlePrefix + rest != "" && !StartsWith(ArticlePrefix + rest, PostsPrefix)
  {
    assert (ArticlePrefix + rest)[1] == 'a';
  }

  /** The rewrite's cases: a non-empty link that is not a `/posts/` link is
      kept; a `/posts/` link goes to the article by slug, else by post id,
      else to NULL; with no usable link the slug, then the post id decide. */
  lemma DisplayLinkCases(link: Option<string>, slug: Option<string>, postId: Option<nat>)
    ensures link.Some? && link.value != "" && !StartsWith(link.value, PostsPrefix) ==> DisplayLink(link, slug, postId) == link
    ensures link.Some? && StartsWith(link.value, PostsPrefix) ==>
              DisplayLink(link, slug, postId) ==
                if slug.Some? then Some(ArticlePrefix + slug.value)
                else if postId.Some? then Some(ArticlePrefix + Decimal(postId.value))
                else None
    ensures (link.None? || link.value == "") ==>
              DisplayLink(link, slug, postId) ==
                if slug.Some? then Some(ArticlePrefix + slug.value)
                else if postId.Some? then Some(ArticlePrefix + Decimal(postId.value))
                else link
  {
    if link.Some? && link.value == "" {
      assert !StartsWith(link.value, PostsPrefix);
    }
  }

  /** Rewriting a rewritten link changes nothing: a link the feed shows is
      shown again unchanged. */
  lemma DisplayLinkIdempotent(link: Option<string>, slug: Option<string>, postId: Option<nat>)
    ensures DisplayLink(DisplayLink(link, slug, postId), slug, postId) == DisplayLink(link, slug, postId)
  {
    var r := DisplayLink(link, slug, postId);
    if r.Some? && r != link {
      ArticleLinkIsNotPostLink(r.value[|ArticlePrefix|..]);
      assert r.value == ArticlePrefix + r.value[|ArticlePrefix|..];
    } else if link.Some? && link.value == "" {
      assert !StartsWith(link.value, PostsPrefix);
    }
  }

  /** The slug of the post a notification's `data.post_id` names, through
      `LEFT JOIN posts p ON p.id = (n.data->>'post_id')::integer`. */
  function JoinedSlug(posts: seq<Article>, data: Payload): (slug: Option<string>)
    ensures slug.Some? ==> data.postId.Some? && PostById(posts, data.postId.value).Some?
  {
    if data.postId.None? then None
    else match PostById(posts, data.postId.value)
      case None => None
      case Some(p) => p.slug
  }

  // ---------------------------------------------------------------------------
  // getNotifications: the selection

  /** `LIMIT 50`. */
  const FeedLimit: nat := 50

  predicate NewestFirst(rows: seq<Notification>) {
    forall i, j :: 0 <= i < j < |rows| ==> rows[i].createdAt >= rows[j].createdAt
  }

  /** The head of a newest-first sequence is at least as new as every row of
      a rearrangement of its tail with an older row added. */
  lemma HeadIsNewest(rows: seq<Notification>, n: Notification, rest: seq<Notification>)
    requires NewestFirst(rows) && rows != [] && n.createdAt < rows[0].createdAt
    requires multiset(rest) == multiset(rows[1..]) + multiset{n}
    ensures forall k :: 0 <= k < |rest| ==> rows[0].createdAt >= rest[k].createdAt
  {
    forall k | 0 <= k < |rest|
      ensures rows[0].createdAt >= rest[k].createdAt
    {
      assert rest[k] in multiset(rest);
      if rest[k] != n {
        assert rest[k] in rows[1..];
        var m :| 0 <= m < |rows[1..]| && rows[1..][m] == rest[k];
        assert rows[m + 1] == rest[k];
      }
    }
  }

  /** Insert `n` into a newest-first sequence, after the rows at least as new. */
  function InsertByDate(n: Notification, rows: seq<Notification>): (r: seq<Notification>)
    requires NewestFirst(rows)
    ensures NewestFirst(r)
    ensures multiset(r) == multiset(rows) + multiset{n}
    decreases |rows|
  {
    if rows == [] || rows[0].createdAt <= n.createdAt then
      [n] + rows
    else
      var rest := InsertByDate(n, rows[1..]);
      assert rows == [rows[0]] + rows[1..];
      HeadIsNewest(rows, n, rest);
      [rows[0]] + rest
  }

  /** `ORDER BY n.created_at DESC`, by insertion. */
  function SortNewestFirst(rows: seq<Notification>): (r: seq<Notification>)
    ensures NewestFirst(r)
    ensures multiset(r) == multiset(rows)
    decreases |rows|
  {
    if rows == [] then []
    else
      assert rows == [rows[0]] + rows[1..];
      InsertByDate(rows[0], SortNewestFirst(rows[1..]))
  }

  /** The first `FeedLimit` rows, or all of them when there are fewer. */
  function Take(rows: seq<Notification>): (r: seq<Notification>)
    ensures |r| == if |rows| <= FeedLimit then |rows| else FeedLimit
    ensures forall n :: n in r ==> n in rows
  {
    if |rows| <= FeedLimit then rows else rows[..FeedLimit]
  }

  /** The notifications `getNotifications` returns to `userId`. */
  function Feed(rows: seq<Notification>, userId: nat): seq<Notification> {
    Take(SortNewestFirst(Filter(rows, Mine(userId))))
  }

  /** The limit keeps a prefix, so it keeps the order. */
  lemma TakeKeepsOrder(sorted: seq<Notification>)
    requires NewestFirst(sorted)
    ensures Take(sorted) == sorted[..|Take(sorted)|]
    ensures NewestFirst(Take(sorted))
  {
  }

  /** A row that the limit cuts off a newest-first sequence is no newer than
      the last row kept. */
  lemma TakeKeepsNewest(sorted: seq<Notification>, n: Notification)
    requires NewestFirst(sorted) && n in sorted && n !in Take(sorted)
    ensures |Take(sorted)| == FeedLimit && n.createdAt <= Take(sorted)[FeedLimit - 1].createdAt
  {
    var k :| 0 <= k < |sorted| && sorted[k] == n;
  }

  /** Sorting the caller's rows keeps exactly the caller's rows, as many as `Count` counts. */
  lemma SortedOwnRows(rows: seq<Notification>, userId: nat)
    ensures var sorted := SortNewestFirst(Filter(rows, Mine(userId)));
            && |sorted| == Count(rows, Mine(userId))
            && (forall n :: n in sorted <==> n in rows && n.userId == userId)
  {
    var mine := Filter(rows, Mine(userId));
    var sorted := SortNewestFirst(mine);
    FilterCount(rows, Mine(userId));
    assert |multiset(sorted)| == |multiset(mine)|;
    forall n
      ensures n in sorted <==> n in mine
    {
      assert n in sorted <==> n in multiset(sorted);
      assert n in mine <==> n in multiset(mine);
    }
  }

  /** The feed holds only the caller's notifications, newest first; it holds
      all of them when there are at most fifty and fifty otherwise, and every
      one of the caller's notifications it leaves out is no newer than the
      last one it shows. */
  lemma FeedIsNewestOwn(rows: seq<Notification>, userId: nat)
    ensures var f := Feed(rows, userId);
            && (forall n :: n in f ==> n in rows && n.userId == userId)
            && NewestFirst(f)
            && |f| == (if Count(rows, Mine(userId)) <= FeedLimit then Count(rows, Mine(userId)) else FeedLimit)
            && (forall n :: n in rows && n.userId == userId && n !in f ==>
                  |f| == FeedLimit && n.createdAt <= f[|f| - 1].createdAt)
  {
    var sorted := SortNewestFirst(Filter(rows, Mine(userId)));
    var f := Take(sorted);
    assert f == Feed(rows, userId);
    SortedOwnRows(rows, userId);
    TakeKeepsOrder(sorted);
    forall n | n in rows && n.userId == userId && n !in f
      ensures |f| == FeedLimit && n.createdAt <= f[FeedLimit - 1].createdAt
    {
      TakeKeepsNewest(sorted, n);
    }
  }

  /** One row of the feed: the notification with its displayed link. */
  datatype Activity = Activity(id: nat, kind: string, content: string, link: Option<string>, data: Payload, createdAt: int)

  /** `getNotifications`: the caller's feed with each link rewritten. */
  function GetNotifications(s: Store, userId: nat): (r: seq<Activity>)
    ensures |r| == |Feed(s.notifications, userId)|
    ensures forall i :: 0 <= i < |r| ==>
              var n := Feed(s.notifications, userId)[i];
              r[i].id == n.id && r[i].link == DisplayLink(n.link, JoinedSlug(s.posts, n.data), n.data.postId)
  {
    var f := Feed(s.notifications, userId);
    seq(|f|, i requires 0 <= i < |f| =>
      Activity(f[i].id, f[i].kind, f[i].message, DisplayLink(f[i].link, JoinedSlug(s.posts, f[i].data), f[i].data.postId),
               f[i].data, f[i].createdAt))
  }
}
