/** The publish fan-out shared by routes/articleRoutes.mjs and
    controllers/admin/articleController.mjs: when an article becomes
    published, every user other than the author gets one `post`
    notification. The first recipient's row goes through `createNotification`,
    which also emits the one realtime broadcast; the others are plain inserts
    in a loop. The whole fan-out sits in a `try` whose `catch` only logs, so a
    failing insert stops the loop and keeps the rows already written. */
module Publishing {
  import opened Common
  import opened Tables
  import Notifications

  const PostKind: string := "post"
  const Someone: string := "Someone"
  const NewPostText: string := " created a new post: "

  /** `author.full_name || author.username || 'Someone'`. */
  function AuthorName(users: seq<User>, authorId: nat): (name: string)
    ensures UserById(users, authorId).None? ==> name == Someone
    ensures UserById(users, authorId).Some? && Truthy(UserById(users, authorId).value.fullName) ==>
              name == UserById(users, authorId).value.fullName.value
    ensures name != ""
  {
    match UserById(users, authorId)
    case None => Someone
    case Some(u) => if Truthy(u.fullName) then u.fullName.value else if u.username != "" then u.username else Someone
  }

  /** The article's slug, or its id when the slug is empty or missing
      (`slugResult.rows[0]?.slug || article.id`; the re-query reads the same row). */
  function LinkTarget(a: Article): (target: string)
    ensures target != ""
    ensures Truthy(a.slug) ==> target == a.slug.value
  {
    if Truthy(a.slug) then a.slug.value else Decimal(a.id)
  }

  /** What every recipient of one publication is told: the message, the link
      and the `data` object, all the same for every recipient. */
  datatype Announcement = Announcement(message: string, link: string, data: Payload)

  function Announce(users: seq<User>, authorId: nat, a: Article, title: string): (an: Announcement)
    ensures an.link == Notifications.ArticlePrefix + LinkTarget(a)
    ensures an.data == Payload(Some(authorId), Some(a.id), Some(title), Some(LinkTarget(a)))
    ensures an.message == AuthorName(users, authorId) + NewPostText + title
  {
    Announcement(AuthorName(users, authorId) + NewPostText + title,
                 Notifications.ArticlePrefix + LinkTarget(a),
                 Payload(Some(authorId), Some(a.id), Some(title), Some(LinkTarget(a))))
  }

  /** The ids of `users`, in table order. */
  function Ids(users: seq<User>): (ids: seq<nat>)
    ensures |ids| == |users|
    ensures forall i :: 0 <= i < |users| ==> ids[i] == users[i].id
  {
    seq(|users|, i requires 0 <= i < |users| => users[i].id)
  }

  /** `SELECT id FROM users WHERE id != $1`, in table order. */
  function Recipients(users: seq<User>, authorId: nat): seq<nat> {
    Ids(Filter(users, (u: User) => u.id != authorId))
  }

  /** The recipients are exactly the other users, each named once. */
  lemma RecipientsAreOthers(users: seq<User>, authorId: nat)
    requires UserIdsDistinct(users)
    ensures var r := Recipients(users, authorId);
            && (forall id :: id in r <==> id != authorId && exists u :: u in users && u.id == id)
            && (forall i, j :: 0 <= i < j < |r| ==> r[i] != r[j])
  {
    var others := Filter(users, (u: User) => u.id != authorId);
    var r := Recipients(users, authorId);
    forall id
      ensures id in r <==> id != authorId && exists u :: u in users && u.id == id
    {
      if id != authorId && exists u :: u in users && u.id == id {
        var u :| u in users && u.id == id;
        assert u in others;
        var k :| 0 <= k < |others| && others[k] == u;
        assert r[k] == id;
      }
      if id in r {
        var k :| 0 <= k < |r| && r[k] == id;
        assert others[k] in others;
      }
    }
    FilterKeepsDistinctIds(users, (u: User) => u.id != authorId);
  }

  /** With distinct ids, the tail of a table holds distinct ids and none
      equal to the head's. */
  lemma TailOfDistinct(users: seq<User>)
    requires UserIdsDistinct(users) && users != []
    ensures UserIdsDistinct(users[1..])
    ensures forall u :: u in users[1..] ==> u.id != users[0].id
  {
    var tail := users[1..];
    forall i, j | 0 <= i < j < |tail|
      ensures tail[i].id != tail[j].id
    {
      assert tail[i] == users[i + 1] && tail[j] == users[j + 1];
    }
    forall u | u in tail
      ensures u.id != users[0].id
    {
      var m :| 0 <= m < |tail| && tail[m] == u;
      assert users[m + 1] == u;
    }
  }

  /** Filtering a table with distinct ids leaves a table with distinct ids. */
  lemma {:induction false} FilterKeepsDistinctIds(users: seq<User>, keep: User -> bool)
    requires UserIdsDistinct(users)
    ensures UserIdsDistinct(Filter(users, keep))
    decreases |users|
  {
    if users != [] {
      var tail := users[1..];
      var rest := Filter(tail, keep);
      var head := if keep(users[0]) then [users[0]] else [];
      assert Filter(users, keep) == head + rest;
      TailOfDistinct(users);
      FilterKeepsDistinctIds(tail, keep);
      var r := head + rest;
      forall i, j | 0 <= i < j < |r|
        ensures r[i].id != r[j].id
      {
        if i < |head| {
          assert r[i] == users[0] && r[j] == rest[j - 1] && rest[j - 1] in tail;
        } else {
          assert r[i] == rest[i - |head|] && r[j] == rest[j - |head|];
        }
      }
    }
  }

  // ---------------------------------------------------------------------------
  // The fan-out

  /** The rows a fan-out writes for `ids`, numbered from `firstId`. */
  function FanOutRows(ids: seq<nat>, firstId: nat, an: Announcement, now: nat): (rows: seq<Notification>)
    ensures |rows| == |ids|
    ensures forall i :: 0 <= i < |ids| ==>
              rows[i] == Notification(firstId + i, ids[i], PostKind, an.message, Some(an.link), an.data, false, now)
  {
    seq(|ids|, i requires 0 <= i < |ids| => Notification(firstId + i, ids[i], PostKind, an.message, Some(an.link), an.data, false, now))
  }

  lemma FanOutRowsSnoc(ids: seq<nat>, x: nat, firstId: nat, an: Announcement, now: nat)
    ensures FanOutRows(ids + [x], firstId, an, now) ==
            FanOutRows(ids, firstId, an, now) + [Notification(firstId + |ids|, x, PostKind, an.message, Some(an.link), an.data, false, now)]
  {
    var a := FanOutRows(ids + [x], firstId, an, now);
    var b := FanOutRows(ids, firstId, an, now) + [Notification(firstId + |ids|, x, PostKind, an.message, Some(an.link), an.data, false, now)];
    assert forall i :: 0 <= i < |a| ==> a[i] == b[i];
  }

  /** How many recipients get their row when the insert for recipient
      `failAt` (counting from zero) fails. */
  function Reached(count: nat, failAt: Option<nat>): (k: nat)
    ensures k <= count
    ensures failAt.None? ==> k == count
  {
    if failAt.Some? && failAt.value < count then failAt.value else count
  }

  /** The row `createNotification` writes for the first recipient. */
  function FirstRow(s: Store, recipients: seq<nat>, an: Announcement, now: nat): Notification
    requires |recipients| > 0
  {
    Notification(s.nextNotificationId, recipients[0], PostKind, an.message, Some(an.link), an.data, false, now)
  }

  /** The store after a fan-out of `an` to `recipients`: the recipients
      before the failing one (all of them when none fails) each get one row,
      numbered from the next free id, and the first row is broadcast. */
  function FanOutSpec(s: Store, recipients: seq<nat>, an: Announcement, now: nat, failAt: Option<nat>): Store {
    var k := Reached(|recipients|, failAt);
    if k == 0 then s
    else
      var first := FirstRow(s, recipients, an, now);
      s.(notifications := s.notifications + FanOutRows(recipients[..k], s.nextNotificationId, an, now),
         nextNotificationId := s.nextNotificationId + k,
         broadcasts := s.broadcasts + [Notifications.Broadcast(s.users, first, Notifications.ActorId(recipients[0], an.data))])
  }

  /** The rows for a list of ids are the rows for a prefix followed by the
      rows for the rest, numbered on from where the prefix stopped. */
  lemma FanOutRowsSplit(ids: seq<nat>, m: nat, firstId: nat, an: Announcement, now: nat)
    requires m <= |ids|
    ensures FanOutRows(ids, firstId, an, now) == FanOutRows(ids[..m], firstId, an, now) + FanOutRows(ids[m..], firstId + m, an, now)
  {
    var whole := FanOutRows(ids, firstId, an, now);
    var parts := FanOutRows(ids[..m], firstId, an, now) + FanOutRows(ids[m..], firstId + m, an, now);
    forall i | 0 <= i < |ids|
      ensures whole[i] == parts[i]
    {
      if m <= i {
        assert ids[m..][i - m] == ids[i];
      }
    }
  }

  /** The loop over the remaining users: one plain insert per id and no
      broadcast. `failAt` names the id whose insert fails, if any; the
      inserts before it stay. */
  method InsertRows(db: Db, ids: seq<nat>, an: Announcement, now: nat, failAt: Option<nat>)
    modifies db
    ensures var k := Reached(|ids|, failAt);
            db.Contents() == old(db.Contents()).(
              notifications := old(db.notifications) + FanOutRows(ids[..k], old(db.nextNotificationId), an, now),
              nextNotificationId := old(db.nextNotificationId) + k)
  {
    ghost var s := db.Contents();
    var i := 0;
    while i < |ids|
      invariant 0 <= i <= |ids|
      invariant failAt.None? || failAt.value >= i
      invariant db.Contents() == s.(notifications := s.notifications + FanOutRows(ids[..i], s.nextNotificationId, an, now),
                                    nextNotificationId := s.nextNotificationId + i)
    {
      if failAt == Some(i) {
        return;
      }
      FanOutRowsSnoc(ids[..i], ids[i], s.nextNotificationId, an, now);
      assert ids[..i + 1] == ids[..i] + [ids[i]];
      db.notifications := db.notifications + [Notification(db.nextNotificationId, ids[i], PostKind, an.message, Some(an.link), an.data, false, now)];
      db.nextNotificationId := db.nextNotificationId + 1;
      i := i + 1;
    }
    assert ids[..i] == ids;
  }

  /** The fan-out as the handlers run it: `createNotification` for the first
      recipient, then one insert per remaining recipient. `failAt` names the
      recipient whose insert fails, if any. */
  method FanOut(db: Db, recipients: seq<nat>, an: Announcement, now: nat, failAt: Option<nat>)
    modifies db
    ensures db.Contents() == FanOutSpec(old(db.Contents()), recipients, an, now, failAt)
  {
    if |recipients| == 0 {
      return;
    }
    ghost var s := db.Contents();
    var created := Notifications.CreateNotification(db, recipients[0], PostKind, an.message, now, failAt == Some(0),
                                                    Some(an.link), an.data);
    if created.None? {
      return;
    }
    ghost var first := FirstRow(s, recipients, an, now);
    ghost var s1 := db.Contents();
    assert s1 == s.(notifications := s.notifications + [first], nextNotificationId := s.nextNotificationId + 1,
                    broadcasts := s.broadcasts + [Notifications.Broadcast(s.users, first, Notifications.ActorId(recipients[0], an.data))]);
    InsertRows(db, recipients[1..], an, now, Shift(failAt));
    SpecAfterFirst(s, s1, recipients, an, now, failAt);
  }

  /** The failure index of the insert loop, which starts at the second
      recipient. */
  function Shift(failAt: Option<nat>): (r: Option<nat>)
    ensures r.None? <==> failAt.None? || failAt == Some(0)
    ensures r.Some? ==> r.value + 1 == failAt.value
  {
    if failAt.Some? && failAt.value > 0 then Some(failAt.value - 1) else None
  }

  /** Once the first row is written and broadcast, what is left of the
      fan-out is the insert loop over the other recipients, its failure
      index shifted by one. */
  lemma SpecAfterFirst(s: Store, s1: Store, recipients: seq<nat>, an: Announcement, now: nat, failAt: Option<nat>)
    requires |recipients| > 0 && failAt != Some(0)
    requires var first := FirstRow(s, recipients, an, now);
             s1 == s.(notifications := s.notifications + [first], nextNotificationId := s.nextNotificationId + 1,
                      broadcasts := s.broadcasts + [Notifications.Broadcast(s.users, first, Notifications.ActorId(recipients[0], an.data))])
    ensures var j := Reached(|recipients| - 1, Shift(failAt));
            FanOutSpec(s, recipients, an, now, failAt) ==
            s1.(notifications := s1.notifications + FanOutRows(recipients[1..][..j], s1.nextNotificationId, an, now),
                nextNotificationId := s1.nextNotificationId + j)
  {
    RowsAfterFirst(s, recipients, an, now, failAt);
    var k := Reached(|recipients|, failAt);
    var rest := FanOutRows(recipients[1..][..k - 1], s.nextNotificationId + 1, an, now);
    var all := FanOutRows(recipients[..k], s.nextNotificationId, an, now);
    assert s1.notifications + rest == s.notifications + all;
    assert FanOutSpec(s, recipients, an, now, failAt) ==
           s.(notifications := s.notifications + all, nextNotificationId := s.nextNotificationId + k, broadcasts := s1.broadcasts);
  }

  /** The rows of a fan-out are the first recipient's row followed by the
      rows of the insert loop over the others. */
  lemma RowsAfterFirst(s: Store, recipients: seq<nat>, an: Announcement, now: nat, failAt: Option<nat>)
    requires |recipients| > 0 && failAt != Some(0)
    ensures var k := Reached(|recipients|, failAt);
            && k > 0 && Reached(|recipients| - 1, Shift(failAt)) == k - 1
            && FanOutRows(recipients[..k], s.nextNotificationId, an, now) ==
               [FirstRow(s, recipients, an, now)] + FanOutRows(recipients[1..][..k - 1], s.nextNotificationId + 1, an, now)
  {
    var k := Reached(|recipients|, failAt);
    var whole := FanOutRows(recipients[..k], s.nextNotificationId, an, now);
    var tail := recipients[1..][..k - 1];
    var parts := [FirstRow(s, recipients, an, now)] + FanOutRows(tail, s.nextNotificationId + 1, an, now);
    forall i | 0 <= i < k
      ensures whole[i] == parts[i]
    {
      if 0 < i {
        assert tail[i - 1] == recipients[i];
      }
    }
  }

  /** The whole `try` block of a publish: the author's name, the other
      users and the announcement are read from `s`, then the fan-out runs. */
  function Publish(s: Store, authorId: nat, a: Article, title: string, now: nat, failAt: Option<nat>): Store {
    FanOutSpec(s, Recipients(s.users, authorId), Announce(s.users, authorId, a, title), now, failAt)
  }

  method PublishArticle(db: Db, authorId: nat, a: Article, title: string, now: nat, failAt: Option<nat>)
    modifies db
    ensures db.Contents() == Publish(old(db.Contents()), authorId, a, title, now, failAt)
  {
    var an := Announce(db.users, authorId, a, title);
    var recipients := Recipients(db.users, authorId);
    FanOut(db, recipients, an, now, failAt);
  }

  /** A publish writes to no table but `notifications`, and to the id
      counter and broadcasts that go with it. */
  lemma PublishOnlyNotifies(s: Store, authorId: nat, a: Article, title: string, now: nat, failAt: Option<nat>)
    ensures var s' := Publish(s, authorId, a, title, now, failAt);
            s' == s.(notifications := s'.notifications, nextNotificationId := s'.nextNotificationId, broadcasts := s'.broadcasts)
  {
  }

  /** A fan-out sends exactly one broadcast, carrying the first recipient's
      row, when it writes any row, and none otherwise; it changes no table
      but `notifications`. */
  lemma FanOutBroadcastsOnce(s: Store, recipients: seq<nat>, an: Announcement, now: nat, failAt: Option<nat>)
    ensures var s' := FanOutSpec(s, recipients, an, now, failAt);
            var k := Reached(|recipients|, failAt);
            && |s'.broadcasts| == |s.broadcasts| + (if k > 0 then 1 else 0)
            && s'.broadcasts[..|s.broadcasts|] == s.broadcasts
            && (k > 0 ==> s'.broadcasts[|s.broadcasts|].name == Notifications.NotificationEvent &&
                          s'.broadcasts[|s.broadcasts|].notification == s'.notifications[|s.notifications|] &&
                          s'.notifications[|s.notifications|].userId == recipients[0])
            && s' == s.(notifications := s'.notifications, nextNotificationId := s'.nextNotificationId, broadcasts := s'.broadcasts)
  {
    var s' := FanOutSpec(s, recipients, an, now, failAt);
    var k := Reached(|recipients|, failAt);
    if k > 0 {
      assert s'.notifications[|s.notifications|] == FanOutRows(recipients[..k], s.nextNotificationId, an, now)[0];
    }
  }

  /** The rows written for a list of distinct ids address each of those ids
      once and nobody else. */
  lemma RowsReachEachIdOnce(ids: seq<nat>, firstId: nat, an: Announcement, now: nat)
    requires forall i, j :: 0 <= i < j < |ids| ==> ids[i] != ids[j]
    ensures var rows := FanOutRows(ids, firstId, an, now);
            && (forall i, j :: 0 <= i < j < |rows| ==> rows[i].userId != rows[j].userId)
            && (forall id :: id in ids <==> exists n :: n in rows && n.userId == id)
            && (forall n :: n in rows ==> n.userId in ids && n.kind == PostKind && n.link == Some(an.link))
  {
    var rows := FanOutRows(ids, firstId, an, now);
    forall id | id in ids
      ensures exists n :: n in rows && n.userId == id
    {
      var k :| 0 <= k < |ids| && ids[k] == id;
      assert rows[k] in rows;
    }
    forall n | n in rows
      ensures n.userId in ids && n.kind == PostKind && n.link == Some(an.link)
    {
      var k :| 0 <= k < |rows| && rows[k] == n;
    }
  }

  /** The rows a publish that no failure interrupts adds: one per recipient. */
  lemma PublishAdds(s: Store, authorId: nat, a: Article, title: string, now: nat)
    ensures var s' := Publish(s, authorId, a, title, now, None);
            && |s.notifications| <= |s'.notifications|
            && s'.notifications[|s.notifications|..] ==
               FanOutRows(Recipients(s.users, authorId), s.nextNotificationId, Announce(s.users, authorId, a, title), now)
  {
    var rec := Recipients(s.users, authorId);
    assert rec[..|rec|] == rec;
  }

  /** A publish that no failure interrupts gives every user other than the
      author exactly one `post` notification linking to the article, and
      nobody else any. */
  lemma PublishNotifiesOthers(s: Store, authorId: nat, a: Article, title: string, now: nat)
    requires UserIdsDistinct(s.users)
    ensures var s' := Publish(s, authorId, a, title, now, None);
            var added := s'.notifications[|s.notifications|..];
            && |s.notifications| <= |s'.notifications|
            && (forall i, j :: 0 <= i < j < |added| ==> added[i].userId != added[j].userId)
            && (forall u :: u in s.users ==> (u.id != authorId <==> exists n :: n in added && n.userId == u.id))
            && (forall n :: n in added ==>
                  n.userId != authorId && n.kind == PostKind && n.link == Some(Notifications.ArticlePrefix + LinkTarget(a)))
  {
    var rec := Recipients(s.users, authorId);
    var an := Announce(s.users, authorId, a, title);
    PublishAdds(s, authorId, a, title, now);
    RecipientsAreOthers(s.users, authorId);
    RowsReachEachIdOnce(rec, s.nextNotificationId, an, now);
    var added := FanOutRows(rec, s.nextNotificationId, an, now);
    forall u | u in s.users
      ensures u.id != authorId <==> exists n :: n in added && n.userId == u.id
    {
      if u.id != authorId {
        assert u.id in rec;
      }
    }
    assert an.link == Notifications.ArticlePrefix + LinkTarget(a);
  }

  /** A publish that no failure interrupts broadcasts once when there is
      another user and never otherwise. */
  lemma PublishBroadcastsOnce(s: Store, authorId: nat, a: Article, title: string, now: nat)
    requires UserIdsDistinct(s.users)
    ensures var s' := Publish(s, authorId, a, title, now, None);
            && (|s'.broadcasts| == |s.broadcasts| + 1 <==> exists u :: u in s.users && u.id != authorId)
            && (|s'.broadcasts| == |s.broadcasts| || |s'.broadcasts| == |s.broadcasts| + 1)
  {
    var rec := Recipients(s.users, authorId);
    FanOutBroadcastsOnce(s, rec, Announce(s.users, authorId, a, title), now, None);
    RecipientsAreOthers(s.users, authorId);
    if exists u :: u in s.users && u.id != authorId {
      var u :| u in s.users && u.id != authorId;
      assert u.id in rec;
    }
  }

  /** A fan-out keeps the store well formed. */
  lemma FanOutPreservesWellFormed(s: Store, recipients: seq<nat>, an: Announcement, now: nat, failAt: Option<nat>)
    requires WellFormed(s)
    ensures WellFormed(FanOutSpec(s, recipients, an, now, failAt))
  {
    var s' := FanOutSpec(s, recipients, an, now, failAt);
    var k := Reached(|recipients|, failAt);
    var added := FanOutRows(recipients[..k], s.nextNotificationId, an, now);
    assert s'.notifications == s.notifications + added;
    forall i, j | 0 <= i < j < |s'.notifications|
      ensures s'.notifications[i].id != s'.notifications[j].id
    {
      if j >= |s.notifications| {
        assert s'.notifications[j] == added[j - |s.notifications|];
        if i < |s.notifications| {
          assert s'.notifications[i] == s.notifications[i];
        } else {
          assert s'.notifications[i] == added[i - |s.notifications|];
        }
      }
    }
    forall i | 0 <= i < |s'.notifications|
      ensures 1 <= s'.notifications[i].id < s'.nextNotificationId
    {
      if i >= |s.notifications| {
        assert s'.notifications[i] == added[i - |s.notifications|];
      }
    }
  }

  /** The publish link needs no rewriting: the feed shows it as it was written. */
  lemma PublishLinkShownAsWritten(an: Announcement, slug: Option<string>, postId: Option<nat>, users: seq<User>,
                                  authorId: nat, a: Article, title: string)
    requires an == Announce(users, authorId, a, title)
    ensures Notifications.DisplayLink(Some(an.link), slug, postId) == Some(an.link)
  {
    Notifications.ArticleLinkIsNotPostLink(LinkTarget(a));
  }
}
