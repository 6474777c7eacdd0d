/** The author's own article routes of routes/articleRoutes.mjs: create, list,
    get, update and delete, behind `authenticateToken`. An author sees and
    changes only their own articles (an admin may list everyone's). Creating
    an article as `published`, or updating a non-published one to
    `published`, runs the publish fan-out; a failing notification never fails
    the request. The Article model itself is not part of this model: its
    `create` is an insert that takes the next post id and a slug given as a
    parameter, its `update` replaces the row (or reports none), its `destroy`
    removes the row (or reports failure). The image upload is the `Upload`
    outcome. */
module Articles {
  import opened Common
  import opened Tables
  import Notifications
  import Publishing

  const Published: string := "published"
  const Draft: string := "draft"
  const TitleCategoryRequired: string := "Title and category are required"
  const UploadFailedText: string := "Failed to upload image"
  const ArticleCreated: string := "Article created successfully"
  const ArticleNotFound: string := "Article not found"
  const UpdateFailedText: string := "Failed to update article"
  const ArticleUpdated: string := "Article updated successfully"
  const ArticleDeleted: string := "Article deleted successfully"
  const DeleteFailedText: string := "Failed to delete article"

  /** What became of the optional `thumbnailImage` file: none was sent, it
      was stored under `url`, or storing it failed. */
  datatype Upload = NoFile | Uploaded(url: string) | UploadFailed

  /** The multipart body fields; `None` is an absent field. */
  datatype Form = Form(title: Option<string>, content: Option<string>, categoryId: Option<string>,
                       introduction: Option<string>, status: Option<string>)

  /** The reply: status code, message and the article returned as `data`. */
  datatype Reply = Reply(status: nat, message: string, article: Option<Article>)

  function Status(status: nat, message: string): Reply {
    Reply(status, message, None)
  }

  /** The thumbnail after an upload: the new url, else the one kept before. */
  function Thumbnail(upload: Upload, current: Option<string>): Option<string> {
    if upload.Uploaded? then Some(upload.url) else current
  }

  // ---------------------------------------------------------------------------
  // Create (both the author route and the admin controller)

  /** The row `Article.create(articleData)` writes: absent content and
      introduction become empty, an absent status becomes `draft`, the
      category is `parseInt` of the field, called without a radix, and the
      stored `published` flag follows the status. */
  function NewArticle(id: nat, form: Form, authorId: nat, thumbnail: Option<string>, slug: Option<string>): Article
    requires Truthy(form.title) && Truthy(form.categoryId)
  {
    var status := OrElse(form.status, Draft);
    Article(id, form.title.value, OrElse(form.content, ""), OrElse(form.introduction, ""),
            ParseIntNoRadix(form.categoryId.value), authorId, Some(status), status == Published, slug, thumbnail)
  }

  /** The store and reply after a create. `slug` is the slug the Article
      model gives the new row; `failAt` the recipient whose notification
      insert fails, if any. */
  function CreateSpec(s: Store, authorId: nat, form: Form, upload: Upload, slug: Option<string>,
                      now: nat, failAt: Option<nat>): (Store, Reply)
  {
    if !Truthy(form.title) || !Truthy(form.categoryId) then (s, Status(400, TitleCategoryRequired))
    else if upload.UploadFailed? then (s, Status(500, UploadFailedText))
    else
      var a := NewArticle(s.nextPostId, form, authorId, Thumbnail(upload, None), slug);
      var s1 := s.(posts := s.posts + [a], nextPostId := s.nextPostId + 1);
      var s2 := if form.status == Some(Published) then Publishing.Publish(s1, authorId, a, form.title.value, now, failAt) else s1;
      (s2, Reply(201, ArticleCreated, Some(a)))
  }

  method CreateArticle(db: Db, authorId: nat, form: Form, upload: Upload, slug: Option<string>,
                       now: nat, failAt: Option<nat>) returns (r: Reply)
    modifies db
    ensures (db.Contents(), r) == CreateSpec(old(db.Contents()), authorId, form, upload, slug, now, failAt)
  {
    if !Truthy(form.title) || !Truthy(form.categoryId) {
      return Status(400, TitleCategoryRequired);
    }
    if upload.UploadFailed? {
      return Status(500, UploadFailedText);
    }
    var thumbnail := Thumbnail(upload, None);
    var a := NewArticle(db.nextPostId, form, authorId, thumbnail, slug);
    db.posts := db.posts + [a];
    db.nextPostId := db.nextPostId + 1;
    if form.status == Some(Published) {
      Publishing.PublishArticle(db, authorId, a, form.title.value, now, failAt);
    }
    r := Reply(201, ArticleCreated, Some(a));
  }

  /** A create without a title or a category answers 400, a failed upload
      500, and neither changes anything. A successful create answers 201 with
      the new article, appended under a fresh id with the defaults filled in;
      unless the raw status is `published`, no notification is written and
      nothing is broadcast. */
  lemma CreateOutcomes(s: Store, authorId: nat, form: Form, upload: Upload, slug: Option<string>,
                       now: nat, failAt: Option<nat>)
    requires WellFormed(s)
    ensures var (s', r) := CreateSpec(s, authorId, form, upload, slug, now, failAt);
            && (r.status == 400 <==> !Truthy(form.title) || !Truthy(form.categoryId))
            && (r.status == 500 <==> Truthy(form.title) && Truthy(form.categoryId) && upload.UploadFailed?)
            && (r.status == 400 || r.status == 500 || r.status == 201)
            && (r.status != 201 ==> s' == s)
            && (r.status == 201 ==>
                  && r.article.Some?
                  && var a := r.article.value;
                  && s'.posts == s.posts + [a]
                  && (forall p :: p in s.posts ==> p.id != a.id)
                  && a.authorId == authorId && a.title == form.title.value
                  && a.content == OrElse(form.content, "") && a.introduction == OrElse(form.introduction, "")
                  && a.status == Some(OrElse(form.status, Draft))
                  && a.categoryId == ParseIntNoRadix(form.categoryId.value)
                  && s'.users == s.users && s'.postLikes == s.postLikes && s'.categories == s.categories
                  && (form.status != Some(Published) ==>
                        s'.notifications == s.notifications && s'.broadcasts == s.broadcasts))
  {
    var (s', r) := CreateSpec(s, authorId, form, upload, slug, now, failAt);
    if r.status == 201 {
      forall p | p in s.posts
        ensures p.id != r.article.value.id
      {
        var i :| 0 <= i < |s.posts| && s.posts[i] == p;
      }
      if form.status == Some(Published) {
        var s1 := s.(posts := s.posts + [r.article.value], nextPostId := s.nextPostId + 1);
        Publishing.FanOutBroadcastsOnce(s1, Publishing.Recipients(s1.users, authorId),
                                        Publishing.Announce(s1.users, authorId, r.article.value, form.title.value), now, failAt);
      }
    }
  }

  /** A failing notification never fails a create: whichever insert of the
      fan-out fails, the reply and the new article are the same. */
  lemma CreateIgnoresNotificationFailure(s: Store, authorId: nat, form: Form, upload: Upload, slug: Option<string>,
                                         now: nat, failAt: Option<nat>, otherFailAt: Option<nat>)
    ensures CreateSpec(s, authorId, form, upload, slug, now, failAt).1 == CreateSpec(s, authorId, form, upload, slug, now, otherFailAt).1
    ensures CreateSpec(s, authorId, form, upload, slug, now, failAt).0.posts == CreateSpec(s, authorId, form, upload, slug, now, otherFailAt).0.posts
  {
    CreateAsWithoutFailure(s, authorId, form, upload, slug, now, failAt);
    CreateAsWithoutFailure(s, authorId, form, upload, slug, now, otherFailAt);
  }

  /** A create with a failing insert has the reply and the articles of the
      same create with none failing. */
  lemma CreateAsWithoutFailure(s: Store, authorId: nat, form: Form, upload: Upload, slug: Option<string>,
                               now: nat, failAt: Option<nat>)
    ensures CreateSpec(s, authorId, form, upload, slug, now, failAt).1 == CreateSpec(s, authorId, form, upload, slug, now, None).1
    ensures CreateSpec(s, authorId, form, upload, slug, now, failAt).0.posts == CreateSpec(s, authorId, form, upload, slug, now, None).0.posts
  {
    if Truthy(form.title) && Truthy(form.categoryId) && !upload.UploadFailed? && form.status == Some(Published) {
      var a := NewArticle(s.nextPostId, form, authorId, Thumbnail(upload, None), slug);
      var s1 := s.(posts := s.posts + [a], nextPostId := s.nextPostId + 1);
      Publishing.PublishOnlyNotifies(s1, authorId, a, form.title.value, now, failAt);
      Publishing.PublishOnlyNotifies(s1, authorId, a, form.title.value, now, None);
    }
  }

  /** Creating an article as `published`, with no insert failing, gives
      every user other than the author exactly one `post` notification,
      linking to the article by slug (or id), and nobody else any; exactly
      one event is broadcast when there is another user, none otherwise. */
  lemma CreatePublishedNotifiesOthers(s: Store, authorId: nat, form: Form, upload: Upload, slug: Option<string>, now: nat)
    requires UserIdsDistinct(s.users)
    requires Truthy(form.title) && Truthy(form.categoryId) && !upload.UploadFailed?
    requires form.status == Some(Published)
    ensures var (s', r) := CreateSpec(s, authorId, form, upload, slug, now, None);
            var added := s'.notifications[|s.notifications|..];
            && r.status == 201
            && (forall i, j :: 0 <= i < j < |added| ==> added[i].userId != added[j].userId)
            && (forall u :: u in s.users ==> (u.id != authorId <==> exists n :: n in added && n.userId == u.id))
            && (forall n :: n in added ==>
                  n.userId != authorId && n.kind == Publishing.PostKind &&
                  n.link == Some(Notifications.ArticlePrefix + Publishing.LinkTarget(r.article.value)))
            && (|s'.broadcasts| == |s.broadcasts| + 1 <==> exists u :: u in s.users && u.id != authorId)
            && (|s'.broadcasts| == |s.broadcasts| || |s'.broadcasts| == |s.broadcasts| + 1)
  {
    var (s', r) := CreateSpec(s, authorId, form, upload, slug, now, None);
    var a := r.article.value;
    var s1 := s.(posts := s.posts + [a], nextPostId := s.nextPostId + 1);
    Publishing.PublishNotifiesOthers(s1, authorId, a, form.title.value, now);
    Publishing.PublishBroadcastsOnce(s1, authorId, a, form.title.value, now);
  }

  // ---------------------------------------------------------------------------
  // List and get

  /** `GET /`: an admin asking with a truthy `viewAll` sees every article,
      anyone else only their own. */
  function ListArticles(posts: seq<Article>, user: User, viewAll: Option<string>): (r: seq<Article>)
  {
    if user.role != Admin || !Truthy(viewAll) then Filter(posts, (a: Article) => a.authorId == user.id) else posts
  }

  lemma ListScope(posts: seq<Article>, user: User, viewAll: Option<string>)
    ensures forall a :: a in ListArticles(posts, user, viewAll) <==>
              a in posts && (a.authorId == user.id || (user.role == Admin && Truthy(viewAll)))
  {
  }

  /** `GET /:id`: the article when it exists and belongs to the caller, else 404. */
  function GetArticle(posts: seq<Article>, userId: nat, id: nat): (r: Reply)
  {
    match PostById(posts, id)
    case None => Status(404, ArticleNotFound)
    case Some(a) => if a.authorId != userId then Status(404, ArticleNotFound) else Reply(200, "", Some(a))
  }

  /** Another author's article is reported exactly like a missing one. */
  lemma GetArticleOwnOnly(posts: seq<Article>, userId: nat, id: nat)
    ensures var r := GetArticle(posts, userId, id);
            && (r.status == 404 || r.status == 200)
            && (r.status == 200 <==> PostById(posts, id).Some? && PostById(posts, id).value.authorId == userId)
            && (r.status == 200 ==> r.article == PostById(posts, id) && r.article.value in posts)
            && (r.status == 404 ==> r == Status(404, ArticleNotFound))
  {
  }

  // ---------------------------------------------------------------------------
  // Update

  /** The row an update writes: each field the form leaves falsy keeps its
      stored value; a truthy category is parsed with radix 10. */
  function Merge(a: Article, form: Form, thumbnail: Option<string>, status: string): Article {
    a.(title := OrElse(form.title, a.title),
       content := OrElse(form.content, a.content),
       categoryId := if Truthy(form.categoryId) then ParseInt(form.categoryId.value) else a.categoryId,
       introduction := OrElse(form.introduction, a.introduction),
       status := Some(status),
       published := status == Published,
       thumbnailUrl := thumbnail)
  }

  /** The merge replaces a field exactly when the form carries a non-empty
      value for it; id, author and slug never change. */
  lemma MergeKeepsFalsyFields(a: Article, form: Form, thumbnail: Option<string>, status: string)
    ensures var m := Merge(a, form, thumbnail, status);
            && m.id == a.id && m.authorId == a.authorId && m.slug == a.slug
            && (Truthy(form.title) ==> m.title == form.title.value) && (!Truthy(form.title) ==> m.title == a.title)
            && (Truthy(form.content) ==> m.content == form.content.value) && (!Truthy(form.content) ==> m.content == a.content)
            && (Truthy(form.introduction) ==> m.introduction == form.introduction.value)
            && (!Truthy(form.introduction) ==> m.introduction == a.introduction)
            && (!Truthy(form.categoryId) ==> m.categoryId == a.categoryId)
            && (m == a <== form == Form(None, None, None, None, None) && thumbnail == a.thumbnailUrl &&
                           a.status == Some(status) && a.published == (status == Published))
  {
  }

  /** `WHERE id = $1`. */
  function HasId(id: nat): Article -> bool {
    (p: Article) => p.id == id
  }

  /** The stored status, `draft` when there is none. */
  function OldStatus(a: Article): string {
    OrElse(a.status, Draft)
  }

  /** The store and reply after an update. `updateReturnsNull` stands for the
      Article model reporting that it updated nothing. */
  function UpdateSpec(s: Store, userId: nat, id: nat, form: Form, upload: Upload, updateReturnsNull: bool,
                      now: nat, failAt: Option<nat>): (Store, Reply)
  {
    match PostById(s.posts, id)
    case None => (s, Status(404, ArticleNotFound))
    case Some(a) =>
      if a.authorId != userId then (s, Status(404, ArticleNotFound))
      else if upload.UploadFailed? then (s, Status(500, UploadFailedText))
      else
        var newStatus := OrElse(form.status, OldStatus(a));
        var m := Merge(a, form, Thumbnail(upload, a.thumbnailUrl), newStatus);
        if updateReturnsNull then (s, Status(404, UpdateFailedText))
        else
          var s1 := s.(posts := UpdateWhere(s.posts, HasId(id), _ => m));
          var s2 := if OldStatus(a) != Published && newStatus == Published
                    then Publishing.Publish(s1, userId, m, m.title, now, failAt) else s1;
          (s2, Reply(200, ArticleUpdated, Some(m)))
  }

  method UpdateArticle(db: Db, userId: nat, id: nat, form: Form, upload: Upload, updateReturnsNull: bool,
                       now: nat, failAt: Option<nat>) returns (r: Reply)
    modifies db
    ensures (db.Contents(), r) == UpdateSpec(old(db.Contents()), userId, id, form, upload, updateReturnsNull, now, failAt)
  {
    var found := PostById(db.posts, id);
    if found.None? || found.value.authorId != userId {
      return Status(404, ArticleNotFound);
    }
    var a := found.value;
    if upload.UploadFailed? {
      return Status(500, UploadFailedText);
    }
    var oldStatus := OldStatus(a);
    var newStatus := OrElse(form.status, oldStatus);
    var wasDraft := oldStatus != Published;
    var willBePublished := newStatus == Published;
    var m := Merge(a, form, Thumbnail(upload, a.thumbnailUrl), newStatus);
    if updateReturnsNull {
      return Status(404, UpdateFailedText);
    }
    db.posts := UpdateWhere(db.posts, HasId(id), _ => m);
    if wasDraft && willBePublished {
      Publishing.PublishArticle(db, userId, m, m.title, now, failAt);
    }
    r := Reply(200, ArticleUpdated, Some(m));
  }

  /** An update of a missing article or of another author's answers 404, a
      failed upload 500, a model that updates nothing 404 with its own
      message, and none of these change anything. A successful one rewrites
      exactly the rows with that id and leaves users, likes and categories
      as they were. */
  lemma UpdateOutcomes(s: Store, userId: nat, id: nat, form: Form, upload: Upload, updateReturnsNull: bool,
                       now: nat, failAt: Option<nat>)
    ensures var (s', r) := UpdateSpec(s, userId, id, form, upload, updateReturnsNull, now, failAt);
            && (r == Status(404, ArticleNotFound) <==>
                  PostById(s.posts, id).None? || PostById(s.posts, id).value.authorId != userId)
            && (r.status == 200 <==>
                  PostById(s.posts, id).Some? && PostById(s.posts, id).value.authorId == userId &&
                  !upload.UploadFailed? && !updateReturnsNull)
            && (r.status != 200 ==> s' == s)
            && (r.status == 200 ==>
                  && r.article.Some? && r.article.value.id == id && r.article.value.authorId == userId
                  && |s'.posts| == |s.posts|
                  && (forall i :: 0 <= i < |s.posts| ==> s'.posts[i] == if s.posts[i].id == id then r.article.value else s.posts[i])
                  && s'.users == s.users && s'.postLikes == s.postLikes && s'.categories == s.categories)
  {
    var (s', r) := UpdateSpec(s, userId, id, form, upload, updateReturnsNull, now, failAt);
    if r.status == 200 {
      var a := PostById(s.posts, id).value;
      var m := r.article.value;
      var s1 := s.(posts := UpdateWhere(s.posts, HasId(id), _ => m));
      var newStatus := OrElse(form.status, OldStatus(a));
      if OldStatus(a) != Published && newStatus == Published {
        Publishing.FanOutBroadcastsOnce(s1, Publishing.Recipients(s1.users, userId),
                                        Publishing.Announce(s1.users, userId, m, m.title), now, failAt);
      }
    }
  }

  /** Only a change from a non-published status to `published` notifies
      anyone: any other update, including one of an article already
      published, writes no notification and broadcasts nothing. */
  lemma UpdateNotifiesOnlyOnPublish(s: Store, userId: nat, id: nat, form: Form, upload: Upload, updateReturnsNull: bool,
                                    now: nat, failAt: Option<nat>)
    ensures var (s', r) := UpdateSpec(s, userId, id, form, upload, updateReturnsNull, now, failAt);
            (s'.notifications != s.notifications || s'.broadcasts != s.broadcasts) ==>
              && r.status == 200
              && OldStatus(PostById(s.posts, id).value) != Published
              && OrElse(form.status, OldStatus(PostById(s.posts, id).value)) == Published
  {
    var (s', r) := UpdateSpec(s, userId, id, form, upload, updateReturnsNull, now, failAt);
    if r.status == 200 {
      var a := PostById(s.posts, id).value;
      var m := r.article.value;
      var s1 := s.(posts := UpdateWhere(s.posts, HasId(id), _ => m));
      var newStatus := OrElse(form.status, OldStatus(a));
      if OldStatus(a) != Published && newStatus == Published {
        Publishing.FanOutBroadcastsOnce(s1, Publishing.Recipients(s1.users, userId),
                                        Publishing.Announce(s1.users, userId, m, m.title), now, failAt);
      }
    }
  }

  /** Publishing a draft by update, with no insert failing, broadcasts
      exactly once when some other user exists; a failing notification never
      changes the reply. */
  lemma UpdatePublishBroadcastsOnce(s: Store, userId: nat, id: nat, form: Form, upload: Upload,
                                    now: nat, failAt: Option<nat>)
    requires UserIdsDistinct(s.users)
    requires PostById(s.posts, id).Some? && PostById(s.posts, id).value.authorId == userId && !upload.UploadFailed?
    requires OldStatus(PostById(s.posts, id).value) != Published && form.status == Some(Published)
    ensures var (s', r) := UpdateSpec(s, userId, id, form, upload, false, now, None);
            && r.status == 200
            && (|s'.broadcasts| == |s.broadcasts| + 1 <==> exists u :: u in s.users && u.id != userId)
    ensures UpdateSpec(s, userId, id, form, upload, false, now, failAt).1 == UpdateSpec(s, userId, id, form, upload, false, now, None).1
  {
    UpdateReplyWithoutFailure(s, userId, id, form, upload, now, failAt);
    var a := PostById(s.posts, id).value;
    var m := Merge(a, form, Thumbnail(upload, a.thumbnailUrl), OrElse(form.status, OldStatus(a)));
    var s1 := s.(posts := UpdateWhere(s.posts, HasId(id), _ => m));
    assert UpdateSpec(s, userId, id, form, upload, false, now, None).0 == Publishing.Publish(s1, userId, m, m.title, now, None);
    Publishing.PublishBroadcastsOnce(s1, userId, m, m.title, now);
  }

  /** The reply of an update does not depend on whether a notification
      insert fails. */
  lemma UpdateReplyWithoutFailure(s: Store, userId: nat, id: nat, form: Form, upload: Upload, now: nat, failAt: Option<nat>)
    ensures UpdateSpec(s, userId, id, form, upload, false, now, failAt).1 == UpdateSpec(s, userId, id, form, upload, false, now, None).1
  {
  }

  // ---------------------------------------------------------------------------
  // Delete

  /** The store and reply after a delete; `destroyFails` stands for the
      Article model reporting that it removed nothing. */
  function DeleteSpec(s: Store, userId: nat, id: nat, destroyFails: bool): (Store, Reply) {
    match PostById(s.posts, id)
    case None => (s, Status(404, ArticleNotFound))
    case Some(a) =>
      if a.authorId != userId then (s, Status(404, ArticleNotFound))
      else if destroyFails then (s, Status(500, DeleteFailedText))
      else (s.(posts := Filter(s.posts, (p: Article) => p.id != id)), Status(200, ArticleDeleted))
  }

  method DeleteArticle(db: Db, userId: nat, id: nat, destroyFails: bool) returns (r: Reply)
    modifies db
    ensures (db.Contents(), r) == DeleteSpec(old(db.Contents()), userId, id, destroyFails)
  {
    var found := PostById(db.posts, id);
    if found.None? || found.value.authorId != userId {
      return Status(404, ArticleNotFound);
    }
    if destroyFails {
      return Status(500, DeleteFailedText);
    }
    db.posts := Filter(db.posts, (p: Article) => p.id != id);
    r := Status(200, ArticleDeleted);
  }

  /** A delete of a missing article or of another author's answers 404 and
      changes nothing; the owner's delete answers 500, changing nothing,
      exactly when `Article.destroy` fails, and 200 otherwise, removing that
      article's rows and no other row of any table. */
  lemma DeleteOutcomes(s: Store, userId: nat, id: nat, destroyFails: bool)
    ensures var (s', r) := DeleteSpec(s, userId, id, destroyFails);
            && (r.status == 404 || r.status == 500 || r.status == 200)
            && (r.status == 404 <==> PostById(s.posts, id).None? || PostById(s.posts, id).value.authorId != userId)
            && (r.status == 500 <==> PostById(s.posts, id).Some? && PostById(s.posts, id).value.authorId == userId && destroyFails)
            && (r.status != 200 ==> s' == s)
            && (r.status == 200 ==>
                  && (forall p :: p in s'.posts <==> p in s.posts && p.id != id)
                  && |s'.posts| < |s.posts|
                  && s' == s.(posts := s'.posts))
  {
    var (s', r) := DeleteSpec(s, userId, id, destroyFails);
    if r.status == 200 {
      var keep := (p: Article) => p.id != id;
      var hit := (p: Article) => p.id == id;
      FilterSplit(s.posts, hit, keep);
      var a := PostById(s.posts, id).value;
      assert Count(s.posts, hit) != 0 by {
        assert a in s.posts && hit(a);
      }
    }
  }
}
