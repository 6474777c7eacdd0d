/** The admin article controller of controllers/admin/articleController.mjs:
    the upload filter, get by id, update and delete. Its create handler
    behaves as the author route's and is `Articles.CreateArticle`. Unlike the
    author routes, update and delete check no ownership, the update merge
    replaces `introduction` and `content` whenever the body carries them
    (even empty), the old status falls back to the stored `published` flag,
    and the fan-out is sent in the name of the admin making the request. */
module AdminArticles {
  import opened Common
  import opened Tables
  import Publishing
  import opened Articles

  // ---------------------------------------------------------------------------
  // The upload filter

  /** The multer size limit, in bytes. */
  const MaxUploadBytes: nat := 5 * 1024 * 1024

  const AllowedTypes: seq<string> := ["image/jpeg", "image/png", "image/gif", "image/webp"]
  const InvalidFileType: string := "Invalid file type. Only JPEG, PNG, GIF and WEBP are allowed"

  /** What multer makes of a `thumbnailImage` part: the type filter runs
      first, then the size limit. */
  datatype UploadCheck = Accepted | WrongType(message: string) | TooLarge

  function CheckUpload(mimeType: string, size: nat): UploadCheck {
    if mimeType !in AllowedTypes then WrongType(InvalidFileType)
    else if size > MaxUploadBytes then TooLarge
    else Accepted
  }

  /** A file is accepted exactly when it is a JPEG, PNG, GIF or WEBP image of
      at most five mebibytes; a file of another type is refused for its type
      whatever its size. */
  lemma CheckUploadAccepts(mimeType: string, size: nat)
    ensures CheckUpload(mimeType, size) == Accepted <==>
              (mimeType == "image/jpeg" || mimeType == "image/png" || mimeType == "image/gif" || mimeType == "image/webp") &&
              size <= 5242880
    ensures CheckUpload(mimeType, size).WrongType? <==> mimeType !in AllowedTypes
    ensures CheckUpload("image/svg+xml", size) == WrongType(InvalidFileType)
  {
    assert "image/svg+xml" != AllowedTypes[0] && "image/svg+xml" != AllowedTypes[1];
    assert "image/svg+xml" != AllowedTypes[2] && "image/svg+xml" != AllowedTypes[3];
  }

  // ---------------------------------------------------------------------------
  // getArticleById

  function GetArticleById(posts: seq<Article>, id: nat): (r: Reply) {
    match PostById(posts, id)
    case None => Status(404, ArticleNotFound)
    case Some(a) => Reply(200, "", Some(a))
  }

  /** Any article is found, whoever wrote it; a missing one is 404. */
  lemma GetArticleByIdFinds(posts: seq<Article>, id: nat)
    ensures GetArticleById(posts, id).status == 200 <==> exists a :: a in posts && a.id == id
    ensures GetArticleById(posts, id).status != 200 ==> GetArticleById(posts, id) == Status(404, ArticleNotFound)
    ensures GetArticleById(posts, id).status == 200 ==>
              var a := GetArticleById(posts, id).article.value;
              a in posts && a.id == id
  {
  }

  // ---------------------------------------------------------------------------
  // updateArticle

  /** The stored status, else `published` or `draft` by the stored flag. */
  function AdminOldStatus(a: Article): string {
    if Truthy(a.status) then a.status.value else if a.published then Published else Draft
  }

  /** The admin merge: an absent or empty title and an absent or empty
      category keep the stored values; introduction and content are replaced
      whenever the body has them. The category is parsed without a radix. */
  function AdminMerge(a: Article, form: Form, thumbnail: Option<string>, status: string): Article {
    a.(title := OrElse(form.title, a.title),
       introduction := if form.introduction.Some? then form.introduction.value else a.introduction,
       content := if form.content.Some? then form.content.value else a.content,
       thumbnailUrl := thumbnail,
       categoryId := if Truthy(form.categoryId) then ParseIntNoRadix(form.categoryId.value) else a.categoryId,
       status := Some(status),
       published := status == Published)
  }

  /** An empty introduction or content overwrites the stored one, while an
      empty title or category keeps it. */
  lemma AdminMergeRules(a: Article, form: Form, thumbnail: Option<string>, status: string)
    ensures var m := AdminMerge(a, form, thumbnail, status);
            && m.id == a.id && m.authorId == a.authorId && m.slug == a.slug
            && (form.introduction == Some("") ==> m.introduction == "")
            && (form.content == Some("") ==> m.content == "")
            && (form.introduction.None? ==> m.introduction == a.introduction)
            && (form.content.None? ==> m.content == a.content)
            && (!Truthy(form.title) ==> m.title == a.title)
            && (Truthy(form.title) ==> m.title == form.title.value)
            && (!Truthy(form.categoryId) ==> m.categoryId == a.categoryId)
  {
  }

  /** The admin update parses the category without a radix and the
      author route with radix 10, so a `0x` category such as `"0x1f"` is
      stored as 31 by one and as 0 by the other. */
  lemma CategoryRadixDiffers(a: Article, form: Form, thumbnail: Option<string>, status: string)
    requires form.categoryId == Some("0x1f")
    ensures AdminMerge(a, form, thumbnail, status).categoryId == Some(31)
    ensures Merge(a, form, thumbnail, status).categoryId == Some(0)
  {
    HexPrefixExamples();
  }

  /** The store and reply after an admin update. `userId` is the admin
      making the request; `updateReturnsNull` stands for `Article.update`
      returning null. The handler does not check for that: the notification
      block then throws on `updatedArticle.slug` before any insert, the
      error is swallowed, and the reply is 200 with no article. */
  function AdminUpdateSpec(s: Store, userId: nat, id: nat, form: Form, upload: Upload, updateReturnsNull: bool,
                           now: nat, failAt: Option<nat>): (Store, Reply)
  {
    match PostById(s.posts, id)
    case None => (s, Status(404, ArticleNotFound))
    case Some(a) =>
      if upload.UploadFailed? then (s, Status(500, UploadFailedText))
      else
        var newStatus := OrElse(form.status, AdminOldStatus(a));
        var m := AdminMerge(a, form, Thumbnail(upload, a.thumbnailUrl), newStatus);
        if updateReturnsNull then (s, Reply(200, ArticleUpdated, None))
        else
          var s1 := s.(posts := UpdateWhere(s.posts, HasId(id), _ => m));
          var s2 := if AdminOldStatus(a) != Published && newStatus == Published
                    then Publishing.Publish(s1, userId, m, m.title, now, failAt) else s1;
          (s2, Reply(200, ArticleUpdated, Some(m)))
  }

  method AdminUpdateArticle(db: Db, userId: nat, id: nat, form: Form, upload: Upload, updateReturnsNull: bool,
                            now: nat, failAt: Option<nat>)
    returns (r: Reply)
    modifies db
    ensures (db.Contents(), r) == AdminUpdateSpec(old(db.Contents()), userId, id, form, upload, updateReturnsNull, now, failAt)
  {
    var found := PostById(db.posts, id);
    if found.None? {
      return Status(404, ArticleNotFound);
    }
    var a := found.value;
    if upload.UploadFailed? {
      return Status(500, UploadFailedText);
    }
    var oldStatus := AdminOldStatus(a);
    var newStatus := OrElse(form.status, oldStatus);
    var m := AdminMerge(a, form, Thumbnail(upload, a.thumbnailUrl), newStatus);
    if updateReturnsNull {
      return Reply(200, ArticleUpdated, None);
    }
    db.posts := UpdateWhere(db.posts, HasId(id), _ => m);
    if oldStatus != Published && newStatus == Published {
      Publishing.PublishArticle(db, userId, m, m.title, now, failAt);
    }
    r := Reply(200, ArticleUpdated, Some(m));
  }

  /** Only a missing article gives 404, whoever asks; a failed upload gives
      500; neither changes anything. Otherwise the reply is 200: with no
      article and no change at all when the update returns null, and else
      with the merged article, exactly the rows with that id rewritten. */
  lemma AdminUpdateOutcomes(s: Store, userId: nat, id: nat, form: Form, upload: Upload, updateReturnsNull: bool,
                            now: nat, failAt: Option<nat>)
    ensures var (s', r) := AdminUpdateSpec(s, userId, id, form, upload, updateReturnsNull, now, failAt);
            && (r.status == 404 <==> PostById(s.posts, id).None?)
            && (r.status == 500 <==> PostById(s.posts, id).Some? && upload.UploadFailed?)
            && (r.status == 404 || r.status == 500 || r.status == 200)
            && (r.status == 200 ==> r.message == ArticleUpdated)
            && (r.status == 200 && r.article.None? <==> PostById(s.posts, id).Some? && !upload.UploadFailed? && updateReturnsNull)
            && (r.status != 200 || r.article.None? ==> s' == s)
            && (r.status == 200 && r.article.Some? ==>
                  && r.article.Some? && r.article.value.id == id
                  && r.article.value.authorId == PostById(s.posts, id).value.authorId
                  && |s'.posts| == |s.posts|
                  && (forall i :: 0 <= i < |s.posts| ==> s'.posts[i] == if s.posts[i].id == id then r.article.value else s.posts[i])
                  && s'.users == s.users && s'.postLikes == s.postLikes && s'.categories == s.categories)
  {
    var (s', r) := AdminUpdateSpec(s, userId, id, form, upload, updateReturnsNull, now, failAt);
    if r.status == 200 && r.article.Some? {
      var a := PostById(s.posts, id).value;
      var m := r.article.value;
      var s1 := s.(posts := UpdateWhere(s.posts, HasId(id), _ => m));
      if AdminOldStatus(a) != Published && OrElse(form.status, AdminOldStatus(a)) == Published {
        Publishing.FanOutBroadcastsOnce(s1, Publishing.Recipients(s1.users, userId),
                                        Publishing.Announce(s1.users, userId, m, m.title), now, failAt);
      }
    }
  }

  /** The admin update checks no ownership: who asks changes neither the
      reply's status nor the articles table. */
  lemma AdminUpdateIgnoresOwner(s: Store, userId: nat, otherUserId: nat, id: nat, form: Form, upload: Upload,
                                updateReturnsNull: bool, now: nat, failAt: Option<nat>)
    ensures AdminUpdateSpec(s, userId, id, form, upload, updateReturnsNull, now, failAt).1 ==
            AdminUpdateSpec(s, otherUserId, id, form, upload, updateReturnsNull, now, failAt).1
    ensures AdminUpdateSpec(s, userId, id, form, upload, updateReturnsNull, now, failAt).0.posts ==
            AdminUpdateSpec(s, otherUserId, id, form, upload, updateReturnsNull, now, failAt).0.posts
  {
    AdminUpdateOutcomes(s, userId, id, form, upload, updateReturnsNull, now, failAt);
    AdminUpdateOutcomes(s, otherUserId, id, form, upload, updateReturnsNull, now, failAt);
  }

  /** Only a change from a non-published status (the flag deciding when no
      status is stored) to `published`, by an update that returns the row,
      notifies anyone. */
  lemma AdminUpdateNotifiesOnlyOnPublish(s: Store, userId: nat, id: nat, form: Form, upload: Upload, updateReturnsNull: bool,
                                         now: nat, failAt: Option<nat>)
    ensures var (s', r) := AdminUpdateSpec(s, userId, id, form, upload, updateReturnsNull, now, failAt);
            (s'.notifications != s.notifications || s'.broadcasts != s.broadcasts) ==>
              && r.status == 200 && r.article.Some? && !updateReturnsNull
              && AdminOldStatus(PostById(s.posts, id).value) != Published
              && OrElse(form.status, AdminOldStatus(PostById(s.posts, id).value)) == Published
  {
    AdminUpdateOutcomes(s, userId, id, form, upload, updateReturnsNull, now, failAt);
  }

  /** An admin publishing someone else's draft, by an update that returns
      the row, is the sender: the fan-out leaves the admin out and notifies
      the article's author like any other user. When the update returns
      null, nobody is notified. */
  lemma AdminPublishNotifiesAuthor(s: Store, userId: nat, id: nat, form: Form, upload: Upload, now: nat, author: User)
    requires UserIdsDistinct(s.users)
    requires PostById(s.posts, id).Some? && !upload.UploadFailed?
    requires AdminOldStatus(PostById(s.posts, id).value) != Published && form.status == Some(Published)
    requires author in s.users && author.id == PostById(s.posts, id).value.authorId && author.id != userId
    ensures var s' := AdminUpdateSpec(s, userId, id, form, upload, false, now, None).0;
            && |s.notifications| <= |s'.notifications|
            && exists n :: n in s'.notifications[|s.notifications|..] && n.userId == author.id
    ensures AdminUpdateSpec(s, userId, id, form, upload, true, now, None).0.notifications == s.notifications
  {
    var (s', r) := AdminUpdateSpec(s, userId, id, form, upload, false, now, None);
    var m := r.article.value;
    var s1 := s.(posts := UpdateWhere(s.posts, HasId(id), _ => m));
    Publishing.PublishNotifiesOthers(s1, userId, m, m.title, now);
  }

  // ---------------------------------------------------------------------------
  // deleteArticle

  /** The store and reply after an admin delete. `destroyFails` stands for
      `Article.destroy` removing nothing; its result is not looked at, so the
      reply is the same 200 either way. */
  function AdminDeleteSpec(s: Store, id: nat, destroyFails: bool): (Store, Reply) {
    match PostById(s.posts, id)
    case None => (s, Status(404, ArticleNotFound))
    case Some(_) =>
      if destroyFails then (s, Status(200, ArticleDeleted))
      else (s.(posts := Filter(s.posts, (p: Article) => p.id != id)), Status(200, ArticleDeleted))
  }

  method AdminDeleteArticle(db: Db, id: nat, destroyFails: bool) returns (r: Reply)
    modifies db
    ensures (db.Contents(), r) == AdminDeleteSpec(old(db.Contents()), id, destroyFails)
  {
    var found := PostById(db.posts, id);
    if found.None? {
      return Status(404, ArticleNotFound);
    }
    if !destroyFails {
      db.posts := Filter(db.posts, (p: Article) => p.id != id);
    }
    r := Status(200, ArticleDeleted);
  }

  /** Only a missing article gives 404 (and no change); otherwise the reply
      is 200, and the article's rows, and no other row of any table, go
      exactly when `Article.destroy` does not fail. */
  lemma AdminDeleteOutcomes(s: Store, id: nat, destroyFails: bool)
    ensures var (s', r) := AdminDeleteSpec(s, id, destroyFails);
            && (r.status == 404 <==> forall a :: a in s.posts ==> a.id != id)
            && (r.status != 404 ==> r.status == 200)
            && (r.status == 404 ==> s' == s)
            && (r.status == 200 && s' == s <==> PostById(s.posts, id).Some? && destroyFails)
            && (r.status == 200 && !destroyFails ==>
                  && (forall p :: p in s'.posts <==> p in s.posts && p.id != id)
                  && |s'.posts| < |s.posts|
                  && s' == s.(posts := s'.posts))
  {
    var (s', r) := AdminDeleteSpec(s, id, destroyFails);
    if r.status == 200 && !destroyFails {
      var keep := (p: Article) => p.id != id;
      var hit := (p: Article) => p.id == id;
      FilterSplit(s.posts, hit, keep);
      var a := PostById(s.posts, id).value;
      assert Count(s.posts, hit) != 0 by {
        assert a in s.posts && hit(a);
      }
    }
  }
}
