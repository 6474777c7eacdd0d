/** The editor's category table of routes/admin/categoryRoutes.mjs: create
    with a unique name, search, get, update and delete, every route behind
    `authenticateToken` and `authorizeEditorOrAdmin`.

    `slugify` is a parameter. The update and delete handlers go through
    the `Category` model, which is not part of this model; here it updates
    or removes the row with that id, keeps the slug on update, and refuses
    to delete a category that some article still names. */
module Categories {
  import opened Common
  import opened Tables
  import Gate

  const NameRequired: string := "Category name is required"
  const NameTaken: string := "Category name already exists"
  const QueryRequired: string := "Search query is required"
  const NotFound: string := "Category not found"
  const HasArticles: string := "Cannot delete category that has articles"
  const Deleted: string := "Category deleted successfully"

  /** The status, the message (empty on success) and the rows sent back. */
  datatype Reply = Reply(status: nat, message: string, rows: seq<Category>)

  function Fail(status: nat, message: string): Reply {
    Reply(status, message, [])
  }

  /** The name rule `POST /` enforces: no two rows share a name. */
  predicate NamesUnique(rows: seq<Category>) {
    forall i, j :: 0 <= i < j < |rows| ==> rows[i].name != rows[j].name
  }

  function Named(name: string): Category -> bool {
    (c: Category) => c.name == name
  }

  function WithId(id: nat): Category -> bool {
    (c: Category) => c.id == id
  }

  function CategoryById(rows: seq<Category>, id: nat): (r: Option<Category>)
    ensures r.Some? ==> r.value in rows && r.value.id == id
    ensures r.None? <==> forall c :: c in rows ==> c.id != id
  {
    First(rows, WithId(id))
  }

  // ---------------------------------------------------------------------
  // POST /
  // ---------------------------------------------------------------------

  /** The store and reply after `POST /` with body `name`, `description`. */
  function CreateSpec(s: Store, name: Option<string>, description: Option<string>, slugify: string -> string): (out: (Store, Reply))
  {
    if !Truthy(name) then (s, Fail(400, NameRequired))
    else if First(s.categories, Named(name.value)).Some? then (s, Fail(409, NameTaken))
    else
      var row := Category(s.nextCategoryId, name.value, slugify(name.value), description);
      (s.(categories := s.categories + [row], nextCategoryId := s.nextCategoryId + 1), Reply(201, "", [row]))
  }

  method CreateCategory(db: Db, name: Option<string>, description: Option<string>, slugify: string -> string) returns (r: Reply)
    modifies db
    ensures (db.Contents(), r) == CreateSpec(old(db.Contents()), name, description, slugify)
  {
    if !Truthy(name) {
      return Fail(400, NameRequired);
    }
    var existing := First(db.categories, Named(name.value));
    if existing.Some? {
      return Fail(409, NameTaken);
    }
    var row := Category(db.nextCategoryId, name.value, slugify(name.value), description);
    db.categories := db.categories + [row];
    db.nextCategoryId := db.nextCategoryId + 1;
    r := Reply(201, "", [row]);
  }

  /** A missing or empty name gives 400 and a name already in the table 409,
      both without a write; otherwise exactly one row is appended, with the
      next id, the given name and description and the slug of the name. */
  lemma CreateOutcomes(s: Store, name: Option<string>, description: Option<string>, slugify: string -> string)
    ensures var (s', r) := CreateSpec(s, name, description, slugify);
      && (r.status == 400 <==> !Truthy(name))
      && (r.status == 409 <==> Truthy(name) && exists c :: c in s.categories && c.name == name.value)
      && (r.status == 400 || r.status == 409 ==> s' == s && r.rows == [])
      && (r.status != 400 && r.status != 409 ==>
            r.status == 201 &&
            s' == s.(categories := s.categories + r.rows, nextCategoryId := s.nextCategoryId + 1) &&
            r.rows == [Category(s.nextCategoryId, name.value, slugify(name.value), description)])
  {
  }

  /** Creating keeps names unique and ids below the serial counter. */
  lemma CreateKeepsTableWellFormed(s: Store, name: Option<string>, description: Option<string>, slugify: string -> string)
    requires NamesUnique(s.categories) && CategoryIdsBelow(s.categories, s.nextCategoryId) && 1 <= s.nextCategoryId
    ensures var s' := CreateSpec(s, name, description, slugify).0;
      NamesUnique(s'.categories) && CategoryIdsBelow(s'.categories, s'.nextCategoryId)
  {
    var s' := CreateSpec(s, name, description, slugify).0;
    if s' != s {
      var row := s'.categories[|s.categories|];
      assert forall c :: c in s.categories ==> c.name != row.name;
      forall i, j | 0 <= i < j < |s'.categories|
        ensures s'.categories[i].name != s'.categories[j].name
      {
        if j == |s.categories| {
          assert s'.categories[i] in s.categories;
        }
      }
    }
  }

  // ---------------------------------------------------------------------
  // GET /search
  // ---------------------------------------------------------------------

  /** `LOWER(column) LIKE '%q%'`, with the pattern's own `%` and `_` read
      literally; a NULL description matches nothing. */
  predicate Matches(c: Category, q: string) {
    Contains(Lower(c.name), q) || Contains(Lower(c.slug), q) ||
    (c.description.Some? && Contains(Lower(c.description.value), q))
  }

  function MatchesQuery(q: string): Category -> bool {
    (c: Category) => Matches(c, q)
  }

  /** The table newest first: rows are appended as they are created, so
      `ORDER BY created_at DESC` is the reverse of the table's order. */
  function NewestFirst(rows: seq<Category>): (r: seq<Category>)
    ensures |r| == |rows|
    ensures forall i :: 0 <= i < |rows| ==> r[i] == rows[|rows| - 1 - i]
  {
    if rows == [] then [] else [rows[|rows| - 1]] + NewestFirst(rows[..|rows| - 1])
  }

  /** The reply of `GET /search?q=…`: the query is lower-cased, then trimmed. */
  function SearchSpec(s: Store, q: Option<string>): (r: Reply)
  {
    if !Truthy(q) then Fail(400, QueryRequired)
    else Reply(200, "", Filter(NewestFirst(s.categories), MatchesQuery(Trim(Lower(q.value)))))
  }

  /** A missing or empty query gives 400; otherwise the reply holds exactly
      the rows whose lower-cased name, slug or description contains the
      lower-cased, trimmed query. */
  lemma SearchFinds(s: Store, q: Option<string>)
    ensures var r := SearchSpec(s, q);
      && (r.status == 400 <==> !Truthy(q))
      && (r.status == 400 ==> r == Fail(400, QueryRequired))
      && (r.status != 400 ==>
            r.status == 200 &&
            (forall c :: c in r.rows <==> c in s.categories && Matches(c, Trim(Lower(q.value)))))
  {
    if Truthy(q) {
      var rev := NewestFirst(s.categories);
      forall c | c in s.categories ensures c in rev {
        var i :| 0 <= i < |s.categories| && s.categories[i] == c;
        assert rev[|s.categories| - 1 - i] == c;
      }
    }
  }

  lemma {:induction false} LowerIdempotent(s: string)
    ensures Lower(Lower(s)) == Lower(s)
  {
    assert forall i :: 0 <= i < |s| ==> LowerChar(LowerChar(s[i])) == LowerChar(s[i]);
  }

  /** Search ignores the case of ASCII letters in the query. */
  lemma SearchIgnoresCase(s: Store, q: string)
    requires q != []
    ensures SearchSpec(s, Some(Lower(q))) == SearchSpec(s, Some(q))
  {
    LowerIdempotent(q);
  }

  /** A query of blanks is truthy but trims to nothing, so it finds every row. */
  lemma BlankQueryFindsAll(s: Store, q: string)
    requires q != [] && forall i :: 0 <= i < |q| ==> q[i] == ' '
    ensures SearchSpec(s, Some(q)).status == 200
    ensures forall c :: c in SearchSpec(s, Some(q)).rows <==> c in s.categories
  {
    assert Trim(Lower(q)) == [] by {
      TrimEmptyIffBlank(Lower(q));
    }
    forall c: Category ensures Matches(c, []) {
      assert OccursAt(Lower(c.name), [], 0);
    }
    SearchFinds(s, Some(q));
  }

  // ---------------------------------------------------------------------
  // GET /:id
  // ---------------------------------------------------------------------

  function GetSpec(s: Store, id: nat): (r: Reply)
    ensures r.status == 404 <==> forall c :: c in s.categories ==> c.id != id
    ensures r.status == 404 ==> r == Fail(404, NotFound)
    ensures r.status != 404 ==> r.status == 200 && |r.rows| == 1 && r.rows[0] in s.categories && r.rows[0].id == id
  {
    match CategoryById(s.categories, id)
    case None => Fail(404, NotFound)
    case Some(c) => Reply(200, "", [c])
  }

  // ---------------------------------------------------------------------
  // PUT /:id
  // ---------------------------------------------------------------------

  function Rename(name: string, description: Option<string>): Category -> Category {
    (c: Category) => c.(name := name, description := description)
  }

  /** The store and reply after `PUT /:id`. */
  function UpdateSpec(s: Store, id: nat, name: Option<string>, description: Option<string>): (out: (Store, Reply))
  {
    if !Truthy(name) then (s, Fail(400, NameRequired))
    else match CategoryById(s.categories, id)
      case None => (s, Fail(404, NotFound))
      case Some(c) =>
        var rows := UpdateWhere(s.categories, WithId(id), Rename(name.value, description));
        (s.(categories := rows), Reply(200, "", [Rename(name.value, description)(c)]))
  }

  method UpdateCategory(db: Db, id: nat, name: Option<string>, description: Option<string>) returns (r: Reply)
    modifies db
    ensures (db.Contents(), r) == UpdateSpec(old(db.Contents()), id, name, description)
  {
    if !Truthy(name) {
      return Fail(400, NameRequired);
    }
    var found := CategoryById(db.categories, id);
    if found.None? {
      return Fail(404, NotFound);
    }
    db.categories := UpdateWhere(db.categories, WithId(id), Rename(name.value, description));
    r := Reply(200, "", [Rename(name.value, description)(found.value)]);
  }

  /** 400 without a name, 404 for a missing id, both without a write;
      otherwise the rows with that id take the new name and description,
      keep id and slug, and every other row is untouched. */
  lemma UpdateOutcomes(s: Store, id: nat, name: Option<string>, description: Option<string>)
    ensures var (s', r) := UpdateSpec(s, id, name, description);
      && (r.status == 400 <==> !Truthy(name))
      && (r.status == 404 <==> Truthy(name) && forall c :: c in s.categories ==> c.id != id)
      && (r.status == 400 || r.status == 404 ==> s' == s)
      && (r.status != 400 && r.status != 404 ==>
            r.status == 200 && s' == s.(categories := s'.categories) && |s'.categories| == |s.categories| &&
            forall i :: 0 <= i < |s.categories| ==>
              (s.categories[i].id == id ==> s'.categories[i] == s.categories[i].(name := name.value, description := description)) &&
              (s.categories[i].id != id ==> s'.categories[i] == s.categories[i]))
  {
  }

  /** Unlike `POST /`, `PUT /:id` does not check the name against the other
      rows: renaming one category to another's name breaks `NamesUnique`. */
  lemma UpdateCanDuplicateName()
    ensures var s := EmptyStore.(categories := [Category(1, "News", "news", None), Category(2, "Tech", "tech", None)],
                                 nextCategoryId := 3);
      NamesUnique(s.categories) &&
      UpdateSpec(s, 2, Some("News"), None).1.status == 200 &&
      !NamesUnique(UpdateSpec(s, 2, Some("News"), None).0.categories)
  {
    var s := EmptyStore.(categories := [Category(1, "News", "news", None), Category(2, "Tech", "tech", None)],
                         nextCategoryId := 3);
    var s' := UpdateSpec(s, 2, Some("News"), None).0;
    assert s'.categories[0].name == s'.categories[1].name;
  }

  // ---------------------------------------------------------------------
  // DELETE /:id
  // ---------------------------------------------------------------------

  function InCategory(id: nat): Article -> bool {
    (a: Article) => a.categoryId == Some(id)
  }

  /** The store and reply after `DELETE /:id`. */
  function DeleteSpec(s: Store, id: nat): (out: (Store, Reply))
  {
    if CategoryById(s.categories, id).None? then (s, Fail(404, NotFound))
    else if First(s.posts, InCategory(id)).Some? then (s, Fail(400, HasArticles))
    else (s.(categories := Filter(s.categories, (c: Category) => c.id != id)), Fail(200, Deleted))
  }

  method DeleteCategory(db: Db, id: nat) returns (r: Reply)
    modifies db
    ensures (db.Contents(), r) == DeleteSpec(old(db.Contents()), id)
  {
    var found := CategoryById(db.categories, id);
    if found.None? {
      return Fail(404, NotFound);
    }
    var used := First(db.posts, InCategory(id));
    if used.Some? {
      return Fail(400, HasArticles);
    }
    db.categories := Filter(db.categories, (c: Category) => c.id != id);
    r := Fail(200, Deleted);
  }

  /** 404 for a missing id and 400 while an article names the category, both
      without a write; otherwise exactly the rows with that id go. */
  lemma DeleteOutcomes(s: Store, id: nat)
    ensures var (s', r) := DeleteSpec(s, id);
      && (r.status == 404 <==> forall c :: c in s.categories ==> c.id != id)
      && (r.status == 400 <==> (exists c :: c in s.categories && c.id == id) &&
                               exists a :: a in s.posts && a.categoryId == Some(id))
      && (r.status == 404 || r.status == 400 ==> s' == s)
      && (r.status != 404 && r.status != 400 ==>
            r.status == 200 && s' == s.(categories := s'.categories) &&
            forall c :: c in s'.categories <==> c in s.categories && c.id != id)
  {
  }

  // ---------------------------------------------------------------------
  // The gate in front of every route
  // ---------------------------------------------------------------------

  datatype Call =
    | Create(name: Option<string>, description: Option<string>)
    | Search(q: Option<string>)
    | Get(id: nat)
    | Update(id: nat, name: Option<string>, description: Option<string>)
    | Delete(id: nat)

  function Handle(s: Store, call: Call, slugify: string -> string): (Store, Reply) {
    match call
    case Create(name, description) => CreateSpec(s, name, description, slugify)
    case Search(q) => (s, SearchSpec(s, q))
    case Get(id) => (s, GetSpec(s, id))
    case Update(id, name, description) => UpdateSpec(s, id, name, description)
    case Delete(id) => DeleteSpec(s, id)
  }

  /** `router.use(authenticateToken, authorizeEditorOrAdmin)`, then the handler. */
  function RouteSpec(s: Store, req: Gate.Request, verify: string -> Option<nat>, call: Call, slugify: string -> string): (out: (Store, Reply))
  {
    match Gate.EditorOrAdminChain(req, verify, s.users)
    case Reject(status, message) => (s, Fail(status, message))
    case Proceed(_) => Handle(s, call, slugify)
  }

  /** Only an authenticated, unlocked editor or admin reaches a handler: any
      other caller gets the gate's 401 or 403 and the table is unchanged. */
  lemma OnlyEditorsReachCategories(s: Store, req: Gate.Request, verify: string -> Option<nat>, call: Call, slugify: string -> string)
    requires !Gate.EditorOrAdminChain(req, verify, s.users).Proceed?
    ensures RouteSpec(s, req, verify, call, slugify).0 == s
    ensures RouteSpec(s, req, verify, call, slugify).1.status in {401, 403}
    ensures !exists u :: u in s.users && !u.isLocked && u.role in {Admin, Editor} &&
                         Gate.BearerToken(req.authorization).Some? &&
                         verify(Gate.BearerToken(req.authorization).value) == Some(u.id) &&
                         UserById(s.users, u.id) == Some(u)
  {
    Gate.EditorOrAdminChainPasses(req, verify, s.users);
  }
}
