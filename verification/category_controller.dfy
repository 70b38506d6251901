/**
 * The category controller (api/controllers/category.controller.js): the slug
 * derived from a name, the guarded create, update and delete on the category
 * table, the filtered and ordered listing, the lookup by slug, and the
 * parent/child hierarchy. The database is a `Store.Db`; a new category's id
 * is a parameter.
 */
module CategoryController {
  import opened Wrappers
  import opened Text
  import opened Sorting
  import opened Validation
  import opened CategoryModel
  import opened PostModel
  import opened Store

  // ---------------------------------------------------------------------------
  // The slug expression

  /**
   * `name.toLowerCase().replace(/[^a-z0-9]+/g, '-').replace(/(^-|-$)/g, '')`:
   * lower-case, turn every run of other characters into one '-', then drop a
   * leading and a trailing '-'. The result is empty or an accepted slug with
   * no hyphen at either end and no doubled hyphen.
   */
  function Slugify(name: string): (r: string)
    ensures HyphenSeparated(r)
    ensures r == [] || (r[0] != '-' && r[|r| - 1] != '-')
    ensures r == [] || ValidateSlug(r)
  {
    var w := Hyphenated(name);
    StripSeparated(w);
    StripEndHyphens(w)
  }

  /** The string before the final replacement: already hyphen-separated. */
  function Hyphenated(name: string): (r: string)
    ensures HyphenSeparated(r)
  {
    var lower := Lower(name);
    var r := ReplaceRuns(lower, NotLowerAlnum, '-');
    ReplaceRunsOutside(lower, NotLowerAlnum, '-');
    ReplaceRunsSeparated(lower, NotLowerAlnum, '-');
    forall i | 0 <= i < |r| ensures SlugChar(r[i]) {
      assert r[i] in r;
    }
    forall i | 0 <= i < |r| - 1 ensures !(r[i] == '-' && r[i + 1] == '-') {
      assert r[i] == '-' ==> !InClass(NotLowerAlnum, r[i + 1]);
    }
    r
  }

  /** A slug with no hyphen at either end is its own slug. */
  lemma {:induction false} SlugifyFixesSlugs(s: string)
    requires HyphenSeparated(s) && (s == [] || (s[0] != '-' && s[|s| - 1] != '-'))
    ensures Slugify(s) == s
  {
    assert Lower(s) == s;
    forall i | 0 <= i < |s| && InClass(NotLowerAlnum, s[i]) ensures s[i] == '-' {
      assert SlugChar(s[i]);
    }
    ReplaceRunsNoop(s, NotLowerAlnum, '-');
  }

  /** Re-slugging a slug changes nothing, and the slug does not depend on letter case. */
  lemma {:induction false} SlugifyIdempotent(name: string)
    ensures Slugify(Slugify(name)) == Slugify(name)
    ensures Slugify(Lower(name)) == Slugify(name)
  {
    SlugifyFixesSlugs(Slugify(name));
    LowerTwice(name);
  }

  /**
   * Where the hyphens go: a word of letters and digits, then a run of other
   * characters, then a tail that begins with a letter or digit, slug to the
   * word, one '-', and the tail's own slug.
   */
  lemma {:induction false} SlugifyJoin(word: string, sep: string, tail: string)
    requires word != [] && forall i :: 0 <= i < |word| ==> IsLowerAlnum(LowerChar(word[i]))
    requires sep != [] && forall i :: 0 <= i < |sep| ==> !IsLowerAlnum(LowerChar(sep[i]))
    requires tail != [] && IsLowerAlnum(LowerChar(tail[0]))
    ensures Slugify(word + sep + tail) == Lower(word) + "-" + Slugify(tail)
  {
    var lw, lt := Lower(word), Lower(tail);
    LowerJoin(word, sep, tail);
    ReplaceRunsJoin(lw, Lower(sep), lt, NotLowerAlnum, '-');
    var h := ReplaceRuns(lt, NotLowerAlnum, '-');
    assert Hyphenated(word + sep + tail) == (lw + "-") + h;
    StripAfterWord(lw + "-", h);
  }

  /** Characters outside `[a-z0-9]` before the first letter or digit leave no trace in the slug. */
  lemma {:induction false} SlugifyLeading(sep: string, tail: string)
    requires forall i :: 0 <= i < |sep| ==> !IsLowerAlnum(LowerChar(sep[i]))
    requires tail != [] && IsLowerAlnum(LowerChar(tail[0]))
    ensures Slugify(sep + tail) == Slugify(tail)
  {
    if sep == [] {
      assert sep + tail == tail;
    } else {
      HyphenatedLeading(sep, tail);
      StripLeadingHyphen(Hyphenated(tail));
    }
  }

  lemma {:induction false} HyphenatedLeading(sep: string, tail: string)
    requires sep != [] && forall i :: 0 <= i < |sep| ==> !IsLowerAlnum(LowerChar(sep[i]))
    requires tail != [] && IsLowerAlnum(LowerChar(tail[0]))
    ensures Hyphenated(sep + tail) == "-" + Hyphenated(tail)
    ensures Hyphenated(tail) != [] && Hyphenated(tail)[0] != '-'
  {
    var ls, lt := Lower(sep), Lower(tail);
    LowerAppend(sep, tail);
    ReplaceRunsAppend(ls, lt, NotLowerAlnum, '-');
    ReplaceRunsRun(ls, NotLowerAlnum, '-');
  }

  /**
   * The slug keeps every letter and digit of the lower-cased name, in order,
   * and adds nothing but hyphens.
   */
  lemma {:induction false} SlugifyKeepsAlnums(name: string)
    ensures Alnums(Slugify(name)) == Alnums(Lower(name))
  {
    ReplaceRunsAlnums(Lower(name), NotLowerAlnum, '-');
    StripAlnums(Hyphenated(name));
  }

  /** A slug is already lower case and has no surrounding whitespace, so the schema's setters keep it. */
  lemma {:induction false} SlugSurvivesSetters(name: string)
    ensures Lower(Slugify(name)) == Slugify(name) && Trim(Slugify(name)) == Slugify(name)
  {
    var s := Slugify(name);
    forall i | 0 <= i < |s| ensures Lower(s)[i] == s[i] {
      SlugCharFixed(s[i]);
    }
    if s != [] {
      SlugCharFixed(s[0]);
      SlugCharFixed(s[|s| - 1]);
    }
    TrimNoop(s);
  }

  // ---------------------------------------------------------------------------
  // Errors

  datatype Reason = NotAdmin | AlreadyExists | NotFound | HasPosts(posts: nat) | HasSubcategories(subcategories: nat)

  datatype Cause =
    | NameMissing       // `name.toLowerCase()` on a missing name throws
    | ValidationFailed  // the schema rejects the document or the update
    | DuplicateKey      // the unique index on `name` or `slug` rejects the write
    | ContentNotSelected  // the `estimatedReadingTime` virtual reads `content`, which the projection left out

  /** An error answered with an explicit status, or one thrown and passed on to the error middleware. */
  datatype CategoryError = Rejected(status: nat, reason: Reason) | Thrown(cause: Cause)

  const Forbidden: CategoryError := Rejected(403, NotAdmin)

  // ---------------------------------------------------------------------------
  // The category table

  /** The unique indexes on `name` and `slug`, and unique ids. */
  predicate Unique(categories: seq<Category>) {
    forall i, j :: 0 <= i < j < |categories| ==>
      && categories[i].id != categories[j].id
      && categories[i].name != categories[j].name
      && categories[i].slug != categories[j].slug
  }

  predicate IdFree(categories: seq<Category>, id: string) {
    forall c :: c in categories ==> c.id != id
  }

  /** `findById(id)`: the position of the first category with that id. */
  function FindIndex(categories: seq<Category>, id: string): (r: Option<nat>)
    ensures r.Some? ==> r.value < |categories| && categories[r.value].id == id
                        && forall k :: 0 <= k < r.value ==> categories[k].id != id
    ensures r.None? <==> IdFree(categories, id)
  {
    if categories == [] then None
    else if categories[0].id == id then Some(0)
    else
      var r := FindIndex(categories[1..], id);
      assert forall c :: c in categories <==> c == categories[0] || c in categories[1..];
      if r.None? then None else Some(r.value + 1)
  }

  // ---------------------------------------------------------------------------
  // createCategory

  datatype CreateRequest = CreateRequest(
    name: Option<string>,
    description: Option<string>,
    color: Option<string>,
    parentId: Option<string>,
    order: Option<int>)

  /**
   * `Category.findOne({ $or: [{ name }, { slug }] })` finds a category; the
   * query casts `name` through the schema's trim setter.
   */
  predicate NameOrSlugTaken(categories: seq<Category>, name: string, slug: string) {
    exists c :: c in categories && (c.name == Trim(name) || c.slug == slug)
  }

  function OrElse<T>(x: Option<T>, d: T): T {
    if x.Some? then x.value else d
  }

  /**
   * `new Category({...}).save()` with the derived slug: the trimmed name, the
   * given fields and the schema's defaults, accepted exactly when the schema's
   * validators are satisfied.
   */
  function NewFromRequest(req: CreateRequest, name: string, id: string): (r: Result<Category, CategoryError>)
    ensures r.Ok? <==> && Trim(name) != "" && |Trim(name)| <= 50 && Slugify(name) != ""
                       && |OrElse(req.description, "")| <= 500 && ColorValidator(OrElse(req.color, DefaultColor))
    ensures r.Err? ==> r.error == Thrown(ValidationFailed)
    ensures r.Ok? ==> var c := r.value;
              && CategoryModel.WellFormed(c)
              && c.id == id && c.name == Trim(name) && c.slug == Slugify(name)
              && c.parentId == req.parentId && c.isActive && !c.isFeatured
              && c.postsCount == 0 && c.viewsCount == 0
  {
    var slug := Slugify(name);
    SlugSurvivesSetters(name);
    var c := NewCategory(id, Trim(name), slug);
    var c := c.(description := OrElse(req.description, ""), color := OrElse(req.color, DefaultColor),
                parentId := req.parentId, order := OrElse(req.order, 0));
    if Trim(name) != "" && |Trim(name)| <= 50 && slug != "" && |c.description| <= 500 && ColorValidator(c.color)
    then Ok(c) else Err(Thrown(ValidationFailed))
  }

  /**
   * `createCategory`: 403 for a non-admin, an error for a missing name, 400
   * when the name or the derived slug is taken, otherwise the validated new
   * category is appended. Nothing changes on any error, and a table with
   * unique names, slugs and ids keeps them when the new id is fresh.
   */
  method CreateCategory(db: Db, isAdmin: bool, req: CreateRequest, id: string)
    returns (r: Result<Category, CategoryError>)
    modifies db
    ensures !isAdmin ==> r == Err(Forbidden)
    ensures isAdmin && req.name.None? ==> r == Err(Thrown(NameMissing))
    ensures isAdmin && req.name.Some? ==>
              r == if NameOrSlugTaken(old(db.categories), req.name.value, Slugify(req.name.value))
                   then Err(Rejected(400, AlreadyExists))
                   else NewFromRequest(req, req.name.value, id)
    ensures r.Ok? ==> db.categories == old(db.categories) + [r.value]
    ensures r.Err? ==> db.categories == old(db.categories)
    ensures db.events == old(db.events) && db.posts == old(db.posts)
    ensures Unique(old(db.categories)) && IdFree(old(db.categories), id) ==> Unique(db.categories)
  {
    if !isAdmin {
      return Err(Forbidden);
    }
    if req.name.None? {
      return Err(Thrown(NameMissing));
    }
    var name := req.name.value;
    var slug := Slugify(name);
    if NameOrSlugTaken(db.categories, name, slug) {
      return Err(Rejected(400, AlreadyExists));
    }
    r := NewFromRequest(req, name, id);
    if r.Ok? {
      var c := r.value;
      if Unique(db.categories) && IdFree(db.categories, id) {
        NotTakenIsFresh(db.categories, name, c);
        AppendKeepsUnique(db.categories, c);
      }
      db.categories := db.categories + [c];
    }
  }

  /** A category named and slugged as the duplicate check found free, with a fresh id, clashes with nothing. */
  lemma {:induction false} NotTakenIsFresh(categories: seq<Category>, name: string, c: Category)
    requires !NameOrSlugTaken(categories, name, Slugify(name)) && IdFree(categories, c.id)
    requires c.name == Trim(name) && c.slug == Slugify(name)
    ensures forall d :: d in categories ==> d.id != c.id && d.name != c.name && d.slug != c.slug
  {
  }

  /** Appending a category whose id, name and slug are all new keeps a table unique. */
  lemma {:induction false} AppendKeepsUnique(categories: seq<Category>, c: Category)
    requires Unique(categories)
    requires forall d :: d in categories ==> d.id != c.id && d.name != c.name && d.slug != c.slug
    ensures Unique(categories + [c])
  {
    var t := categories + [c];
    forall i, j | 0 <= i < j < |t|
      ensures t[i].id != t[j].id && t[i].name != t[j].name && t[i].slug != t[j].slug
    {
      if j == |categories| {
        assert t[i] in categories;
      } else {
        assert t[i] == categories[i] && t[j] == categories[j];
      }
    }
  }

  // ---------------------------------------------------------------------------
  // updateCategory

  /**
   * The fields of an update body this model follows; a missing field is left
   * as it is. The body goes to the database unfiltered, so an admin may also
   * set the `stats` counters.
   */
  datatype UpdateRequest = UpdateRequest(
    name: Option<string>,
    slug: Option<string>,
    description: Option<string>,
    color: Option<string>,
    isActive: Option<bool>,
    isFeatured: Option<bool>,
    parentId: Option<string>,
    order: Option<int>,
    postsCount: Option<int>,
    viewsCount: Option<int>)

  /** `if (updateData.name) updateData.slug = ...`: a truthy name replaces the slug by its own. */
  function WithDerivedSlug(u: UpdateRequest): (r: UpdateRequest)
    ensures Truthy(u.name) ==> r == u.(slug := Some(Slugify(u.name.value)))
    ensures !Truthy(u.name) ==> r == u
  {
    if Truthy(u.name) then u.(slug := Some(Slugify(u.name.value))) else u
  }

  /** The update validators (`runValidators: true`) on the paths the update sets, after the setters. */
  predicate UpdateValid(u: UpdateRequest) {
    && (u.name.Some? ==> Trim(u.name.value) != "" && |Trim(u.name.value)| <= 50)
    && (u.slug.Some? ==> Lower(Trim(u.slug.value)) != "")
    && (u.description.Some? ==> |u.description.value| <= 500)
    && (u.color.Some? ==> ColorValidator(u.color.value))
  }

  /** The document after `$set` of the update's fields, through the trim and lowercase setters. */
  function Applied(c: Category, u: UpdateRequest): (r: Category)
    ensures r.id == c.id
    ensures u.name.None? ==> r.name == c.name
    ensures u.slug.None? ==> r.slug == c.slug
    ensures u.postsCount.None? && u.viewsCount.None? ==> r.postsCount == c.postsCount && r.viewsCount == c.viewsCount
    ensures u == UpdateRequest(None, None, None, None, None, None, None, None, None, None) ==> r == c
  {
    c.(name := if u.name.Some? then Trim(u.name.value) else c.name,
       slug := if u.slug.Some? then Lower(Trim(u.slug.value)) else c.slug,
       description := OrElse(u.description, c.description),
       color := OrElse(u.color, c.color),
       isActive := OrElse(u.isActive, c.isActive),
       isFeatured := OrElse(u.isFeatured, c.isFeatured),
       parentId := if u.parentId.Some? then u.parentId else c.parentId,
       order := OrElse(u.order, c.order),
       postsCount := OrElse(u.postsCount, c.postsCount),
       viewsCount := OrElse(u.viewsCount, c.viewsCount))
  }

  /** Every field the update sends takes the sent value, through the setters; every other field is kept. */
  lemma {:induction false} AppliedFields(c: Category, u: UpdateRequest)
    ensures var r := Applied(c, u);
      && r.name == (if u.name.Some? then Trim(u.name.value) else c.name)
      && r.slug == (if u.slug.Some? then Lower(Trim(u.slug.value)) else c.slug)
      && r.description == (if u.description.Some? then u.description.value else c.description)
      && r.color == (if u.color.Some? then u.color.value else c.color)
      && r.isActive == (if u.isActive.Some? then u.isActive.value else c.isActive)
      && r.isFeatured == (if u.isFeatured.Some? then u.isFeatured.value else c.isFeatured)
      && r.parentId == (if u.parentId.Some? then u.parentId else c.parentId)
      && r.order == (if u.order.Some? then u.order.value else c.order)
      && r.postsCount == (if u.postsCount.Some? then u.postsCount.value else c.postsCount)
      && r.viewsCount == (if u.viewsCount.Some? then u.viewsCount.value else c.viewsCount)
  {
  }

  /** Sending the same update again changes nothing more: the setters are idempotent. */
  lemma {:induction false} AppliedTwice(c: Category, u: UpdateRequest)
    ensures Applied(Applied(c, u), u) == Applied(c, u)
  {
    var r := Applied(c, u);
    AppliedFields(c, u);
    AppliedFields(r, u);
    if u.name.Some? {
      TrimTwice(u.name.value);
    }
    if u.slug.Some? {
      var t := Trim(u.slug.value);
      TrimTwice(u.slug.value);
      LowerTrimmed(t);
      LowerTwice(t);
    }
  }

  /** Lower-casing a string with no whitespace at either end leaves it so. */
  lemma {:induction false} LowerTrimmed(t: string)
    requires t == [] || (!IsSpace(t[0]) && !IsSpace(t[|t| - 1]))
    ensures Trim(Lower(t)) == Lower(t)
  {
    var l := Lower(t);
    if t != [] {
      LowerCharSpace(t[0]);
      LowerCharSpace(t[|t| - 1]);
    }
    TrimNoop(l);
  }

  lemma {:induction false} LowerCharSpace(ch: char)
    ensures IsSpace(LowerChar(ch)) <==> IsSpace(ch)
  {
  }

  /** Another category than the one at `i` already holds this name or slug. */
  predicate ClashesWithOthers(categories: seq<Category>, i: nat, c: Category) {
    exists k :: 0 <= k < |categories| && k != i && (categories[k].name == c.name || categories[k].slug == c.slug)
  }

  /** An update applied to a well-formed category and accepted by the validators gives a well-formed category. */
  lemma {:induction false} AppliedWellFormed(c: Category, u: UpdateRequest)
    requires CategoryModel.WellFormed(c) && UpdateValid(u)
    ensures CategoryModel.WellFormed(Applied(c, u))
  {
    if u.slug.Some? {
      LowerTwice(Trim(u.slug.value));
    }
  }

  /**
   * `updateCategory`: 403 for a non-admin; the slug is re-derived when a
   * truthy name is sent; the validators run, then 404 when no category has
   * the id, then the unique indexes; otherwise exactly that category is
   * replaced by its updated version.
   */
  method UpdateCategory(db: Db, isAdmin: bool, id: string, body: UpdateRequest)
    returns (r: Result<Category, CategoryError>)
    modifies db
    ensures !isAdmin ==> r == Err(Forbidden)
    ensures isAdmin && !UpdateValid(WithDerivedSlug(body)) ==> r == Err(Thrown(ValidationFailed))
    ensures isAdmin && UpdateValid(WithDerivedSlug(body)) && FindIndex(old(db.categories), id).None? ==>
              r == Err(Rejected(404, NotFound))
    ensures r.Ok? ==> && isAdmin && UpdateValid(WithDerivedSlug(body))
                      && FindIndex(old(db.categories), id).Some?
                      && var i := FindIndex(old(db.categories), id).value;
                         && r.value == Applied(old(db.categories)[i], WithDerivedSlug(body))
                         && !ClashesWithOthers(old(db.categories), i, r.value)
                         && db.categories == old(db.categories)[i := r.value]
    ensures isAdmin && UpdateValid(WithDerivedSlug(body)) && FindIndex(old(db.categories), id).Some? ==>
              var i := FindIndex(old(db.categories), id).value;
              var c := Applied(old(db.categories)[i], WithDerivedSlug(body));
              r == if ClashesWithOthers(old(db.categories), i, c) then Err(Thrown(DuplicateKey)) else Ok(c)
    ensures r.Ok? && Truthy(body.name) ==> r.value.slug == Slugify(body.name.value)
    ensures r.Ok? && body.name.None? && body.slug.None? ==>
              r.value.slug == old(db.categories)[FindIndex(old(db.categories), id).value].slug
    ensures r.Err? ==> db.categories == old(db.categories)
    ensures db.events == old(db.events) && db.posts == old(db.posts)
    ensures Unique(old(db.categories)) ==> Unique(db.categories)
  {
    if !isAdmin {
      return Err(Forbidden);
    }
    var u := WithDerivedSlug(body);
    if !UpdateValid(u) {
      return Err(Thrown(ValidationFailed));
    }
    var found := FindIndex(db.categories, id);
    if found.None? {
      return Err(Rejected(404, NotFound));
    }
    var i := found.value;
    var c := Applied(db.categories[i], u);
    if ClashesWithOthers(db.categories, i, c) {
      return Err(Thrown(DuplicateKey));
    }
    if Truthy(body.name) {
      SlugSurvivesSetters(body.name.value);
    }
    db.categories := db.categories[i := c];
    r := Ok(c);
  }

  // ---------------------------------------------------------------------------
  // deleteCategory

  /** `Post.countDocuments({ category: name })` */
  function PostsIn(posts: seq<Post>, name: string): (n: nat)
    ensures n <= |posts|
    ensures n == 0 <==> forall p :: p in posts ==> CategoryName(p.category) != name
  {
    if posts == [] then 0
    else
      assert forall p :: p in posts <==> p == posts[0] || p in posts[1..];
      (if CategoryName(posts[0].category) == name then 1 else 0) + PostsIn(posts[1..], name)
  }

  /** `Category.countDocuments({ parentId: id })` */
  function SubcategoriesOf(categories: seq<Category>, id: string): (n: nat)
    ensures n <= |categories|
    ensures n == 0 <==> forall c :: c in categories ==> c.parentId != Some(id)
  {
    if categories == [] then 0
    else
      assert forall c :: c in categories <==> c == categories[0] || c in categories[1..];
      (if categories[0].parentId == Some(id) then 1 else 0) + SubcategoriesOf(categories[1..], id)
  }

  /** Removing one position keeps every other category, in order. */
  lemma {:induction false} RemoveAtKeepsOthers(categories: seq<Category>, i: nat)
    requires i < |categories|
    ensures var rest := categories[..i] + categories[i + 1..];
            && |rest| == |categories| - 1
            && multiset(rest) + multiset{categories[i]} == multiset(categories)
            && (forall k :: 0 <= k < i ==> rest[k] == categories[k])
            && (forall k :: i <= k < |rest| ==> rest[k] == categories[k + 1])
  {
    assert categories == categories[..i] + [categories[i]] + categories[i + 1..];
  }

  /**
   * `deleteCategory`: 403 for a non-admin, 404 when no category has the id,
   * 400 while posts are filed under its name, 400 while subcategories point
   * at it, and otherwise exactly that category is removed.
   */
  method DeleteCategory(db: Db, isAdmin: bool, id: string) returns (r: Result<Category, CategoryError>)
    modifies db
    ensures !isAdmin ==> r == Err(Forbidden)
    ensures isAdmin && FindIndex(old(db.categories), id).None? ==> r == Err(Rejected(404, NotFound))
    ensures isAdmin && FindIndex(old(db.categories), id).Some? ==>
              var c := old(db.categories)[FindIndex(old(db.categories), id).value];
              && (PostsIn(db.posts, c.name) > 0 ==> r == Err(Rejected(400, HasPosts(PostsIn(db.posts, c.name)))))
              && (PostsIn(db.posts, c.name) == 0 && SubcategoriesOf(old(db.categories), id) > 0 ==>
                    r == Err(Rejected(400, HasSubcategories(SubcategoriesOf(old(db.categories), id)))))
              && (PostsIn(db.posts, c.name) == 0 && SubcategoriesOf(old(db.categories), id) == 0 ==> r == Ok(c))
    ensures r.Ok? ==> var i := FindIndex(old(db.categories), id).value;
              db.categories == old(db.categories)[..i] + old(db.categories)[i + 1..]
    ensures r.Err? ==> db.categories == old(db.categories)
    ensures db.events == old(db.events) && db.posts == old(db.posts)
    ensures r.Ok? ==> forall c :: c in db.categories ==> c.parentId != Some(id)
  {
    if !isAdmin {
      return Err(Forbidden);
    }
    var found := FindIndex(db.categories, id);
    if found.None? {
      return Err(Rejected(404, NotFound));
    }
    var i := found.value;
    var c := db.categories[i];
    var postsCount := PostsIn(db.posts, c.name);
    if postsCount > 0 {
      return Err(Rejected(400, HasPosts(postsCount)));
    }
    var subcategoriesCount := SubcategoriesOf(db.categories, id);
    if subcategoriesCount > 0 {
      return Err(Rejected(400, HasSubcategories(subcategoriesCount)));
    }
    RemoveAtKeepsOthers(db.categories, i);
    db.categories := db.categories[..i] + db.categories[i + 1..];
    r := Ok(c);
  }

  /** A successful delete of a category in a table with unique ids leaves no category with that id. */
  lemma {:induction false} DeleteRemovesId(categories: seq<Category>, i: nat)
    requires Unique(categories) && i < |categories|
    ensures var rest := categories[..i] + categories[i + 1..];
            IdFree(rest, categories[i].id) && Unique(rest)
  {
    var rest := categories[..i] + categories[i + 1..];
    RemoveAtKeepsOthers(categories, i);
    forall c | c in rest ensures c.id != categories[i].id {
      var k :| 0 <= k < |rest| && rest[k] == c;
    }
  }

  // ---------------------------------------------------------------------------
  // getCategories

  /** Binary string order, as MongoDB sorts strings without a collation. */
  predicate LexLe(a: string, b: string) {
    a == [] || (b != [] && (a[0] < b[0] || (a[0] == b[0] && LexLe(a[1..], b[1..]))))
  }

  lemma {:induction false} LexLeTotal(a: string, b: string)
    ensures LexLe(a, b) || LexLe(b, a)
  {
    if a != [] && b != [] && a[0] == b[0] {
      LexLeTotal(a[1..], b[1..]);
    }
  }

  lemma {:induction false} LexLeTransitive(a: string, b: string, c: string)
    requires LexLe(a, b) && LexLe(b, c)
    ensures LexLe(a, c)
  {
    if a != [] && a[0] == b[0] && b[0] == c[0] {
      LexLeTransitive(a[1..], b[1..], c[1..]);
    }
  }

  lemma {:induction false} LexLeAntisymmetric(a: string, b: string)
    requires LexLe(a, b) && LexLe(b, a)
    ensures a == b
  {
    if a != [] {
      LexLeAntisymmetric(a[1..], b[1..]);
    }
  }

  /** `.sort({ order: 1, name: 1 })` */
  predicate ByOrderThenName(a: Category, b: Category) {
    a.order < b.order || (a.order == b.order && LexLe(a.name, b.name))
  }

  lemma {:induction false} ByOrderThenNameIsPreorder()
    ensures TotalPreorder(ByOrderThenName)
  {
    forall a, b ensures ByOrderThenName(a, b) || ByOrderThenName(b, a) {
      LexLeTotal(a.name, b.name);
    }
    forall a, b, c | ByOrderThenName(a, b) && ByOrderThenName(b, c) ensures ByOrderThenName(a, c) {
      if a.order == b.order == c.order {
        LexLeTransitive(a.name, b.name, c.name);
      }
    }
  }

  /** The query `getCategories` builds from `featured`, `active` and `parentId`. */
  predicate Listed(c: Category, featured: Option<string>, active: Option<string>, parentId: Option<string>) {
    && (featured == Some("true") ==> c.isFeatured)
    && (active == Some("true") ==> c.isActive)
    && (Truthy(parentId) ==> c.parentId == parentId)
  }

  function Matching(categories: seq<Category>, featured: Option<string>, active: Option<string>,
                    parentId: Option<string>): (r: seq<Category>)
    ensures forall c :: c in r <==> c in categories && Listed(c, featured, active, parentId)
    ensures forall c :: multiset(r)[c] == if Listed(c, featured, active, parentId) then multiset(categories)[c] else 0
  {
    if categories == [] then []
    else
      assert categories == [categories[0]] + categories[1..];
      (if Listed(categories[0], featured, active, parentId) then [categories[0]] else [])
      + Matching(categories[1..], featured, active, parentId)
  }

  /**
   * `getCategories`: every category the query matches, each as often as it
   * is stored, ordered by `order` and then by name.
   */
  function ListCategories(categories: seq<Category>, featured: Option<string>, active: Option<string>,
                          parentId: Option<string>): (r: seq<Category>)
    ensures forall c :: c in r <==> c in categories && Listed(c, featured, active, parentId)
    ensures forall c :: multiset(r)[c] == if Listed(c, featured, active, parentId) then multiset(categories)[c] else 0
    ensures forall i, j :: 0 <= i < j < |r| ==>
              r[i].order < r[j].order || (r[i].order == r[j].order && LexLe(r[i].name, r[j].name))
  {
    ByOrderThenNameIsPreorder();
    var r := SortBy(Matching(categories, featured, active, parentId), ByOrderThenName);
    assert forall c :: c in r <==> c in multiset(r);
    r
  }

  /** A query value other than the exact string "true" does not filter, and without filters every category is listed. */
  lemma {:induction false} ListUnfiltered(categories: seq<Category>, featured: Option<string>, active: Option<string>)
    requires featured != Some("true") && active != Some("true")
    ensures multiset(ListCategories(categories, featured, active, None)) == multiset(categories)
  {
  }

  // ---------------------------------------------------------------------------
  // getCategoryBySlug

  /** `.sort({ publishedAt: -1 })`: latest first, posts never published last. */
  predicate ByPublishedDesc(a: Post, b: Post) {
    b.publishedAt.None? || (a.publishedAt.Some? && a.publishedAt.value >= b.publishedAt.value)
  }

  lemma {:induction false} ByPublishedDescIsPreorder()
    ensures TotalPreorder(ByPublishedDesc)
  {
  }

  predicate PublishedIn(p: Post, name: string) {
    CategoryName(p.category) == name && p.status == Published && p.isPublished
  }

  function PublishedPosts(posts: seq<Post>, name: string): (r: seq<Post>)
    ensures forall p :: p in r <==> p in posts && PublishedIn(p, name)
  {
    if posts == [] then []
    else
      assert forall p :: p in posts <==> p == posts[0] || p in posts[1..];
      (if PublishedIn(posts[0], name) then [posts[0]] else []) + PublishedPosts(posts[1..], name)
  }

  /** The filter keeps every published post of the category as often as it occurs, and no other post. */
  lemma {:induction false} PublishedPostsCount(posts: seq<Post>, name: string)
    ensures forall p :: multiset(PublishedPosts(posts, name))[p]
                        == if PublishedIn(p, name) then multiset(posts)[p] else 0
  {
    if posts != [] {
      PublishedPostsCount(posts[1..], name);
      assert posts == [posts[0]] + posts[1..];
    }
  }

  /** `Category.findOne({ slug, isActive: true })`; the query casts `slug` through the trim and lowercase setters. */
  function FindActiveBySlug(categories: seq<Category>, slug: string): (r: Option<Category>)
    ensures r.Some? ==> r.value in categories && r.value.isActive && r.value.slug == Lower(Trim(slug))
    ensures r.None? <==> forall c :: c in categories ==> !(c.isActive && c.slug == Lower(Trim(slug)))
  {
    if categories == [] then None
    else if categories[0].isActive && categories[0].slug == Lower(Trim(slug)) then Some(categories[0])
    else
      assert forall c :: c in categories <==> c == categories[0] || c in categories[1..];
      FindActiveBySlug(categories[1..], slug)
  }

  datatype CategoryPage = CategoryPage(category: Category, posts: seq<Post>)

  /**
   * `getCategoryBySlug`: 404 unless an active category has the slug;
   * otherwise that category and at most ten of its published posts, latest
   * publication first.
   */
  function CategoryBySlug(categories: seq<Category>, posts: seq<Post>, slug: string): (r: Result<CategoryPage, CategoryError>)
    ensures r.Err? <==> FindActiveBySlug(categories, slug).None?
    ensures r.Err? ==> r.error == Rejected(404, NotFound)
    ensures r.Ok? ==> var page := r.value;
              && page.category == FindActiveBySlug(categories, slug).value
              && |page.posts| <= 10
              && (forall p :: p in page.posts ==> p in posts && PublishedIn(p, page.category.name))
              && SortedBy(page.posts, ByPublishedDesc)
              && (|page.posts| < 10 ==>
                    forall p :: p in posts && PublishedIn(p, page.category.name) ==> p in page.posts)
  {
    var found := FindActiveBySlug(categories, slug);
    if found.None? then Err(Rejected(404, NotFound))
    else
      var c := found.value;
      ByPublishedDescIsPreorder();
      var sorted := SortBy(PublishedPosts(posts, c.name), ByPublishedDesc);
      var page := Take(sorted, 10);
      assert forall p :: p in sorted <==> p in multiset(sorted);
      assert forall p :: p in page ==> p in sorted;
      Ok(CategoryPage(c, page))
  }

  /**
   * The page lists each post at most as often as the posts collection holds
   * it, and a published post of the category that is missing from the page
   * was cut by `limit(10)`: the page is full and every listed post was
   * published no earlier.
   */
  lemma {:induction false} CategoryBySlugTop(categories: seq<Category>, posts: seq<Post>, slug: string)
    requires CategoryBySlug(categories, posts, slug).Ok?
    ensures var page := CategoryBySlug(categories, posts, slug).value;
            && multiset(page.posts) <= multiset(posts)
            && forall p :: p in posts && PublishedIn(p, page.category.name) && p !in page.posts ==>
                 |page.posts| == 10 && forall q :: q in page.posts ==> ByPublishedDesc(q, p)
  {
    var c := FindActiveBySlug(categories, slug).value;
    ByPublishedDescIsPreorder();
    var published := PublishedPosts(posts, c.name);
    var sorted := SortBy(published, ByPublishedDesc);
    assert CategoryBySlug(categories, posts, slug).value.posts == Take(sorted, 10);
    TakeSortedTop(sorted, 10, ByPublishedDesc);
    PublishedPostsCount(posts, c.name);
    assert multiset(published) <= multiset(posts);
    forall p | p in published ensures p in sorted {
      assert p in multiset(published);
    }
  }

  /**
   * `getCategoryBySlug` as written: the posts are fetched with a projection
   * that leaves out `content`, and serialising them runs the
   * `estimatedReadingTime` virtual, which calls `content.split`. A page with
   * any post therefore ends in the error handler instead of the response.
   */
  function CategoryBySlugAsWritten(categories: seq<Category>, posts: seq<Post>, slug: string)
    : (r: Result<CategoryPage, CategoryError>)
    ensures r.Ok? <==> CategoryBySlug(categories, posts, slug).Ok? && CategoryBySlug(categories, posts, slug).value.posts == []
    ensures r.Ok? ==> r == CategoryBySlug(categories, posts, slug)
  {
    var r := CategoryBySlug(categories, posts, slug);
    if r.Ok? && r.value.posts != [] then Err(Thrown(ContentNotSelected)) else r
  }

  /** As written, an active category with at least one published post is never served. */
  lemma {:induction false} CategoryBySlugAsWrittenFails(categories: seq<Category>, posts: seq<Post>, slug: string, p: Post)
    requires FindActiveBySlug(categories, slug).Some?
    requires p in posts && PublishedIn(p, FindActiveBySlug(categories, slug).value.name)
    ensures CategoryBySlugAsWritten(categories, posts, slug) == Err(Thrown(ContentNotSelected))
    ensures CategoryBySlug(categories, posts, slug).Ok?
  {
  }

  // ---------------------------------------------------------------------------
  // getCategoryHierarchy

  /** A category with the subtree built under it. */
  datatype Node = Node(category: Category, children: seq<Node>)

  /** No two items share an id, as MongoDB's `_id` guarantees. */
  predicate DistinctIds(items: seq<Category>) {
    forall i, j :: 0 <= i < j < |items| ==> items[i].id != items[j].id
  }

  lemma SameIdSameItem(items: seq<Category>, x: Category, y: Category)
    requires DistinctIds(items) && x in items && y in items
    ensures x.id == y.id ==> x == y
  {
    var a :| 0 <= a < |items| && items[a] == x;
    var b :| 0 <= b < |items| && items[b] == y;
    assert a < b || a == b || b < a;
  }

  /**
   * `path` is the chain of categories the recursion has descended through to
   * reach `parent`: a category without a parent first, each next one a child
   * of the one before, none twice, and `parent` the id of the last one.
   */
  ghost predicate Descent(items: seq<Category>, path: seq<Category>, parent: Option<string>) {
    && (forall x :: x in path ==> x in items)
    && (forall i, j :: 0 <= i < j < |path| ==> path[i] != path[j])
    && (forall k :: 0 < k < |path| ==> path[k].parentId == Some(path[k - 1].id))
    && (if path == [] then parent.None? else path[0].parentId.None? && parent == Some(path[|path| - 1].id))
  }

  /** The number of items not on the path: the recursion's measure. */
  ghost function Unvisited(items: seq<Category>, path: seq<Category>): nat {
    if items == [] then 0 else (if items[0] in path then 0 else 1) + Unvisited(items[1..], path)
  }

  lemma {:induction false} UnvisitedShrinks(items: seq<Category>, path: seq<Category>, c: Category)
    requires c !in path
    ensures Unvisited(items, path + [c]) <= Unvisited(items, path)
    ensures c in items ==> Unvisited(items, path + [c]) < Unvisited(items, path)
  {
    if items != [] {
      UnvisitedShrinks(items[1..], path, c);
      assert items[0] in path + [c] <==> items[0] in path || items[0] == c;
      assert c in items ==> c == items[0] || c in items[1..];
    }
  }

  lemma {:induction false} DescentIdsDistinct(items: seq<Category>, path: seq<Category>, parent: Option<string>)
    requires DistinctIds(items) && Descent(items, path, parent)
    ensures forall i, j :: 0 <= i < j < |path| ==> path[i].id != path[j].id
  {
    forall i, j | 0 <= i < j < |path| ensures path[i].id != path[j].id {
      SameIdSameItem(items, path[i], path[j]);
    }
  }

  /**
   * An item whose parent is the end of the descent is not on it yet, so
   * descending into its children keeps the path a descent and visits one
   * more item.
   */
  lemma {:induction false} DescentExtends(items: seq<Category>, path: seq<Category>, parent: Option<string>, c: Category)
    requires DistinctIds(items) && Descent(items, path, parent)
    requires c in items && c.parentId == parent
    ensures c !in path && Descent(items, path + [c], Some(c.id))
    ensures Unvisited(items, path + [c]) < Unvisited(items, path)
  {
    DescentIdsDistinct(items, path, parent);
    forall k | 0 <= k < |path| ensures path[k] != c {
      if 0 < k {
        assert path[k].parentId == Some(path[k - 1].id);
      }
    }
    var p := path + [c];
    assert forall i :: 0 <= i < |path| ==> p[i] == path[i];
    UnvisitedShrinks(items, path, c);
  }

  /**
   * `buildHierarchy(items, parentId)`: the items whose `parentId` is exactly
   * `parent`, in input order, each with the subtree of the items pointing at
   * its id. `rest` is the part of `items` still to be scanned and `path` the
   * ancestors above `parent`.
   */
  function Children(items: seq<Category>, rest: seq<Category>, parent: Option<string>,
                    ghost path: seq<Category>): (r: seq<Node>)
    requires DistinctIds(items) && Descent(items, path, parent)
    requires forall c :: c in rest ==> c in items
    decreases Unvisited(items, path), |rest|
  {
    if rest == [] then []
    else
      var c := rest[0];
      assert forall x :: x in rest[1..] ==> x in rest;
      var tail := Children(items, rest[1..], parent, path);
      if c.parentId == parent then
        DescentExtends(items, path, parent, c);
        var sub := Children(items, items, Some(c.id), path + [c]);
        [Node(c, sub)] + tail
      else tail
  }

  /** `buildHierarchy(categories)`: the tree of the categories without a parent. */
  function BuildHierarchy(items: seq<Category>): (r: seq<Node>)
    requires DistinctIds(items)
  {
    Children(items, items, None, [])
  }

  /** The categories of a list of nodes, in order. */
  function Heads(ns: seq<Node>): (r: seq<Category>)
    ensures |r| == |ns| && forall i :: 0 <= i < |ns| ==> r[i] == ns[i].category
  {
    seq(|ns|, i requires 0 <= i < |ns| => ns[i].category)
  }

  lemma {:induction false} HeadsCons(n: Node, ns: seq<Node>)
    ensures Heads([n] + ns) == [n.category] + Heads(ns)
  {
    assert forall i :: 1 <= i < |ns| + 1 ==> ([n] + ns)[i] == ns[i - 1];
  }

  /** `items.filter(item => item.parentId === parent)` */
  function WithParent(items: seq<Category>, parent: Option<string>): (r: seq<Category>)
    ensures forall c :: c in r <==> c in items && c.parentId == parent
  {
    if items == [] then []
    else
      assert forall c :: c in items <==> c == items[0] || c in items[1..];
      (if items[0].parentId == parent then [items[0]] else []) + WithParent(items[1..], parent)
  }

  /** The filter keeps every item with that parent as often as it occurs, and no other. */
  lemma {:induction false} WithParentCount(items: seq<Category>, parent: Option<string>)
    ensures forall c :: multiset(WithParent(items, parent))[c] == if c.parentId == parent then multiset(items)[c] else 0
  {
    if items != [] {
      WithParentCount(items[1..], parent);
      assert items == [items[0]] + items[1..];
    }
  }

  lemma {:induction false} WithParentCons(x: Category, s: seq<Category>, parent: Option<string>)
    ensures WithParent([x] + s, parent) == (if x.parentId == parent then [x] else []) + WithParent(s, parent)
  {
    assert ([x] + s)[0] == x && ([x] + s)[1..] == s;
  }

  /** The filter keeps the input order: it distributes over concatenation. */
  lemma {:induction false} WithParentAppend(a: seq<Category>, b: seq<Category>, parent: Option<string>)
    ensures WithParent(a + b, parent) == WithParent(a, parent) + WithParent(b, parent)
  {
    if a != [] {
      var h := if a[0].parentId == parent then [a[0]] else [];
      assert a + b == [a[0]] + (a[1..] + b);
      assert a == [a[0]] + a[1..];
      calc {
        WithParent(a + b, parent);
      == { WithParentCons(a[0], a[1..] + b, parent); }
        h + WithParent(a[1..] + b, parent);
      == { WithParentAppend(a[1..], b, parent); }
        h + (WithParent(a[1..], parent) + WithParent(b, parent));
      == { AppendAssoc(h, WithParent(a[1..], parent), WithParent(b, parent)); }
        (h + WithParent(a[1..], parent)) + WithParent(b, parent);
      == { WithParentCons(a[0], a[1..], parent); }
        WithParent(a, parent) + WithParent(b, parent);
      }
    } else {
      assert a + b == b;
    }
  }

  /** Every node holds an item, and its children are exactly the items pointing at it, in input order. */
  ghost predicate WellBuilt(items: seq<Category>, ns: seq<Node>)
    decreases ns
  {
    forall i :: 0 <= i < |ns| ==>
      && ns[i].category in items
      && Heads(ns[i].children) == WithParent(items, Some(ns[i].category.id))
      && WellBuilt(items, ns[i].children)
  }

  /** The forest built under `parent` lists exactly the items of `rest` pointing at `parent`, in input order. */
  lemma {:induction false} ChildrenHeads(items: seq<Category>, rest: seq<Category>, parent: Option<string>,
                                          path: seq<Category>)
    requires DistinctIds(items) && Descent(items, path, parent)
    requires forall c :: c in rest ==> c in items
    ensures Heads(Children(items, rest, parent, path)) == WithParent(rest, parent)
    decreases |rest|
  {
    if rest != [] {
      var c := rest[0];
      assert forall x :: x in rest[1..] ==> x in rest;
      ChildrenHeads(items, rest[1..], parent, path);
      var r := Children(items, rest, parent, path);
      var tail := Children(items, rest[1..], parent, path);
      assert WithParent(rest, parent) == (if c.parentId == parent then [c] else []) + WithParent(rest[1..], parent);
      if c.parentId == parent {
        DescentExtends(items, path, parent, c);
        var n := Node(c, Children(items, items, Some(c.id), path + [c]));
        assert r == [n] + tail;
        HeadsCons(n, tail);
      }
    }
  }

  /** Every forest `buildHierarchy` builds is well built. */
  lemma {:induction false} ChildrenWellBuilt(items: seq<Category>, rest: seq<Category>, parent: Option<string>,
                                              path: seq<Category>)
    requires DistinctIds(items) && Descent(items, path, parent)
    requires forall c :: c in rest ==> c in items
    ensures WellBuilt(items, Children(items, rest, parent, path))
    decreases Unvisited(items, path), |rest|
  {
    if rest != [] {
      var c := rest[0];
      assert forall x :: x in rest[1..] ==> x in rest;
      ChildrenWellBuilt(items, rest[1..], parent, path);
      if c.parentId == parent {
        DescentExtends(items, path, parent, c);
        ChildrenWellBuilt(items, items, Some(c.id), path + [c]);
        ChildrenHeads(items, items, Some(c.id), path + [c]);
        var n := Node(c, Children(items, items, Some(c.id), path + [c]));
        var tail := Children(items, rest[1..], parent, path);
        assert Children(items, rest, parent, path) == [n] + tail;
        WellBuiltCons(items, n, tail);
      }
    }
  }

  lemma WellBuiltCons(items: seq<Category>, n: Node, ns: seq<Node>)
    requires n.category in items && Heads(n.children) == WithParent(items, Some(n.category.id))
    requires WellBuilt(items, n.children) && WellBuilt(items, ns)
    ensures WellBuilt(items, [n] + ns)
  {
    var r := [n] + ns;
    forall i | 1 <= i < |r| ensures r[i] == ns[i - 1] {
    }
  }

  /** `x` occurs somewhere in the forest `ns`. */
  ghost predicate InTree(x: Category, ns: seq<Node>)
    decreases ns
  {
    exists i :: 0 <= i < |ns| && (ns[i].category == x || InTree(x, ns[i].children))
  }

  /** `path` is a chain of parent links from a category without a parent down to `x`. */
  ghost predicate RootPath(items: seq<Category>, path: seq<Category>, x: Category) {
    path != [] && path[|path| - 1] == x && Descent(items, path, Some(x.id))
  }

  /** `x`'s chain of parents ends at a category without a parent. */
  ghost predicate ReachesRoot(items: seq<Category>, x: Category) {
    exists path :: RootPath(items, path, x)
  }

  /** A chain down to `x` passes through `x`'s parent just before it. */
  lemma {:induction false} ParentOnPath(items: seq<Category>, path: seq<Category>, x: Category)
    requires RootPath(items, path, x) && x.parentId.Some?
    ensures |path| >= 2 && path[|path| - 2] in items && x.parentId == Some(path[|path| - 2].id)
  {
    var n := |path|;
    assert n >= 2;
    assert path[n - 1].parentId == Some(path[n - 2].id);
    assert path[n - 2] in path;
  }

  lemma {:induction false} RootPathPrefix(items: seq<Category>, path: seq<Category>, x: Category, p: Category)
    requires DistinctIds(items) && RootPath(items, path, x)
    requires p in items && x.parentId == Some(p.id)
    ensures |path| >= 2 && path[|path| - 2] == p && RootPath(items, path[..|path| - 1], p)
  {
    var n := |path|;
    ParentOnPath(items, path, x);
    SameIdSameItem(items, path[n - 2], p);
    var q := path[..n - 1];
    assert forall i :: 0 <= i < n - 1 ==> q[i] == path[i];
    assert forall x :: x in q ==> x in path;
  }

  /** Everything in the forest built under the end of a descent is an item whose chain reaches a root. */
  lemma {:induction false} ChildrenSound(items: seq<Category>, rest: seq<Category>, parent: Option<string>,
                                          path: seq<Category>, x: Category)
    requires DistinctIds(items) && Descent(items, path, parent)
    requires forall c :: c in rest ==> c in items
    requires InTree(x, Children(items, rest, parent, path))
    ensures x in items && ReachesRoot(items, x)
    decreases Unvisited(items, path), |rest|
  {
    var r := Children(items, rest, parent, path);
    var c := rest[0];
    assert forall y :: y in rest[1..] ==> y in rest;
    var tail := Children(items, rest[1..], parent, path);
    if c.parentId == parent {
      DescentExtends(items, path, parent, c);
      var sub := Children(items, items, Some(c.id), path + [c]);
      assert r == [Node(c, sub)] + tail;
      var i :| 0 <= i < |r| && (r[i].category == x || InTree(x, r[i].children));
      if i == 0 {
        if r[0].category == x {
          assert RootPath(items, path + [c], x);
        } else {
          ChildrenSound(items, items, Some(c.id), path + [c], x);
        }
      } else {
        assert tail[i - 1] == r[i];
        ChildrenSound(items, rest[1..], parent, path, x);
      }
    } else {
      ChildrenSound(items, rest[1..], parent, path, x);
    }
  }

  /** In a well-built forest, an item pointing at a category of the forest is in the forest too. */
  lemma {:induction false} ChildOfTreeNode(items: seq<Category>, ns: seq<Node>, p: Category, x: Category)
    requires WellBuilt(items, ns)
    requires InTree(p, ns) && x in items && x.parentId == Some(p.id)
    ensures InTree(x, ns)
    decreases ns
  {
    var i :| 0 <= i < |ns| && (ns[i].category == p || InTree(p, ns[i].children));
    var kids := ns[i].children;
    WellBuiltAt(items, ns, i);
    if ns[i].category == p {
      ChildIsKid(items, kids, p, x);
    } else {
      ChildOfTreeNode(items, kids, p, x);
    }
    InTreeAt(x, ns, i);
  }

  lemma ChildIsKid(items: seq<Category>, kids: seq<Node>, p: Category, x: Category)
    requires Heads(kids) == WithParent(items, Some(p.id))
    requires x in items && x.parentId == Some(p.id)
    ensures InTree(x, kids)
  {
    assert x in Heads(kids);
    var j :| 0 <= j < |kids| && Heads(kids)[j] == x;
    InTreeAt(x, kids, j);
  }

  lemma WellBuiltAt(items: seq<Category>, ns: seq<Node>, i: nat)
    requires WellBuilt(items, ns) && i < |ns|
    ensures ns[i].category in items
    ensures Heads(ns[i].children) == WithParent(items, Some(ns[i].category.id))
    ensures WellBuilt(items, ns[i].children)
  {
  }

  lemma InTreeAt(x: Category, ns: seq<Node>, i: nat)
    requires i < |ns| && (ns[i].category == x || InTree(x, ns[i].children))
    ensures InTree(x, ns)
  {
  }

  /** Every item whose chain reaches a root is in the hierarchy. */
  lemma {:induction false} HierarchyComplete(items: seq<Category>, path: seq<Category>, x: Category)
    requires DistinctIds(items) && RootPath(items, path, x)
    ensures InTree(x, BuildHierarchy(items))
    decreases |path|
  {
    var roots := BuildHierarchy(items);
    ChildrenHeads(items, items, None, []);
    if |path| == 1 {
      assert x in Heads(roots);
      var j :| 0 <= j < |roots| && Heads(roots)[j] == x;
      InTreeAt(x, roots, j);
    } else {
      var p := path[|path| - 2];
      assert x.parentId == Some(p.id);
      RootPathPrefix(items, path, x, p);
      HierarchyComplete(items, path[..|path| - 1], p);
      ChildrenWellBuilt(items, items, None, []);
      ChildOfTreeNode(items, roots, p, x);
    }
  }

  /**
   * The hierarchy holds exactly the items whose chain of parents ends at a
   * category without a parent. The roots are exactly the items without a
   * parent, in input order.
   */
  lemma {:induction false} HierarchyContents(items: seq<Category>, x: Category)
    requires DistinctIds(items)
    ensures Heads(BuildHierarchy(items)) == WithParent(items, None)
    ensures InTree(x, BuildHierarchy(items)) <==> x in items && ReachesRoot(items, x)
  {
    ChildrenHeads(items, items, None, []);
    if InTree(x, BuildHierarchy(items)) {
      ChildrenSound(items, items, None, [], x);
    }
    if x in items && ReachesRoot(items, x) {
      var path :| RootPath(items, path, x);
      HierarchyComplete(items, path, x);
    }
  }

  /** Parent links that go round in a loop: each item is the parent of the next, the last one of the first. */
  ghost predicate ParentCycle(items: seq<Category>, cycle: seq<Category>) {
    && cycle != []
    && (forall x :: x in cycle ==> x in items)
    && (forall k :: 0 < k < |cycle| ==> cycle[k].parentId == Some(cycle[k - 1].id))
    && cycle[0].parentId == Some(cycle[|cycle| - 1].id)
  }

  /** An item whose parent id names no item, or one on a loop of parent links. */
  ghost predicate Unrooted(items: seq<Category>, y: Category) {
    || (y.parentId.Some? && forall p :: p in items ==> p.id != y.parentId.value)
    || exists cycle :: ParentCycle(items, cycle) && y in cycle
  }

  /** No chain from a category without a parent leads onto a loop. */
  lemma {:induction false} NoRootPathOntoCycle(items: seq<Category>, cycle: seq<Category>, k: nat, path: seq<Category>)
    requires DistinctIds(items) && ParentCycle(items, cycle) && k < |cycle|
    ensures !RootPath(items, path, cycle[k])
    decreases |path|
  {
    if RootPath(items, path, cycle[k]) {
      var k' := if k == 0 then |cycle| - 1 else k - 1;
      assert cycle[k].parentId == Some(cycle[k'].id);
      RootPathPrefix(items, path, cycle[k], cycle[k']);
      NoRootPathOntoCycle(items, cycle, k', path[..|path| - 1]);
      assert false;
    }
  }

  lemma {:induction false} UnrootedUnreachable(items: seq<Category>, y: Category)
    requires DistinctIds(items) && Unrooted(items, y)
    ensures !ReachesRoot(items, y)
  {
    if y.parentId.Some? && forall p :: p in items ==> p.id != y.parentId.value {
      forall path: seq<Category> | RootPath(items, path, y) ensures false {
        ParentOnPath(items, path, y);
      }
    } else {
      var cycle :| ParentCycle(items, cycle) && y in cycle;
      var k :| 0 <= k < |cycle| && cycle[k] == y;
      forall path: seq<Category> ensures !RootPath(items, path, y) {
        NoRootPathOntoCycle(items, cycle, k, path);
      }
    }
  }

  /** A chain of parent links going up: each item's parent is the next one. */
  ghost predicate Ancestry(items: seq<Category>, up: seq<Category>) {
    && up != []
    && (forall x :: x in up ==> x in items)
    && (forall k :: 0 <= k < |up| - 1 ==> up[k].parentId == Some(up[k + 1].id))
  }

  lemma {:induction false} AncestryUnreachable(items: seq<Category>, up: seq<Category>)
    requires DistinctIds(items) && Ancestry(items, up) && Unrooted(items, up[|up| - 1])
    ensures !ReachesRoot(items, up[0])
    decreases |up|
  {
    if |up| == 1 {
      UnrootedUnreachable(items, up[0]);
    } else {
      assert Ancestry(items, up[1..]) by {
        assert forall x :: x in up[1..] ==> x in up;
      }
      AncestryUnreachable(items, up[1..]);
      forall path: seq<Category> | RootPath(items, path, up[0]) ensures false {
        RootPathPrefix(items, path, up[0], up[1]);
      }
    }
  }

  /**
   * An item whose parent id names no item, or that sits on a loop of parent
   * links, is not in the hierarchy, and neither is anything below it: the
   * recursion never reaches them, since it only descends from the items
   * without a parent.
   */
  lemma {:induction false} UnrootedLeftOut(items: seq<Category>, up: seq<Category>)
    requires DistinctIds(items) && Ancestry(items, up) && Unrooted(items, up[|up| - 1])
    ensures !InTree(up[0], BuildHierarchy(items))
  {
    AncestryUnreachable(items, up);
    HierarchyContents(items, up[0]);
  }
}
