/** The `/categories` endpoints. Categories are the roots of the content
    hierarchy; their names are unique across all categories at creation
    (there is no parent to scope them), but a rename is not checked. The
    listing joins each course with the current user's progress rows. */
module Categories {
  import opened Wrappers
  import opened Schemas
  import Siblings
  import Listing
  import Tables

  type Table = map<Id, Category>

  /** Some stored category is called `name`. */
  predicate NameTaken(cats: Table, name: string) {
    exists id :: id in cats && cats[id].name == name
  }

  /** No two categories share a name. */
  predicate UniqueNames(cats: Table) {
    forall a, b :: a in cats && b in cats && a != b ==> cats[a].name != cats[b].name
  }

  /** `POST /categories`: 400 when any category already has this name;
      otherwise the category is stored under the new key `id`. */
  function CreateCategory(cats: Table, req: CategoryCreate, id: Id): (r: Result<(Table, Category)>)
    requires id !in cats
    ensures r.Err? <==> NameTaken(cats, req.name)
    ensures r.Err? ==> r.error == BadRequest
    ensures r.Ok? ==> r.value.0 == cats[id := r.value.1]
    ensures r.Ok? ==> r.value.1.name == req.name && r.value.1.description == req.description
  {
    if NameTaken(cats, req.name) then Err(BadRequest)
    else
      var c := Category(req.name, req.description);
      Ok((cats[id := c], c))
  }

  /** `PUT /categories/{id}`: 404 for an unknown id, otherwise a patch of
      exactly the fields that were sent. */
  function UpdateCategory(cats: Table, id: Id, p: CategoryUpdate): (r: Result<(Table, Category)>)
    ensures r.Err? <==> id !in cats
    ensures r.Err? ==> r.error == NotFound
    ensures r.Ok? ==> r.value.0 == cats[id := r.value.1]
    ensures r.Ok? ==> var (before, after) := (cats[id], r.value.1);
              && (if p.name.Put? then after.name == p.name.value else after.name == before.name)
              && (if p.description.Put? then after.description == p.description.value
                  else after.description == before.description)
  {
    if id !in cats then Err(NotFound)
    else
      var c := Category(p.name.Apply(cats[id].name), p.description.Apply(cats[id].description));
      Ok((cats[id := c], c))
  }

  /** `GET /categories/{id}`. */
  function ReadCategory(cats: Table, id: Id): (r: Result<Category>)
    ensures r.Err? <==> id !in cats
    ensures r.Err? ==> r.error == NotFound
    ensures r.Ok? ==> r.value == cats[id]
  {
    Tables.Get(cats, id)
  }

  /** `DELETE /categories/{id}`: 404 for an unknown id, otherwise exactly
      that category is removed and returned. */
  function DeleteCategory(cats: Table, id: Id): (r: Result<(Table, Category)>)
    ensures r.Err? <==> id !in cats
    ensures r.Err? ==> r.error == NotFound
    ensures r.Ok? ==> r.value.0.Keys == cats.Keys - {id} && r.value.1 == cats[id]
    ensures r.Ok? ==> forall k :: k in r.value.0 ==> r.value.0[k] == cats[k]
  {
    Tables.Remove(cats, id)
  }

  function CourseCategory(c: Course): int { c.categoryId }

  /** `category.courses`: the courses whose `category_id` is `id`, by
      ascending id. */
  function CoursesOf(courses: map<Id, Course>, id: Id): (r: seq<Id>)
    ensures forall c :: c in r <==> c in courses && courses[c].categoryId == id
    ensures forall i, j :: 0 <= i < j < |r| ==> r[i] < r[j]
  {
    Listing.Ascending(Siblings.Children(courses, CourseCategory, id))
  }

  /** `GET /categories/{id}/courses`. */
  function GetCategoryCourses(cats: Table, courses: map<Id, Course>, id: Id): (r: Result<seq<Id>>)
    ensures r.Err? <==> id !in cats
    ensures r.Err? ==> r.error == NotFound
    ensures r.Ok? ==> forall c :: c in r.value <==> c in courses && courses[c].categoryId == id
    ensures r.Ok? ==> forall i, j :: 0 <= i < j < |r.value| ==> r.value[i] != r.value[j]
  {
    if id !in cats then Err(NotFound) else Ok(CoursesOf(courses, id))
  }

  /** `course.videos`: the videos in the units of the course, by ascending
      id. */
  function VideosOf(units: map<Id, Unit>, videos: map<Id, Video>, courseId: Id): (r: seq<Id>)
    ensures forall v :: v in r <==> v in videos && videos[v].unitId in units &&
                                    units[videos[v].unitId].courseId == courseId
    ensures forall i, j :: 0 <= i < j < |r| ==> r[i] < r[j]
  {
    Listing.Ascending(set v | v in videos && videos[v].unitId in units && units[videos[v].unitId].courseId == courseId)
  }

  /** One course of the listing: the stored course, the user's progress row
      for it, and for each of its videos the user's progress row. */
  datatype CourseView = CourseView(id: Id, course: Course, progress: Option<CourseProgress>,
                                   videos: seq<Option<VideoProgress>>)

  datatype CategoryView = CategoryView(id: Id, category: Category, courses: seq<CourseView>)

  /** `dict.get`: the row stored for the key, or `None`. */
  function Lookup<K, V>(m: map<K, V>, k: K): (r: Option<V>)
    ensures r.Some? <==> k in m
    ensures r.Some? ==> r.value == m[k]
  {
    if k in m then Some(m[k]) else None
  }

  /** The ids of listed views, in listing order; `idOf` projects a view
      to the id of the row it shows. */
  function ViewIds<V>(r: seq<V>, idOf: V -> Id): (ids: seq<Id>)
    ensures |ids| == |r|
    ensures forall i :: 0 <= i < |r| ==> ids[i] == idOf(r[i])
  {
    if r == [] then [] else [idOf(r[0])] + ViewIds(r[1..], idOf)
  }

  function CourseViewId(v: CourseView): Id { v.id }

  function CategoryViewId(v: CategoryView): Id { v.id }

  /** `cv` shows course `cv.id` as the listing should for user `userId`:
      the stored course, the user's own progress row for it (or none), and
      one entry per video of the course, in `VideosOf` order, holding the
      user's progress row for that video (or none). */
  ghost predicate CourseShown(courses: map<Id, Course>, units: map<Id, Unit>, videos: map<Id, Video>,
                              cp: map<(Id, Id), CourseProgress>, vp: map<(Id, Id), VideoProgress>,
                              userId: Id, cv: CourseView)
  {
    && cv.id in courses && cv.course == courses[cv.id]
    && cv.progress == Lookup(cp, (userId, cv.id))
    && var vs := VideosOf(units, videos, cv.id);
       && |cv.videos| == |vs|
       && forall j :: 0 <= j < |vs| ==> cv.videos[j] == Lookup(vp, (userId, vs[j]))
  }

  /** Every entry of `r` is shown as `CourseShown` says. */
  ghost predicate CoursesShown(courses: map<Id, Course>, units: map<Id, Unit>, videos: map<Id, Video>,
                               cp: map<(Id, Id), CourseProgress>, vp: map<(Id, Id), VideoProgress>,
                               userId: Id, r: seq<CourseView>)
    decreases |r|
  {
    r != [] ==> CourseShown(courses, units, videos, cp, vp, userId, r[0]) &&
                CoursesShown(courses, units, videos, cp, vp, userId, r[1..])
  }

  /** `v` shows the stored category `v.id` with exactly its courses, in the
      order `CoursesOf` gives, each shown as `CourseShown` says. */
  ghost predicate CategoryShown(cats: Table, courses: map<Id, Course>, units: map<Id, Unit>, videos: map<Id, Video>,
                                cp: map<(Id, Id), CourseProgress>, vp: map<(Id, Id), VideoProgress>,
                                userId: Id, v: CategoryView)
  {
    && v.id in cats && v.category == cats[v.id]
    && ViewIds(v.courses, CourseViewId) == CoursesOf(courses, v.id)
    && CoursesShown(courses, units, videos, cp, vp, userId, v.courses)
  }

  /** Every entry of `r` is shown as `CategoryShown` says. */
  ghost predicate CategoriesShown(cats: Table, courses: map<Id, Course>, units: map<Id, Unit>, videos: map<Id, Video>,
                                  cp: map<(Id, Id), CourseProgress>, vp: map<(Id, Id), VideoProgress>,
                                  userId: Id, r: seq<CategoryView>)
    decreases |r|
  {
    r != [] ==> CategoryShown(cats, courses, units, videos, cp, vp, userId, r[0]) &&
                CategoriesShown(cats, courses, units, videos, cp, vp, userId, r[1..])
  }

  function ViewCourse(courses: map<Id, Course>, units: map<Id, Unit>, videos: map<Id, Video>,
                      cp: map<(Id, Id), CourseProgress>, vp: map<(Id, Id), VideoProgress>,
                      userId: Id, c: Id): (cv: CourseView)
    requires c in courses
    ensures cv.id == c
    ensures CourseShown(courses, units, videos, cp, vp, userId, cv)
  {
    var vs := VideosOf(units, videos, c);
    CourseView(c, courses[c], Lookup(cp, (userId, c)),
               seq(|vs|, j requires 0 <= j < |vs| => Lookup(vp, (userId, vs[j]))))
  }

  /** The views of the courses `ids`, in that order. */
  function ViewCourses(courses: map<Id, Course>, units: map<Id, Unit>, videos: map<Id, Video>,
                       cp: map<(Id, Id), CourseProgress>, vp: map<(Id, Id), VideoProgress>,
                       userId: Id, ids: seq<Id>): (r: seq<CourseView>)
    requires forall i :: 0 <= i < |ids| ==> ids[i] in courses
    ensures ViewIds(r, CourseViewId) == ids
    ensures CoursesShown(courses, units, videos, cp, vp, userId, r)
  {
    if ids == [] then []
    else
      var v := ViewCourse(courses, units, videos, cp, vp, userId, ids[0]);
      var rest := ViewCourses(courses, units, videos, cp, vp, userId, ids[1..]);
      assert ([v] + rest)[1..] == rest;
      assert ids == [ids[0]] + ids[1..];
      [v] + rest
  }

  function ViewCategory(cats: Table, courses: map<Id, Course>, units: map<Id, Unit>, videos: map<Id, Video>,
                        cp: map<(Id, Id), CourseProgress>, vp: map<(Id, Id), VideoProgress>,
                        userId: Id, id: Id): (v: CategoryView)
    requires id in cats
    ensures v.id == id
    ensures CategoryShown(cats, courses, units, videos, cp, vp, userId, v)
  {
    var cs := CoursesOf(courses, id);
    assert forall i :: 0 <= i < |cs| ==> cs[i] in cs;
    CategoryView(id, cats[id], ViewCourses(courses, units, videos, cp, vp, userId, cs))
  }

  /** The views of the categories `ids`, in that order. */
  function ViewCategories(cats: Table, courses: map<Id, Course>, units: map<Id, Unit>, videos: map<Id, Video>,
                          cp: map<(Id, Id), CourseProgress>, vp: map<(Id, Id), VideoProgress>,
                          userId: Id, ids: seq<Id>): (r: seq<CategoryView>)
    requires forall i :: 0 <= i < |ids| ==> ids[i] in cats
    ensures ViewIds(r, CategoryViewId) == ids
    ensures CategoriesShown(cats, courses, units, videos, cp, vp, userId, r)
  {
    if ids == [] then []
    else
      var v := ViewCategory(cats, courses, units, videos, cp, vp, userId, ids[0]);
      var rest := ViewCategories(cats, courses, units, videos, cp, vp, userId, ids[1..]);
      assert ([v] + rest)[1..] == rest;
      assert ids == [ids[0]] + ids[1..];
      [v] + rest
  }

  /** `GET /categories` for user `userId`: the categories in ascending id
      order (so each exactly once), each with its courses; each course
      carries the user's progress row for it (or none) and one entry per
      video of the course: the user's progress row for that video, or
      none. */
  function GetCategories(cats: Table, courses: map<Id, Course>, units: map<Id, Unit>, videos: map<Id, Video>,
                         cp: map<(Id, Id), CourseProgress>, vp: map<(Id, Id), VideoProgress>,
                         userId: Id): (r: seq<CategoryView>)
    ensures ViewIds(r, CategoryViewId) == Listing.Ascending(cats.Keys)
    ensures CategoriesShown(cats, courses, units, videos, cp, vp, userId, r)
  {
    var ids := Listing.Ascending(cats.Keys);
    ViewCategories(cats, courses, units, videos, cp, vp, userId, ids)
  }

  /** Every entry of `r` shows a stored category with its stored fields and
      no courses. */
  ghost predicate ShownBare(cats: Table, r: seq<CategoryView>)
    decreases |r|
  {
    r != [] ==> r[0].id in cats && r[0].category == cats[r[0].id] && r[0].courses == [] &&
                ShownBare(cats, r[1..])
  }

  /** The categories `ids`, in that order, each shown without courses. */
  function BareCategories(cats: Table, ids: seq<Id>): (r: seq<CategoryView>)
    requires forall i :: 0 <= i < |ids| ==> ids[i] in cats
    ensures ViewIds(r, CategoryViewId) == ids
    ensures ShownBare(cats, r)
  {
    if ids == [] then []
    else
      var v := CategoryView(ids[0], cats[ids[0]], []);
      var rest := BareCategories(cats, ids[1..]);
      assert ([v] + rest)[1..] == rest;
      assert ids == [ids[0]] + ids[1..];
      [v] + rest
  }

  /** `GET /categories` as the handler is written. It stores `[]` under
      `courses` in the category's instance dictionary before it loops over
      `category.courses`; the mapped attribute then reads that same empty
      list back, so the loop body never runs and every category is listed
      without courses, whatever the course and progress tables hold. */
  function GetCategoriesAsWritten(cats: Table): (r: seq<CategoryView>)
    ensures ViewIds(r, CategoryViewId) == Listing.Ascending(cats.Keys)
    ensures ShownBare(cats, r)
  {
    BareCategories(cats, Listing.Ascending(cats.Keys))
  }

  /** The `k`-th entry of a listing shown as `ShownBare` says has no
      courses. */
  lemma {:induction false} BareAt(cats: Table, r: seq<CategoryView>, k: nat)
    requires ShownBare(cats, r) && k < |r|
    ensures r[k].id in cats && r[k].category == cats[r[k].id] && r[k].courses == []
    decreases k
  {
    if k > 0 {
      BareAt(cats, r[1..], k - 1);
      assert r[1..][k - 1] == r[k];
    }
  }

  /** The `k`-th entry of a listing shown as `CategoriesShown` says is shown
      as `CategoryShown` says. */
  lemma {:induction false} ShownAt(cats: Table, courses: map<Id, Course>, units: map<Id, Unit>, videos: map<Id, Video>,
                                   cp: map<(Id, Id), CourseProgress>, vp: map<(Id, Id), VideoProgress>,
                                   userId: Id, r: seq<CategoryView>, k: nat)
    requires CategoriesShown(cats, courses, units, videos, cp, vp, userId, r) && k < |r|
    ensures CategoryShown(cats, courses, units, videos, cp, vp, userId, r[k])
    decreases k
  {
    if k > 0 {
      ShownAt(cats, courses, units, videos, cp, vp, userId, r[1..], k - 1);
      assert r[1..][k - 1] == r[k];
    }
  }

  /** As soon as one stored category holds a course, the listing as written
      differs from the intended one: the intended entry of that category
      lists the course, the written one lists nothing. */
  lemma AsWrittenHidesCourses(cats: Table, courses: map<Id, Course>, units: map<Id, Unit>, videos: map<Id, Video>,
                              cp: map<(Id, Id), CourseProgress>, vp: map<(Id, Id), VideoProgress>,
                              userId: Id, c: Id)
    requires c in courses && courses[c].categoryId in cats
    ensures GetCategoriesAsWritten(cats) != GetCategories(cats, courses, units, videos, cp, vp, userId)
  {
    var w := GetCategoriesAsWritten(cats);
    var g := GetCategories(cats, courses, units, videos, cp, vp, userId);
    var ids := Listing.Ascending(cats.Keys);
    var k := IndexOf(ids, courses[c].categoryId);
    assert ViewIds(g, CategoryViewId) == ids && ViewIds(w, CategoryViewId) == ids;
    BareAt(cats, w, k);
    assert g[k].id == ids[k] && w[k].id == ids[k];
    ShownAt(cats, courses, units, videos, cp, vp, userId, g, k);
    ShownHasCourse(courses, g[k], c);
  }

  /** One category holding one course: the listing as written shows the
      category without it, the intended listing shows it. */
  lemma AsWrittenExample(userId: Id)
    ensures var cats := map[1 := Category("Math", None)];
      var courses := map[7 := Course("Algebra", None, 1, 1)];
      GetCategoriesAsWritten(cats) != GetCategories(cats, courses, map[], map[], map[], map[], userId)
  {
    var cats := map[1 := Category("Math", None)];
    var courses := map[7 := Course("Algebra", None, 1, 1)];
    AsWrittenHidesCourses(cats, courses, map[], map[], map[], map[], userId, 7);
  }

  /** An entry listing exactly its category's courses lists at least one
      when the category holds one. */
  lemma ShownHasCourse(courses: map<Id, Course>, v: CategoryView, c: Id)
    requires ViewIds(v.courses, CourseViewId) == CoursesOf(courses, v.id)
    requires c in courses && courses[c].categoryId == v.id
    ensures |v.courses| > 0
  {
    var cs := CoursesOf(courses, v.id);
    assert c in cs;
    assert |ViewIds(v.courses, CourseViewId)| == |cs|;
  }

  /** Every stored category is listed, and exactly once. */
  lemma EveryCategoryOnce(cats: Table, courses: map<Id, Course>, units: map<Id, Unit>, videos: map<Id, Video>,
                          cp: map<(Id, Id), CourseProgress>, vp: map<(Id, Id), VideoProgress>, userId: Id)
    ensures var r := GetCategories(cats, courses, units, videos, cp, vp, userId);
      forall id :: id in cats ==> exists i :: 0 <= i < |r| && r[i].id == id &&
                                    forall j :: 0 <= j < |r| && r[j].id == id ==> j == i
  {
    var r := GetCategories(cats, courses, units, videos, cp, vp, userId);
    var ids := ListedIds(cats, courses, units, videos, cp, vp, userId);
    forall id | id in cats
      ensures exists i :: 0 <= i < |r| && r[i].id == id && forall j :: 0 <= j < |r| && r[j].id == id ==> j == i
    {
      var i := UniqueIndex(ids, id);
      assert r[i].id == id;
      assert forall j :: 0 <= j < |r| && r[j].id == id ==> ids[j] == id;
    }
  }

  /** In a strictly ascending sequence, a member sits at exactly one
      position. */
  lemma UniqueIndex(s: seq<Id>, x: Id) returns (i: nat)
    requires x in s
    requires forall a, b :: 0 <= a < b < |s| ==> s[a] < s[b]
    ensures i < |s| && s[i] == x
    ensures forall j :: 0 <= j < |s| && s[j] == x ==> j == i
  {
    i := IndexOf(s, x);
  }

  lemma IndexOf(s: seq<Id>, x: Id) returns (i: nat)
    requires x in s
    ensures i < |s| && s[i] == x
  {
    i :| 0 <= i < |s| && s[i] == x;
  }

  /** The listing has one entry per stored category, by strictly ascending
      id. */
  lemma ListedByAscendingId(cats: Table, courses: map<Id, Course>, units: map<Id, Unit>, videos: map<Id, Video>,
                            cp: map<(Id, Id), CourseProgress>, vp: map<(Id, Id), VideoProgress>, userId: Id)
    ensures var r := GetCategories(cats, courses, units, videos, cp, vp, userId);
      && |r| == |cats|
      && (forall i :: 0 <= i < |r| ==> r[i].id in cats)
      && (forall i, j :: 0 <= i < j < |r| ==> r[i].id < r[j].id)
  {
    var ids := ListedIds(cats, courses, units, videos, cp, vp, userId);
    assert forall i :: 0 <= i < |ids| ==> ids[i] in ids;
  }

  /** The listing follows the ascending order of the category ids. */
  lemma ListedIds(cats: Table, courses: map<Id, Course>, units: map<Id, Unit>, videos: map<Id, Video>,
                  cp: map<(Id, Id), CourseProgress>, vp: map<(Id, Id), VideoProgress>, userId: Id)
    returns (ids: seq<Id>)
    ensures forall x :: x in ids <==> x in cats
    ensures forall i, j :: 0 <= i < j < |ids| ==> ids[i] < ids[j]
    ensures var r := GetCategories(cats, courses, units, videos, cp, vp, userId);
      |r| == |ids| && forall i :: 0 <= i < |r| ==> r[i].id == ids[i]
  {
    ids := Listing.Ascending(cats.Keys);
  }

  /** The two progress tables agree on every row of user `userId`. */
  ghost predicate SameRowsFor<V>(a: map<(Id, Id), V>, b: map<(Id, Id), V>, userId: Id) {
    forall k: (Id, Id) :: k.0 == userId ==> Lookup(a, k) == Lookup(b, k)
  }

  /** Progress rows of other users never influence a user's listing. */
  lemma {:induction false} OtherUsersInvisible(cats: Table, courses: map<Id, Course>, units: map<Id, Unit>,
                                               videos: map<Id, Video>,
                                               cp: map<(Id, Id), CourseProgress>, vp: map<(Id, Id), VideoProgress>,
                                               cp': map<(Id, Id), CourseProgress>, vp': map<(Id, Id), VideoProgress>,
                                               userId: Id)
    requires SameRowsFor(cp, cp', userId) && SameRowsFor(vp, vp', userId)
    ensures GetCategories(cats, courses, units, videos, cp, vp, userId) ==
            GetCategories(cats, courses, units, videos, cp', vp', userId)
  {
    SameCategoryViews(cats, courses, units, videos, cp, vp, cp', vp', userId, Listing.Ascending(cats.Keys));
  }

  lemma SameCourseView(courses: map<Id, Course>, units: map<Id, Unit>, videos: map<Id, Video>,
                       cp: map<(Id, Id), CourseProgress>, vp: map<(Id, Id), VideoProgress>,
                       cp': map<(Id, Id), CourseProgress>, vp': map<(Id, Id), VideoProgress>,
                       userId: Id, c: Id)
    requires c in courses
    requires SameRowsFor(cp, cp', userId) && SameRowsFor(vp, vp', userId)
    ensures ViewCourse(courses, units, videos, cp, vp, userId, c) == ViewCourse(courses, units, videos, cp', vp', userId, c)
  {
    var a := ViewCourse(courses, units, videos, cp, vp, userId, c);
    var b := ViewCourse(courses, units, videos, cp', vp', userId, c);
    assert Lookup(cp, (userId, c)) == Lookup(cp', (userId, c));
    var vs := VideosOf(units, videos, c);
    forall j | 0 <= j < |vs| ensures a.videos[j] == b.videos[j] {
      assert Lookup(vp, (userId, vs[j])) == Lookup(vp', (userId, vs[j]));
    }
    assert a.videos == b.videos;
  }

  lemma {:induction false} SameCourseViews(courses: map<Id, Course>, units: map<Id, Unit>, videos: map<Id, Video>,
                                           cp: map<(Id, Id), CourseProgress>, vp: map<(Id, Id), VideoProgress>,
                                           cp': map<(Id, Id), CourseProgress>, vp': map<(Id, Id), VideoProgress>,
                                           userId: Id, ids: seq<Id>)
    requires forall i :: 0 <= i < |ids| ==> ids[i] in courses
    requires SameRowsFor(cp, cp', userId) && SameRowsFor(vp, vp', userId)
    ensures ViewCourses(courses, units, videos, cp, vp, userId, ids) ==
            ViewCourses(courses, units, videos, cp', vp', userId, ids)
    decreases |ids|
  {
    if ids != [] {
      SameCourseView(courses, units, videos, cp, vp, cp', vp', userId, ids[0]);
      SameCourseViews(courses, units, videos, cp, vp, cp', vp', userId, ids[1..]);
    }
  }

  lemma {:induction false} SameCategoryViews(cats: Table, courses: map<Id, Course>, units: map<Id, Unit>,
                                             videos: map<Id, Video>,
                                             cp: map<(Id, Id), CourseProgress>, vp: map<(Id, Id), VideoProgress>,
                                             cp': map<(Id, Id), CourseProgress>, vp': map<(Id, Id), VideoProgress>,
                                             userId: Id, ids: seq<Id>)
    requires forall i :: 0 <= i < |ids| ==> ids[i] in cats
    requires SameRowsFor(cp, cp', userId) && SameRowsFor(vp, vp', userId)
    ensures ViewCategories(cats, courses, units, videos, cp, vp, userId, ids) ==
            ViewCategories(cats, courses, units, videos, cp', vp', userId, ids)
    decreases |ids|
  {
    if ids != [] {
      var cs := CoursesOf(courses, ids[0]);
      assert forall i :: 0 <= i < |cs| ==> cs[i] in cs;
      SameCourseViews(courses, units, videos, cp, vp, cp', vp', userId, cs);
      SameCategoryViews(cats, courses, units, videos, cp, vp, cp', vp', userId, ids[1..]);
    }
  }

  /** Creating keeps category names unique. */
  lemma CreateKeepsNamesUnique(cats: Table, req: CategoryCreate, id: Id)
    requires id !in cats && UniqueNames(cats) && CreateCategory(cats, req, id).Ok?
    ensures UniqueNames(CreateCategory(cats, req, id).value.0)
  {
    var m := CreateCategory(cats, req, id).value.0;
    forall a, b | a in m && b in m && a != b ensures m[a].name != m[b].name {
      if a == id {
        assert b in cats && m[b] == cats[b];
      } else if b == id {
        assert a in cats && m[a] == cats[a];
      }
    }
  }

  /** A rename is not checked against the other names, so an update can
      leave two categories with one name. */
  lemma RenameCanDuplicateName()
    ensures var cats := map[1 := Category("Math", None), 2 := Category("Art", None)];
      && UniqueNames(cats)
      && UpdateCategory(cats, 2, CategoryUpdate(Put("Math"), Keep)).Ok?
      && !UniqueNames(UpdateCategory(cats, 2, CategoryUpdate(Put("Math"), Keep)).value.0)
  {
    var cats := map[1 := Category("Math", None), 2 := Category("Art", None)];
    var m := UpdateCategory(cats, 2, CategoryUpdate(Put("Math"), Keep)).value.0;
    assert m[1].name == m[2].name;
  }

  /** Sending the same update twice leaves the table as the first one did. */
  lemma UpdateIdempotent(cats: Table, id: Id, p: CategoryUpdate)
    requires UpdateCategory(cats, id, p).Ok?
    ensures var (m, c) := UpdateCategory(cats, id, p).value;
      UpdateCategory(m, id, p) == Ok((m, c))
  {
    var (m, c) := UpdateCategory(cats, id, p).value;
    assert m[id := c] == m;
  }
}
