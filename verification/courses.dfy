/** The `/courses` endpoints: courses are the children of a category and the
    parents of units, plus each user's progress row for a course. */
module Courses {
  import opened Wrappers
  import opened Schemas
  import Siblings
  import Listing
  import Tables
  import Units
  import Percent

  type Table = map<Id, Course>

  /** `course_progress` rows keyed by (user id, course id). */
  type ProgressTable = map<(Id, Id), CourseProgress>

  function CategoryOf(c: Course): int { c.categoryId }
  function TitleOf(c: Course): string { c.title }
  function OrderOf(c: Course): int { c.order }

  /** The courses a listing with this `category_id` parameter selects. */
  predicate InFilter(c: Course, categoryId: Option<int>) {
    categoryId.None? || categoryId.value == 0 || c.categoryId == categoryId.value
  }

  /** `GET /courses`: the courses of `category_id` (all courses when the
      parameter is absent or 0), by ascending `order`, then `skip`/`limit`. */
  function GetCourses(courses: Table, skip: nat, limit: nat, categoryId: Option<int>): (r: seq<Id>)
    ensures |r| <= limit
    ensures forall i :: 0 <= i < |r| ==> r[i] in courses && InFilter(courses[r[i]], categoryId)
    ensures forall i, j :: 0 <= i < j < |r| ==> r[i] != r[j] && courses[r[i]].order <= courses[r[j]].order
    ensures skip == 0 && limit >= |courses| ==>
              forall id :: id in courses && InFilter(courses[id], categoryId) ==> id in r
    ensures var n := |Listing.Selected(courses, CategoryOf, categoryId)|;
              |r| == if skip >= n then 0 else Listing.Min(limit, n - skip)
    ensures forall i :: 0 <= i < |r| ==> Listing.Before(courses, CategoryOf, OrderOf, categoryId, r[i]) == skip + i
  {
    var sel := Listing.Selected(courses, CategoryOf, categoryId);
    assert forall id :: id in sel <==> id in courses && InFilter(courses[id], categoryId);
    Listing.SubsetCard(sel, courses.Keys);
    Listing.ListPage(courses, CategoryOf, OrderOf, categoryId, skip, limit)
  }

  /** `GET /courses/{id}`. */
  function GetCourse(courses: Table, id: Id): (r: Result<Course>)
    ensures r.Err? <==> id !in courses
    ensures r.Err? ==> r.error == NotFound
    ensures r.Ok? ==> r.value == courses[id]
  {
    Tables.Get(courses, id)
  }

  /** `GET /courses/{id}/units`: the course and every unit whose `course_id`
      is this course, by ascending `order`. */
  function GetCourseUnits(courses: Table, units: Units.Table, id: Id): (r: Result<(Course, seq<Id>)>)
    ensures r.Err? <==> id !in courses
    ensures r.Err? ==> r.error == NotFound
    ensures r.Ok? ==> r.value.0 == courses[id]
    ensures r.Ok? ==> forall u :: u in r.value.1 <==> u in units && units[u].courseId == id
    ensures r.Ok? ==> forall i, j :: 0 <= i < j < |r.value.1| ==>
              r.value.1[i] != r.value.1[j] && units[r.value.1[i]].order <= units[r.value.1[j]].order
  {
    if id !in courses then Err(NotFound)
    else Ok((courses[id], Listing.SortedChildren(units, Units.CourseOf, Units.OrderOf, id)))
  }

  /** `POST /courses`: 400 when the category already has a course with this
      title; otherwise the course is appended after its siblings. The
      `order` sent in the body is ignored. `id` is the key the database
      hands out. */
  function CreateCourse(courses: Table, req: CourseCreate, id: Id): (r: Result<(Table, Course)>)
    requires id !in courses
    ensures r.Err? <==> Siblings.TitleTaken(courses, CategoryOf, TitleOf, req.categoryId, req.title, None)
    ensures r.Err? ==> r.error == BadRequest
    ensures r.Ok? ==> r.value.0 == courses[id := r.value.1]
    ensures r.Ok? ==> r.value.1.title == req.title && r.value.1.description == req.description
                      && r.value.1.categoryId == req.categoryId
    ensures r.Ok? ==> r.value.1.order == |Siblings.Children(courses, CategoryOf, req.categoryId)| + 1
  {
    if Siblings.TitleTaken(courses, CategoryOf, TitleOf, req.categoryId, req.title, None) then Err(BadRequest)
    else
      var c := Course(req.title, req.description, req.categoryId,
                      Siblings.NextOrder(courses, CategoryOf, req.categoryId));
      Ok((courses[id := c], c))
  }

  /** The handler never looks the category up: a create naming a category
      that does not exist succeeds like any other. `categories` is the set of
      stored category ids. */
  lemma CreateCourseSkipsCategoryCheck(categories: set<Id>, courses: Table, req: CourseCreate, id: Id)
    requires id !in courses && req.categoryId !in categories
    requires !Siblings.TitleTaken(courses, CategoryOf, TitleOf, req.categoryId, req.title, None)
    ensures CreateCourse(courses, req, id).Ok?
    ensures CreateCourse(courses, req, id).value.1.categoryId !in categories
    ensures CreateCourseInCategory(categories, courses, req, id) == Err(NotFound)
  {
  }

  /** `CreateCourse` with the category check its tests expect: 404 when the
      category does not exist, then the title check, then the insert. */
  function CreateCourseInCategory(categories: set<Id>, courses: Table, req: CourseCreate, id: Id): (r: Result<(Table, Course)>)
    requires id !in courses
    ensures r == Err(NotFound) <==> req.categoryId !in categories
    ensures r.Err? && r.error != NotFound <==>
              req.categoryId in categories && Siblings.TitleTaken(courses, CategoryOf, TitleOf, req.categoryId, req.title, None)
    ensures r.Ok? ==> r.value.1.categoryId in categories && r.value.0 == courses[id := r.value.1]
  {
    if req.categoryId !in categories then Err(NotFound) else CreateCourse(courses, req, id)
  }

  /** The course after `setattr` of every field that was sent. */
  function Patched(c: Course, p: CourseUpdate): Course {
    Course(p.title.Apply(c.title), p.description.Apply(c.description),
           p.categoryId.Apply(c.categoryId), p.order.Apply(c.order))
  }

  /** `PUT /courses/{id}`: 404 for an unknown id, 400 when a new non-empty
      title is taken by another course of the course's current category, and
      otherwise a patch of exactly the fields that were sent. */
  function UpdateCourse(courses: Table, id: Id, p: CourseUpdate): (r: Result<(Table, Course)>)
    ensures id !in courses ==> r == Err(NotFound)
    ensures id in courses ==> (r.Err? <==> Siblings.RenameClash(courses, CategoryOf, TitleOf, id, p.title))
    ensures id in courses && r.Err? ==> r.error == BadRequest
    ensures r.Ok? ==> id in courses && r.value.0 == courses[id := r.value.1]
    ensures r.Ok? ==> var (before, after) := (courses[id], r.value.1);
              && (if p.title.Put? then after.title == p.title.value else after.title == before.title)
              && (if p.description.Put? then after.description == p.description.value
                  else after.description == before.description)
              && (if p.categoryId.Put? then after.categoryId == p.categoryId.value
                  else after.categoryId == before.categoryId)
              && (if p.order.Put? then after.order == p.order.value else after.order == before.order)
  {
    if id !in courses then Err(NotFound)
    else if Siblings.RenameClash(courses, CategoryOf, TitleOf, id, p.title) then Err(BadRequest)
    else
      var c := Patched(courses[id], p);
      Ok((courses[id := c], c))
  }

  /** `DELETE /courses/{id}`: 404 for an unknown id, otherwise exactly that
      course is removed. */
  function DeleteCourse(courses: Table, id: Id): (r: Result<Table>)
    ensures r.Err? <==> id !in courses
    ensures r.Err? ==> r.error == NotFound
    ensures r.Ok? ==> r.value.Keys == courses.Keys - {id}
    ensures r.Ok? ==> forall k :: k in r.value ==> r.value[k] == courses[k]
  {
    match Tables.Remove(courses, id)
    case Err(e) => Err(e)
    case Ok((m, _)) => Ok(m)
  }

  /** The number of units the course holds: `len(course.units)`. */
  function UnitCount(units: Units.Table, courseId: Id): (n: nat)
    ensures n == |Siblings.Children(units, Units.CourseOf, courseId)|
  {
    |Siblings.Children(units, Units.CourseOf, courseId)|
  }

  /** `GET /courses/{id}/progress` for user `userId`: an existing row is
      returned as stored; otherwise, for an existing course, a row with
      nothing completed and the course's current unit count is inserted. */
  function GetCourseProgress(progress: ProgressTable, courses: Table, units: Units.Table,
                             userId: Id, courseId: Id): (r: Result<(ProgressTable, CourseProgress)>)
    ensures (userId, courseId) in progress ==> r == Ok((progress, progress[(userId, courseId)]))
    ensures (userId, courseId) !in progress && courseId !in courses ==> r == Err(NotFound)
    ensures (userId, courseId) !in progress && courseId in courses ==>
              && r.Ok?
              && r.value.0 == progress[(userId, courseId) := r.value.1]
              && r.value.1.completedUnits == 0 && r.value.1.percentage == 0.0
              && r.value.1.totalUnits == |Siblings.Children(units, Units.CourseOf, courseId)|
  {
    if (userId, courseId) in progress then Ok((progress, progress[(userId, courseId)]))
    else if courseId !in courses then Err(NotFound)
    else
      var row := CourseProgress(0, UnitCount(units, courseId), 0.0);
      Ok((progress[(userId, courseId) := row], row))
  }

  /** `PUT /courses/{id}/progress`: 404 when the user has no row for the
      course; a row with `total_units == 0` makes the division raise, which
      the server reports as a 500; otherwise the completed count and the
      percentage are overwritten and the total is kept. */
  function UpdateCourseProgress(progress: ProgressTable, userId: Id, courseId: Id, completed: int)
    : (r: Result<(ProgressTable, CourseProgress)>)
    ensures (userId, courseId) !in progress ==> r == Err(NotFound)
    ensures (userId, courseId) in progress ==>
              (r.Err? <==> progress[(userId, courseId)].totalUnits == 0)
    ensures (userId, courseId) in progress && r.Err? ==> r.error == ServerError
    ensures r.Ok? ==> var (before, after) := (progress[(userId, courseId)], r.value.1);
              && r.value.0 == progress[(userId, courseId) := after]
              && after.completedUnits == completed
              && after.totalUnits == before.totalUnits
              && after.percentage * (before.totalUnits as real) == (completed as real) * 100.0
  {
    if (userId, courseId) !in progress then Err(NotFound)
    else
      var row := progress[(userId, courseId)];
      if row.totalUnits == 0 then Err(ServerError)
      else
        var row' := row.(completedUnits := completed, percentage := Percent.Of(completed, row.totalUnits));
        Ok((progress[(userId, courseId) := row'], row'))
  }

  /** Reporting every unit complete gives exactly 100 percent. */
  lemma AllCompleteIsHundred(progress: ProgressTable, userId: Id, courseId: Id)
    requires (userId, courseId) in progress && progress[(userId, courseId)].totalUnits != 0
    ensures var r := UpdateCourseProgress(progress, userId, courseId, progress[(userId, courseId)].totalUnits);
      r.Ok? && r.value.1.percentage == 100.0
  {
    var t := progress[(userId, courseId)].totalUnits as real;
    var p := UpdateCourseProgress(progress, userId, courseId, progress[(userId, courseId)].totalUnits).value.1.percentage;
    assert p * t == t * 100.0;
  }

  /** The percentage grows with the completed count, so any count between 0
      and a positive total gives a percentage between 0 and 100. */
  lemma PercentInRange(progress: ProgressTable, userId: Id, courseId: Id, completed: int)
    requires (userId, courseId) in progress && progress[(userId, courseId)].totalUnits > 0
    requires 0 <= completed <= progress[(userId, courseId)].totalUnits
    ensures var r := UpdateCourseProgress(progress, userId, courseId, completed);
      r.Ok? && 0.0 <= r.value.1.percentage <= 100.0
  {
    var t := progress[(userId, courseId)].totalUnits as real;
    var p := UpdateCourseProgress(progress, userId, courseId, completed).value.1.percentage;
    assert p * t == (completed as real) * 100.0;
  }

  /** Nothing clamps the completed count, so a count above the total gives a
      percentage above 100. */
  lemma PercentCanExceedHundred()
    ensures var progress := map[(1, 7) := CourseProgress(0, 2, 0.0)];
      var r := UpdateCourseProgress(progress, 1, 7, 3);
      r.Ok? && r.value.1.percentage == 150.0
  {
    var progress := map[(1, 7) := CourseProgress(0, 2, 0.0)];
    var p := UpdateCourseProgress(progress, 1, 7, 3).value.1.percentage;
    assert p * 2.0 == 300.0;
  }

  /** Reading progress is idempotent: once the row exists a second read
      returns it and changes nothing. */
  lemma GetProgressIdempotent(progress: ProgressTable, courses: Table, units: Units.Table, userId: Id, courseId: Id)
    requires GetCourseProgress(progress, courses, units, userId, courseId).Ok?
    ensures var (p, row) := GetCourseProgress(progress, courses, units, userId, courseId).value;
      GetCourseProgress(p, courses, units, userId, courseId) == Ok((p, row))
  {
  }

  /** A course without units gets a progress row with total 0 on first
      read, and every later update of that row fails. */
  lemma EmptyCourseUpdateFails(progress: ProgressTable, courses: Table, units: Units.Table,
                               userId: Id, courseId: Id, completed: int)
    requires (userId, courseId) !in progress && courseId in courses
    requires forall u :: u in units ==> units[u].courseId != courseId
    ensures var r := GetCourseProgress(progress, courses, units, userId, courseId);
      && r.Ok? && r.value.1.totalUnits == 0
      && UpdateCourseProgress(r.value.0, userId, courseId, completed) == Err(ServerError)
  {
    var c := Siblings.Children(units, Units.CourseOf, courseId);
    assert forall u :: u !in c;
    assert c == {};
  }

  /** A freshly created course's `order` is the number of courses its
      category holds once it is stored, and sibling titles stay unique. */
  lemma CreateAppends(courses: Table, req: CourseCreate, id: Id)
    requires id !in courses && CreateCourse(courses, req, id).Ok?
    requires Siblings.UniqueTitles(courses, CategoryOf, TitleOf)
    ensures var (m, c) := CreateCourse(courses, req, id).value;
      && c.order == |Siblings.Children(m, CategoryOf, req.categoryId)|
      && Siblings.UniqueTitles(m, CategoryOf, TitleOf)
  {
    var (m, c) := CreateCourse(courses, req, id).value;
    Siblings.InsertAddsOneChild(courses, CategoryOf, id, c);
    Siblings.InsertKeepsUnique(courses, CategoryOf, TitleOf, id, c);
  }

  /** Sending the same update twice leaves the table as the first one did. */
  lemma UpdateIdempotent(courses: Table, id: Id, p: CourseUpdate)
    requires UpdateCourse(courses, id, p).Ok?
    ensures var (m, c) := UpdateCourse(courses, id, p).value;
      UpdateCourse(m, id, p) == Ok((m, c))
  {
    var (m, c) := UpdateCourse(courses, id, p).value;
    assert m[id] == c;
    assert !Siblings.RenameClash(m, CategoryOf, TitleOf, id, p.title);
    assert m[id := Patched(c, p)] == m;
  }

  /** An update that keeps the course in its category and does not rename
      it to the empty string keeps titles unique within every category. */
  lemma UpdateKeepsUnique(courses: Table, id: Id, p: CourseUpdate)
    requires Siblings.UniqueTitles(courses, CategoryOf, TitleOf)
    requires UpdateCourse(courses, id, p).Ok?
    requires p.categoryId.Keep? && p.title != Put([])
    ensures Siblings.UniqueTitles(UpdateCourse(courses, id, p).value.0, CategoryOf, TitleOf)
  {
    var c := UpdateCourse(courses, id, p).value.1;
    if !(p.title.Put? && p.title.value != courses[id].title) {
      assert c.title == courses[id].title;
    }
    Siblings.ReplaceKeepsUnique(courses, CategoryOf, TitleOf, id, c);
  }
}
