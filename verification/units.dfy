/** The `/units` endpoints: units are the children of a course and the
    parents of videos. */
module Units {
  import opened Wrappers
  import opened Schemas
  import Siblings
  import Listing
  import Reorder
  import Tables

  type Table = map<Id, Unit>

  function CourseOf(u: Unit): int { u.courseId }
  function TitleOf(u: Unit): string { u.title }
  function OrderOf(u: Unit): int { u.order }
  function WithOrder(u: Unit, order: int): Unit { u.(order := order) }
  function VideoUnitOf(v: Video): int { v.unitId }
  function VideoOrderOf(v: Video): int { v.order }

  /** The units a listing with this `course_id` parameter selects. */
  predicate InFilter(u: Unit, courseId: Option<int>) {
    courseId.None? || courseId.value == 0 || u.courseId == courseId.value
  }

  /** `GET /units`: the units of `course_id` (all units when the parameter
      is absent or 0), by ascending `order`, then `skip`/`limit`. */
  function GetUnits(units: Table, skip: nat, limit: nat, courseId: Option<int>): (r: seq<Id>)
    ensures |r| <= limit
    ensures forall i :: 0 <= i < |r| ==> r[i] in units && InFilter(units[r[i]], courseId)
    ensures forall i, j :: 0 <= i < j < |r| ==> r[i] != r[j] && units[r[i]].order <= units[r[j]].order
    ensures skip == 0 && limit >= |units| ==>
              forall id :: id in units && InFilter(units[id], courseId) ==> id in r
    ensures var n := |Listing.Selected(units, CourseOf, courseId)|;
              |r| == if skip >= n then 0 else Listing.Min(limit, n - skip)
    ensures forall i :: 0 <= i < |r| ==> Listing.Before(units, CourseOf, OrderOf, courseId, r[i]) == skip + i
  {
    var sel := Listing.Selected(units, CourseOf, courseId);
    assert forall id :: id in sel <==> id in units && InFilter(units[id], courseId);
    Listing.SubsetCard(sel, units.Keys);
    Listing.ListPage(units, CourseOf, OrderOf, courseId, skip, limit)
  }

  /** `GET /units/{id}`. */
  function GetUnit(units: Table, id: Id): (r: Result<Unit>)
    ensures r.Err? <==> id !in units
    ensures r.Err? ==> r.error == NotFound
    ensures r.Ok? ==> r.value == units[id]
  {
    Tables.Get(units, id)
  }

  /** `GET /units/{id}/videos`: the unit and every video whose `unit_id` is
      this unit, by ascending `order`. */
  function GetUnitVideos(units: Table, videos: map<Id, Video>, id: Id): (r: Result<(Unit, seq<Id>)>)
    ensures r.Err? <==> id !in units
    ensures r.Err? ==> r.error == NotFound
    ensures r.Ok? ==> r.value.0 == units[id]
    ensures r.Ok? ==> forall v :: v in r.value.1 <==> v in videos && videos[v].unitId == id
    ensures r.Ok? ==> forall i, j :: 0 <= i < j < |r.value.1| ==>
              r.value.1[i] != r.value.1[j] && videos[r.value.1[i]].order <= videos[r.value.1[j]].order
  {
    if id !in units then Err(NotFound)
    else Ok((units[id], Listing.SortedChildren(videos, VideoUnitOf, VideoOrderOf, id)))
  }

  /** `POST /units`: 400 when the course already has a unit with this title;
      otherwise the unit is appended after its siblings. The `order` sent in
      the body is ignored. `id` is the key the database hands out. */
  function CreateUnit(units: Table, req: UnitCreate, id: Id): (r: Result<(Table, Unit)>)
    requires id !in units
    ensures r.Err? <==> Siblings.TitleTaken(units, CourseOf, TitleOf, req.courseId, req.title, None)
    ensures r.Err? ==> r.error == BadRequest
    ensures r.Ok? ==> r.value.0 == units[id := r.value.1]
    ensures r.Ok? ==> r.value.1.title == req.title && r.value.1.description == req.description
                      && r.value.1.courseId == req.courseId
    ensures r.Ok? ==> r.value.1.order == |Siblings.Children(units, CourseOf, req.courseId)| + 1
  {
    if Siblings.TitleTaken(units, CourseOf, TitleOf, req.courseId, req.title, None) then Err(BadRequest)
    else
      var u := Unit(req.title, req.description, req.courseId, Siblings.NextOrder(units, CourseOf, req.courseId));
      Ok((units[id := u], u))
  }

  /** The handler never looks the course up: a create naming a course
      that does not exist succeeds like any other. `courses` is the set of
      stored course ids. */
  lemma CreateUnitSkipsCourseCheck(courses: set<Id>, units: Table, req: UnitCreate, id: Id)
    requires id !in units && req.courseId !in courses
    requires !Siblings.TitleTaken(units, CourseOf, TitleOf, req.courseId, req.title, None)
    ensures CreateUnit(units, req, id).Ok?
    ensures CreateUnit(units, req, id).value.1.courseId !in courses
    ensures CreateUnitInCourse(courses, units, req, id) == Err(NotFound)
  {
  }

  /** `CreateUnit` with the course check its tests expect: 404 when the
      course does not exist, then the title check, then the insert. */
  function CreateUnitInCourse(courses: set<Id>, units: Table, req: UnitCreate, id: Id): (r: Result<(Table, Unit)>)
    requires id !in units
    ensures r == Err(NotFound) <==> req.courseId !in courses
    ensures r.Err? && r.error != NotFound <==>
              req.courseId in courses && Siblings.TitleTaken(units, CourseOf, TitleOf, req.courseId, req.title, None)
    ensures r.Ok? ==> r.value.1.courseId in courses && r.value.0 == units[id := r.value.1]
  {
    if req.courseId !in courses then Err(NotFound) else CreateUnit(units, req, id)
  }

  /** The unit after `setattr` of every field that was sent. */
  function Patched(u: Unit, p: UnitUpdate): Unit {
    Unit(p.title.Apply(u.title), p.description.Apply(u.description),
         p.courseId.Apply(u.courseId), p.order.Apply(u.order))
  }

  /** `PUT /units/{id}`: 404 for an unknown id, 400 when a new non-empty
      title is taken by another unit of the unit's current course, and
      otherwise a patch of exactly the fields that were sent. */
  function UpdateUnit(units: Table, id: Id, p: UnitUpdate): (r: Result<(Table, Unit)>)
    ensures id !in units ==> r == Err(NotFound)
    ensures id in units ==> (r.Err? <==> Siblings.RenameClash(units, CourseOf, TitleOf, id, p.title))
    ensures id in units && r.Err? ==> r.error == BadRequest
    ensures r.Ok? ==> id in units && r.value.0 == units[id := r.value.1]
    ensures r.Ok? ==> var (before, after) := (units[id], r.value.1);
              && (if p.title.Put? then after.title == p.title.value else after.title == before.title)
              && (if p.description.Put? then after.description == p.description.value
                  else after.description == before.description)
              && (if p.courseId.Put? then after.courseId == p.courseId.value else after.courseId == before.courseId)
              && (if p.order.Put? then after.order == p.order.value else after.order == before.order)
  {
    if id !in units then Err(NotFound)
    else if Siblings.RenameClash(units, CourseOf, TitleOf, id, p.title) then Err(BadRequest)
    else
      var u := Patched(units[id], p);
      Ok((units[id := u], u))
  }

  /** `DELETE /units/{id}`: 404 for an unknown id, otherwise exactly that
      unit is removed (cascades to its videos are the database's concern). */
  function DeleteUnit(units: Table, id: Id): (r: Result<Table>)
    ensures r.Err? <==> id !in units
    ensures r.Err? ==> r.error == NotFound
    ensures r.Ok? ==> r.value.Keys == units.Keys - {id}
    ensures r.Ok? ==> forall k :: k in r.value ==> r.value[k] == units[k]
  {
    match Tables.Remove(units, id)
    case Err(e) => Err(e)
    case Ok((m, _)) => Ok(m)
  }

  /** `POST /units/reorder`: all-or-nothing. The first item without both
      keys is a 400, the first unknown id a 404; on success each listed
      unit takes the order of the last item naming it and nothing else
      changes. */
  function ReorderUnits(units: Table, items: seq<Reorder.Item>): (r: Result<Table>)
    ensures r.Ok? <==> forall i :: 0 <= i < |items| ==> Reorder.Accepted(items[i], units.Keys)
    ensures r.Err? ==> Reorder.FirstProblem(items, units.Keys, r.error)
    ensures r.Ok? ==> r.value.Keys == units.Keys
    ensures r.Ok? ==> forall id :: id in units && !Reorder.Listed(items, id) ==> r.value[id] == units[id]
    ensures r.Ok? ==> forall i :: 0 <= i < |items| && Reorder.LastFor(items, i) ==>
              items[i].id.Some? && items[i].order.Some? && items[i].id.value in units &&
              r.value[items[i].id.value] == units[items[i].id.value].(order := items[i].order.value)
  {
    Reorder.PlanOkIff(items, units.Keys);
    Reorder.PlanErrorIsFirst(items, units.Keys);
    match Reorder.Plan(items, units.Keys)
    case Err(e) => Err(e)
    case Ok(plan) =>
      Reorder.PlanKeys(items, units.Keys);
      Reorder.PlanLastWins(items, units.Keys);
      Ok(Reorder.Apply(units, plan, WithOrder))
  }

  /** A freshly created unit's `order` is the number of units its course
      holds once it is stored, and sibling titles stay unique. */
  lemma CreateAppends(units: Table, req: UnitCreate, id: Id)
    requires id !in units && CreateUnit(units, req, id).Ok?
    requires Siblings.UniqueTitles(units, CourseOf, TitleOf)
    ensures var (m, u) := CreateUnit(units, req, id).value;
      && u.order == |Siblings.Children(m, CourseOf, req.courseId)|
      && Siblings.UniqueTitles(m, CourseOf, TitleOf)
  {
    var (m, u) := CreateUnit(units, req, id).value;
    Siblings.InsertAddsOneChild(units, CourseOf, id, u);
    Siblings.InsertKeepsUnique(units, CourseOf, TitleOf, id, u);
  }

  /** The `order` in a create body makes no difference to the stored unit. */
  lemma CreateIgnoresRequestOrder(units: Table, req: UnitCreate, id: Id, order: int)
    requires id !in units
    ensures CreateUnit(units, req, id) == CreateUnit(units, req.(order := order), id)
  {
  }

  /** Sending the same update twice leaves the table as the first one did. */
  lemma UpdateIdempotent(units: Table, id: Id, p: UnitUpdate)
    requires UpdateUnit(units, id, p).Ok?
    ensures var (m, u) := UpdateUnit(units, id, p).value;
      UpdateUnit(m, id, p) == Ok((m, u))
  {
    var (m, u) := UpdateUnit(units, id, p).value;
    assert m[id] == u;
    assert !Siblings.RenameClash(m, CourseOf, TitleOf, id, p.title);
    assert m[id := Patched(u, p)] == m;
  }

  /** An update that keeps the unit in its course and does not rename it to
      the empty string keeps titles unique within every course. */
  lemma UpdateKeepsUnique(units: Table, id: Id, p: UnitUpdate)
    requires Siblings.UniqueTitles(units, CourseOf, TitleOf)
    requires UpdateUnit(units, id, p).Ok?
    requires p.courseId.Keep? && p.title != Put([])
    ensures Siblings.UniqueTitles(UpdateUnit(units, id, p).value.0, CourseOf, TitleOf)
  {
    var u := UpdateUnit(units, id, p).value.1;
    if p.title.Put? && p.title.value != units[id].title {
      Siblings.ReplaceKeepsUnique(units, CourseOf, TitleOf, id, u);
    } else {
      assert u.title == units[id].title;
      Siblings.ReplaceKeepsUnique(units, CourseOf, TitleOf, id, u);
    }
  }

  /** The rename check looks only at the unit's current course, so moving a
      unit into a course that already has a unit of that title succeeds and
      leaves two units with one title in the target course. */
  lemma MoveCanDuplicateTitle()
    ensures var units := map[1 := Unit("Intro", None, 10, 1), 2 := Unit("Intro", None, 20, 1)];
      && Siblings.UniqueTitles(units, CourseOf, TitleOf)
      && UpdateUnit(units, 2, UnitUpdate(Keep, Keep, Put(10), Keep)).Ok?
      && !Siblings.UniqueTitles(UpdateUnit(units, 2, UnitUpdate(Keep, Keep, Put(10), Keep)).value.0,
                                CourseOf, TitleOf)
  {
    var units := map[1 := Unit("Intro", None, 10, 1), 2 := Unit("Intro", None, 20, 1)];
    assert !Siblings.RenameClash(units, CourseOf, TitleOf, 2, Keep);
    var m := UpdateUnit(units, 2, UnitUpdate(Keep, Keep, Put(10), Keep)).value.0;
    assert m[1].courseId == m[2].courseId && m[1].title == m[2].title;
  }

  /** An empty title is falsy in Python, so renaming to "" skips the check
      and two units of one course can both end up titled "". */
  lemma EmptyRenameSkipsCheck()
    ensures var units := map[1 := Unit("", None, 10, 1), 2 := Unit("B", None, 10, 2)];
      && Siblings.UniqueTitles(units, CourseOf, TitleOf)
      && UpdateUnit(units, 2, UnitUpdate(Put(""), Keep, Keep, Keep)).Ok?
      && !Siblings.UniqueTitles(UpdateUnit(units, 2, UnitUpdate(Put(""), Keep, Keep, Keep)).value.0,
                                CourseOf, TitleOf)
  {
    var units := map[1 := Unit("", None, 10, 1), 2 := Unit("B", None, 10, 2)];
    assert !Siblings.RenameClash(units, CourseOf, TitleOf, 2, Put(""));
    var m := UpdateUnit(units, 2, UnitUpdate(Put(""), Keep, Keep, Keep)).value.0;
    assert m[1].courseId == m[2].courseId && m[1].title == m[2].title;
  }
}
