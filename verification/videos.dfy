/** The `/videos` endpoints: videos are the children of a unit. Besides the
    sibling rules shared with courses and units, an update merges the
    `video_metadata` object key by key, and each user has a progress row
    per video that records the player's position. */
module Videos {
  import opened Wrappers
  import opened Schemas
  import Siblings
  import Listing
  import Reorder
  import Tables

  type Table = map<Id, Video>

  /** `video_progress` rows keyed by (user id, video id). */
  type ProgressTable = map<(Id, Id), VideoProgress>

  function UnitOf(v: Video): int { v.unitId }
  function TitleOf(v: Video): string { v.title }
  function OrderOf(v: Video): int { v.order }
  function WithOrder(v: Video, order: int): Video { v.(order := order) }

  /** The videos a listing with this `unit_id` parameter selects. */
  predicate InFilter(v: Video, unitId: Option<int>) {
    unitId.None? || unitId.value == 0 || v.unitId == unitId.value
  }

  /** `GET /videos`: the videos of `unit_id` (all videos when the parameter
      is absent or 0), by ascending `order`, then `skip`/`limit`. */
  function GetVideos(videos: Table, skip: nat, limit: nat, unitId: Option<int>): (r: seq<Id>)
    ensures |r| <= limit
    ensures forall i :: 0 <= i < |r| ==> r[i] in videos && InFilter(videos[r[i]], unitId)
    ensures forall i, j :: 0 <= i < j < |r| ==> r[i] != r[j] && videos[r[i]].order <= videos[r[j]].order
    ensures skip == 0 && limit >= |videos| ==>
              forall id :: id in videos && InFilter(videos[id], unitId) ==> id in r
    ensures var n := |Listing.Selected(videos, UnitOf, unitId)|;
              |r| == if skip >= n then 0 else Listing.Min(limit, n - skip)
    ensures forall i :: 0 <= i < |r| ==> Listing.Before(videos, UnitOf, OrderOf, unitId, r[i]) == skip + i
  {
    var sel := Listing.Selected(videos, UnitOf, unitId);
    assert forall id :: id in sel <==> id in videos && InFilter(videos[id], unitId);
    Listing.SubsetCard(sel, videos.Keys);
    Listing.ListPage(videos, UnitOf, OrderOf, unitId, skip, limit)
  }

  /** `GET /videos/{id}` and `GET /videos/{id}/metadata`: both return the
      stored video or 404. */
  function GetVideo(videos: Table, id: Id): (r: Result<Video>)
    ensures r.Err? <==> id !in videos
    ensures r.Err? ==> r.error == NotFound
    ensures r.Ok? ==> r.value == videos[id]
  {
    Tables.Get(videos, id)
  }

  /** `POST /videos`: 400 when the unit already has a video with this title;
      otherwise the video is appended after its siblings with the metadata
      sent, or an empty object when none (or an empty one) was sent. The
      body's `order`, `duration_seconds` and `thumbnail_url` are not
      copied. */
  function CreateVideo(videos: Table, req: VideoCreate, id: Id): (r: Result<(Table, Video)>)
    requires id !in videos
    ensures r.Err? <==> Siblings.TitleTaken(videos, UnitOf, TitleOf, req.unitId, req.title, None)
    ensures r.Err? ==> r.error == BadRequest
    ensures r.Ok? ==> r.value.0 == videos[id := r.value.1]
    ensures r.Ok? ==> var v := r.value.1;
              && v.title == req.title && v.description == req.description
              && v.unitId == req.unitId && v.url == req.url
              && v.order == |Siblings.Children(videos, UnitOf, req.unitId)| + 1
              && v.metadata.Some?
              && (req.metadata.Some? ==> v.metadata.value == req.metadata.value)
              && (req.metadata.None? ==> v.metadata.value == map[])
              && v.durationSeconds.None? && v.thumbnailUrl.None?
  {
    if Siblings.TitleTaken(videos, UnitOf, TitleOf, req.unitId, req.title, None) then Err(BadRequest)
    else
      var v := Video(req.title, req.description, req.unitId, req.url,
                     Siblings.NextOrder(videos, UnitOf, req.unitId),
                     Some(req.metadata.GetOr(map[])), None, None);
      Ok((videos[id := v], v))
  }

  /** The handler never looks the unit up: a create naming an unit
      that does not exist succeeds like any other. `units` is the set of
      stored unit ids. */
  lemma CreateVideoSkipsUnitCheck(units: set<Id>, videos: Table, req: VideoCreate, id: Id)
    requires id !in videos && req.unitId !in units
    requires !Siblings.TitleTaken(videos, UnitOf, TitleOf, req.unitId, req.title, None)
    ensures CreateVideo(videos, req, id).Ok?
    ensures CreateVideo(videos, req, id).value.1.unitId !in units
    ensures CreateVideoInUnit(units, videos, req, id) == Err(NotFound)
  {
  }

  /** `CreateVideo` with the unit check its tests expect: 404 when the
      unit does not exist, then the title check, then the insert. */
  function CreateVideoInUnit(units: set<Id>, videos: Table, req: VideoCreate, id: Id): (r: Result<(Table, Video)>)
    requires id !in videos
    ensures r == Err(NotFound) <==> req.unitId !in units
    ensures r.Err? && r.error != NotFound <==>
              req.unitId in units && Siblings.TitleTaken(videos, UnitOf, TitleOf, req.unitId, req.title, None)
    ensures r.Ok? ==> r.value.1.unitId in units && r.value.0 == videos[id := r.value.1]
  {
    if req.unitId !in units then Err(NotFound) else CreateVideo(videos, req, id)
  }

  /** `dict.update`: the stored object (an empty one when the column is
      null) with every key of `patch` set to the patch's value. */
  function MergeMetadata(stored: Option<Metadata>, patch: Metadata): (m: Metadata)
    ensures m.Keys == stored.GetOr(map[]).Keys + patch.Keys
    ensures forall k :: k in patch ==> m[k] == patch[k]
    ensures forall k :: k in m && k !in patch ==> stored.Some? && m[k] == stored.value[k]
  {
    stored.GetOr(map[]) + patch
  }

  /** The video after the update: metadata merged when it was sent, every
      other field set when it was sent. */
  function Patched(v: Video, p: VideoUpdate, patch: Option<Metadata>): Video {
    Video(p.title.Apply(v.title), p.description.Apply(v.description), p.unitId.Apply(v.unitId),
          p.url.Apply(v.url), p.order.Apply(v.order),
          if patch.Some? then Some(MergeMetadata(v.metadata, patch.value)) else v.metadata,
          p.durationSeconds.Apply(v.durationSeconds), p.thumbnailUrl.Apply(v.thumbnailUrl))
  }

  /** `PUT /videos/{id}`: 404 for an unknown id; 400 when a new non-empty
      title is taken by another video of the video's current unit; a
      `video_metadata` sent as null makes `dict.update(None)` raise, which
      the server reports as a 500; otherwise a patch of the fields sent,
      with the metadata merged into the stored one. */
  function UpdateVideo(videos: Table, id: Id, p: VideoUpdate): (r: Result<(Table, Video)>)
    ensures id !in videos ==> r == Err(NotFound)
    ensures id in videos && Siblings.RenameClash(videos, UnitOf, TitleOf, id, p.title) ==> r == Err(BadRequest)
    ensures id in videos && !Siblings.RenameClash(videos, UnitOf, TitleOf, id, p.title) ==>
              (r.Err? <==> p.metadata == Put(None)) && (r.Err? ==> r.error == ServerError)
    ensures r.Ok? ==> id in videos && r.value.0 == videos[id := r.value.1]
    ensures r.Ok? ==> var (before, after) := (videos[id], r.value.1);
              && (if p.title.Put? then after.title == p.title.value else after.title == before.title)
              && (if p.description.Put? then after.description == p.description.value
                  else after.description == before.description)
              && (if p.unitId.Put? then after.unitId == p.unitId.value else after.unitId == before.unitId)
              && (if p.url.Put? then after.url == p.url.value else after.url == before.url)
              && (if p.order.Put? then after.order == p.order.value else after.order == before.order)
              && (if p.durationSeconds.Put? then after.durationSeconds == p.durationSeconds.value
                  else after.durationSeconds == before.durationSeconds)
              && (if p.thumbnailUrl.Put? then after.thumbnailUrl == p.thumbnailUrl.value
                  else after.thumbnailUrl == before.thumbnailUrl)
              && (p.metadata.Keep? ==> after.metadata == before.metadata)
              && (p.metadata.Put? ==> after.metadata == Some(MergeMetadata(before.metadata, p.metadata.value.value)))
  {
    if id !in videos then Err(NotFound)
    else if Siblings.RenameClash(videos, UnitOf, TitleOf, id, p.title) then Err(BadRequest)
    else if p.metadata == Put(None) then Err(ServerError)
    else
      var patch := if p.metadata.Put? then p.metadata.value else None;
      var v := Patched(videos[id], p, patch);
      Ok((videos[id := v], v))
  }

  /** `DELETE /videos/{id}`: 404 for an unknown id, otherwise exactly that
      video is removed. */
  function DeleteVideo(videos: Table, id: Id): (r: Result<Table>)
    ensures r.Err? <==> id !in videos
    ensures r.Err? ==> r.error == NotFound
    ensures r.Ok? ==> r.value.Keys == videos.Keys - {id}
    ensures r.Ok? ==> forall k :: k in r.value ==> r.value[k] == videos[k]
  {
    match Tables.Remove(videos, id)
    case Err(e) => Err(e)
    case Ok((m, _)) => Ok(m)
  }

  /** `POST /videos/reorder`: all-or-nothing. The first item without both
      keys is a 400, the first unknown id a 404; on success each listed
      video takes the order of the last item naming it and nothing else
      changes. */
  function ReorderVideos(videos: Table, items: seq<Reorder.Item>): (r: Result<Table>)
    ensures r.Ok? <==> forall i :: 0 <= i < |items| ==> Reorder.Accepted(items[i], videos.Keys)
    ensures r.Err? ==> Reorder.FirstProblem(items, videos.Keys, r.error)
    ensures r.Ok? ==> r.value.Keys == videos.Keys
    ensures r.Ok? ==> forall id :: id in videos && !Reorder.Listed(items, id) ==> r.value[id] == videos[id]
    ensures r.Ok? ==> forall i :: 0 <= i < |items| && Reorder.LastFor(items, i) ==>
              items[i].id.Some? && items[i].order.Some? && items[i].id.value in videos &&
              r.value[items[i].id.value] == videos[items[i].id.value].(order := items[i].order.value)
  {
    Reorder.PlanOkIff(items, videos.Keys);
    Reorder.PlanErrorIsFirst(items, videos.Keys);
    match Reorder.Plan(items, videos.Keys)
    case Err(e) => Err(e)
    case Ok(plan) =>
      Reorder.PlanKeys(items, videos.Keys);
      Reorder.PlanLastWins(items, videos.Keys);
      Ok(Reorder.Apply(videos, plan, WithOrder))
  }

  /** A progress row as the database creates it: nothing watched. */
  const FreshProgress: VideoProgress := VideoProgress(0.0, 0.0)

  /** `GET /videos/{id}/progress` for user `userId`: the stored row, or a
      fresh one inserted on first read. The video id is not checked. */
  function GetVideoProgress(progress: ProgressTable, userId: Id, videoId: Id): (r: (ProgressTable, VideoProgress))
    ensures (userId, videoId) in progress ==> r == (progress, progress[(userId, videoId)])
    ensures (userId, videoId) !in progress ==>
              r.1 == VideoProgress(0.0, 0.0) && r.0 == progress[(userId, videoId) := r.1]
  {
    if (userId, videoId) in progress then (progress, progress[(userId, videoId)])
    else (progress[(userId, videoId) := FreshProgress], FreshProgress)
  }

  /** `PUT /videos/{id}/progress` for user `userId`: the row (created when
      missing) takes the two values sent, as sent. No other row changes. */
  function UpdateVideoProgress(progress: ProgressTable, userId: Id, videoId: Id, req: VideoProgressUpdate)
    : (r: (ProgressTable, VideoProgress))
    ensures r.1.progress == req.progress && r.1.lastPosition == req.lastPosition
    ensures r.0.Keys == progress.Keys + {(userId, videoId)}
    ensures r.0[(userId, videoId)] == r.1
    ensures forall k :: k in progress && k != (userId, videoId) ==> r.0[k] == progress[k]
  {
    var row := VideoProgress(req.progress, req.lastPosition);
    (progress[(userId, videoId) := row], row)
  }

  /** What a user writes is what a later read returns, for any user and
      video, including on the first write. */
  lemma ProgressRoundTrip(progress: ProgressTable, userId: Id, videoId: Id, req: VideoProgressUpdate)
    ensures var (p, _) := UpdateVideoProgress(progress, userId, videoId, req);
      GetVideoProgress(p, userId, videoId) == (p, VideoProgress(req.progress, req.lastPosition))
  {
  }

  /** Reading progress is idempotent: once the row exists a second read
      returns it and changes nothing. */
  lemma GetProgressIdempotent(progress: ProgressTable, userId: Id, videoId: Id)
    ensures var (p, row) := GetVideoProgress(progress, userId, videoId);
      GetVideoProgress(p, userId, videoId) == (p, row)
  {
  }

  /** Merging never drops a stored key, and merging the same patch again
      changes nothing. */
  lemma MergeKeepsAndSettles(stored: Option<Metadata>, patch: Metadata)
    ensures stored.Some? ==> stored.value.Keys <= MergeMetadata(stored, patch).Keys
    ensures MergeMetadata(Some(MergeMetadata(stored, patch)), patch) == MergeMetadata(stored, patch)
  {
    var m := MergeMetadata(stored, patch);
    var m2 := MergeMetadata(Some(m), patch);
    assert m2.Keys == m.Keys;
    assert forall k :: k in m2 ==> m2[k] == m[k];
  }

  /** A freshly created video's `order` is the number of videos its unit
      holds once it is stored, and sibling titles stay unique. */
  lemma CreateAppends(videos: Table, req: VideoCreate, id: Id)
    requires id !in videos && CreateVideo(videos, req, id).Ok?
    requires Siblings.UniqueTitles(videos, UnitOf, TitleOf)
    ensures var (m, v) := CreateVideo(videos, req, id).value;
      && v.order == |Siblings.Children(m, UnitOf, req.unitId)|
      && Siblings.UniqueTitles(m, UnitOf, TitleOf)
  {
    var (m, v) := CreateVideo(videos, req, id).value;
    Siblings.InsertAddsOneChild(videos, UnitOf, id, v);
    Siblings.InsertKeepsUnique(videos, UnitOf, TitleOf, id, v);
  }

  /** Sending the same update twice leaves the table as the first one did:
      the second metadata merge rewrites the keys the first one wrote. */
  lemma UpdateIdempotent(videos: Table, id: Id, p: VideoUpdate)
    requires UpdateVideo(videos, id, p).Ok?
    ensures var (m, v) := UpdateVideo(videos, id, p).value;
      UpdateVideo(m, id, p) == Ok((m, v))
  {
    var (m, v) := UpdateVideo(videos, id, p).value;
    assert m[id] == v;
    assert !Siblings.RenameClash(m, UnitOf, TitleOf, id, p.title);
    if p.metadata.Put? {
      MergeKeepsAndSettles(videos[id].metadata, p.metadata.value.value);
    }
    var patch := if p.metadata.Put? then p.metadata.value else None;
    assert Patched(v, p, patch) == v;
    assert m[id := v] == m;
  }

  /** An update that keeps the video in its unit and does not rename it to
      the empty string keeps titles unique within every unit. */
  lemma UpdateKeepsUnique(videos: Table, id: Id, p: VideoUpdate)
    requires Siblings.UniqueTitles(videos, UnitOf, TitleOf)
    requires UpdateVideo(videos, id, p).Ok?
    requires p.unitId.Keep? && p.title != Put([])
    ensures Siblings.UniqueTitles(UpdateVideo(videos, id, p).value.0, UnitOf, TitleOf)
  {
    var v := UpdateVideo(videos, id, p).value.1;
    if !(p.title.Put? && p.title.value != videos[id].title) {
      assert v.title == videos[id].title;
    }
    Siblings.ReplaceKeepsUnique(videos, UnitOf, TitleOf, id, v);
  }

  /** An explicit `null` for `video_metadata` is an error even when the
      stored metadata is null too, and nothing is written. */
  lemma NullMetadataFails()
    ensures var videos := map[1 := Video("A", None, 5, "u", 1, None, None, None)];
      UpdateVideo(videos, 1, VideoUpdate(Keep, Keep, Keep, Keep, Keep, Put(None), Keep, Keep)) == Err(ServerError)
  {
    var videos := map[1 := Video("A", None, 5, "u", 1, None, None, None)];
    assert !Siblings.RenameClash(videos, UnitOf, TitleOf, 1, Keep);
  }

  /** A create body with only the required fields (so `video_metadata`
      defaults to null) stores an empty metadata object, no description,
      and the next order of the unit. */
  lemma CreateFromMinimalBody(videos: Table, title: string, unitId: Id, url: string, id: Id)
    requires id !in videos
    requires !Siblings.TitleTaken(videos, UnitOf, TitleOf, unitId, title, None)
    ensures var r := CreateVideo(videos, VideoCreateDefaults(title, unitId, url), id);
      && r.Ok? && r.value.1.metadata == Some(map[]) && r.value.1.description.None?
      && r.value.1.order == |Siblings.Children(videos, UnitOf, unitId)| + 1
  {
  }
}
