/** The stored rows of the content hierarchy and the request bodies that
    create and patch them. Every field of an Update body is optional, so
    each is a `Patch`; nullable columns carry an `Option` inside the patch,
    because a client may explicitly send `null` for them. Server-assigned
    ids live in the table keys; timestamps are not modelled. */
module Schemas {
  import opened Wrappers

  datatype Category = Category(name: string, description: Option<string>)

  datatype CategoryCreate = CategoryCreate(name: string, description: Option<string>)

  datatype CategoryUpdate = CategoryUpdate(name: Patch<string>, description: Patch<Option<string>>)

  datatype Course = Course(title: string, description: Option<string>, categoryId: Id, order: int)

  /** `order` is part of the body (default 0) but the handler ignores it. */
  datatype CourseCreate = CourseCreate(title: string, description: Option<string>, categoryId: Id, order: int)

  datatype CourseUpdate = CourseUpdate(
    title: Patch<string>,
    description: Patch<Option<string>>,
    categoryId: Patch<Id>,
    order: Patch<int>)

  datatype Unit = Unit(title: string, description: Option<string>, courseId: Id, order: int)

  /** `order` is part of the body (default 0) but the handler ignores it. */
  datatype UnitCreate = UnitCreate(title: string, description: Option<string>, courseId: Id, order: int)

  datatype UnitUpdate = UnitUpdate(
    title: Patch<string>,
    description: Patch<Option<string>>,
    courseId: Patch<Id>,
    order: Patch<int>)

  /** A video's free-form `video_metadata` JSON object. */
  type Metadata = map<string, Value>

  datatype Video = Video(
    title: string,
    description: Option<string>,
    unitId: Id,
    url: string,
    order: int,
    metadata: Option<Metadata>,
    durationSeconds: Option<int>,
    thumbnailUrl: Option<string>)

  datatype VideoCreate = VideoCreate(
    title: string,
    description: Option<string>,
    unitId: Id,
    url: string,
    order: int,
    metadata: Option<Metadata>,
    durationSeconds: Option<int>,
    thumbnailUrl: Option<string>)

  datatype VideoUpdate = VideoUpdate(
    title: Patch<string>,
    description: Patch<Option<string>>,
    unitId: Patch<Id>,
    url: Patch<string>,
    order: Patch<int>,
    metadata: Patch<Option<Metadata>>,
    durationSeconds: Patch<Option<int>>,
    thumbnailUrl: Patch<Option<string>>)

  /** The body of a create request in which the client sent only the
      required fields: the schema fills in `description = None`,
      `order = 0` and, for a video, `video_metadata = None`. */
  function CourseCreateDefaults(title: string, categoryId: Id): CourseCreate {
    CourseCreate(title, None, categoryId, 0)
  }

  function UnitCreateDefaults(title: string, courseId: Id): UnitCreate {
    UnitCreate(title, None, courseId, 0)
  }

  function VideoCreateDefaults(title: string, unitId: Id, url: string): VideoCreate {
    VideoCreate(title, None, unitId, url, 0, None, None, None)
  }

  /** One row of `course_progress`, keyed by (user id, course id). */
  datatype CourseProgress = CourseProgress(completedUnits: int, totalUnits: int, percentage: real)

  /** One row of `video_progress`, keyed by (user id, video id). */
  datatype VideoProgress = VideoProgress(progress: real, lastPosition: real)

  /** The body of a video progress update: exactly these two numbers. */
  datatype VideoProgressUpdate = VideoProgressUpdate(progress: real, lastPosition: real)
}
