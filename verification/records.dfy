/**
 * The rows the activity feed reads: activities, watcher subscriptions, the
 * requesting user and the resolved current project, plus the API error value
 * the controller renders.
 */
module Records {
  import opened Wrappers

  /** One row of the `activities` table. The comment target is a nullable
      polymorphic reference, so its type and id are each optional. */
  datatype Activity = Activity(
    id: int,
    projectId: int,
    userId: int,
    targetType: string,
    targetId: int,
    commentTargetType: Option<string>,
    commentTargetId: Option<int>,
    isPrivate: bool
  )

  /** One row of the `watchers` table: `userId` watches the entity (watchableType, watchableId). */
  datatype Watcher = Watcher(watchableType: string, watchableId: int, userId: int)

  /** The authenticated user, with the ids of the projects they belong to. */
  datatype User = User(id: int, projectIds: set<int>)

  /** The project resolved from the `project_id` request parameter. */
  datatype Project = Project(id: int)

  /** The read-only data store a request sees. Sequence order is storage order. */
  datatype Db = Db(activities: seq<Activity>, watchers: seq<Watcher>)

  /** HTTP status symbols used by `api_error`. */
  datatype Status = NotFound

  /** An error body: status, machine-readable type tag and message. */
  datatype ApiError = ApiError(status: Status, kind: string, message: string)

  const ObjectNotFound: string := "ObjectNotFound"

  /** The error `get_target` renders when `project_id` names no project. */
  const TargetNotFound: ApiError := ApiError(NotFound, ObjectNotFound, "Target not found")

  /** The error `show` renders when no activity is found. */
  const ActivityNotFound: ApiError := ApiError(NotFound, ObjectNotFound, "Not found")

  /** `id` is the primary key of `activities`: no two rows share it. */
  predicate UniqueIds(table: seq<Activity>)
  {
    forall i, j :: 0 <= i < |table| && 0 <= j < |table| && table[i].id == table[j].id ==> i == j
  }
}
