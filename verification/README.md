# Activity feed of the v1 API — a Dafny model

This project models the read-only activity feed of `ApiV1::ActivitiesController`:

- the `get_target` before-filter;
- the `index` query. It builds the `api_scope` conditions from optional request parameters and keeps the rows that pass the conditions, the id range and the privacy predicate over `LEFT JOIN watchers`. It then orders them by activity id, descending, and applies the limit;
- the `show` lookup, restricted to the user's projects.

Everything is a pure function over an in-memory store:

- `Db` holds a sequence of `Activity` rows and a sequence of `Watcher` rows.
- The join is modelled literally. `LeftJoin` pairs each activity with every watcher of its comment target, or with no watcher when there is none.
- The query filters those rows, projects them to their activities, sorts them and takes a prefix.
- There is no DISTINCT. An activity is listed once per joined row that passes, and `Duplicates.CandidateMultiplicity` says exactly how often.

Modules:

| module | file | concerns |
|---|---|---|
| `Wrappers` | wrappers.dfy | `Option`, `Result`, `Outcome` |
| `Records` | records.dfy | activity, watcher, user, project, store, API errors |
| `Scope` | scope.dfy | `api_scope` conditions |
| `Join` | join.dfy | the watcher left join and the privacy predicate |
| `Ordering` | ordering.dfy | descending sort, limit, and the first-page property |
| `ActivitiesController` | activities_controller.dfy | `get_target`, `index`, `show` |
| `FeedProperties` | feed_properties.dfy | what `index` and `show` promise |
| `Pagination` | pagination.dfy | range stability and single-project narrowing |
| `Duplicates` | duplicates.dfy | how often the join lists an activity |

Parameters and abstractions:

- `api_range('activities')` is defined in the parent controller. Here it is a caller-supplied predicate `range: int -> bool` on activity ids.
- `api_limit` is also defined in the parent controller. Here it is a natural number `limit`.
- `@current_project` is resolved by the parent controller from the `project_id` parameter. It enters as `current: Option<Project>`.
- `current_user` enters as a `User` with its `project_ids`.
- Request parameters are typed like the columns they are compared with: integers for ids, strings for types.
- The comment-target columns may be NULL, so they are `Option`. SQL equality with NULL is never true: a NULL comment target joins no watcher and matches no filter.

## Model

| member | source | states |
|---|---|---|
| Scope.ApiScope | app/controllers/api_v1/activities_controller.rb:31-42 | The project condition is always present. It names the current project when one is set, otherwise every project of the user. An activity satisfies the conditions iff it is in those projects and equals each given filter parameter; an absent parameter constrains nothing |
| Join.LeftJoin | app/controllers/api_v1/activities_controller.rb:11 | A row is in the join iff its activity is stored and either its watcher is a stored watcher of the activity's comment target (type and id), or it has no watcher and no stored watcher matches |
| ActivitiesController.FilterRows | app/controllers/api_v1/activities_controller.rb:8-10 | Keeps exactly the joined rows that satisfy the conditions, lie in the id range and pass `is_private = false OR (is_private = true AND watchers.user_id = me)` |
| ActivitiesController.CandidateMembership | app/controllers/api_v1/activities_controller.rb:8-11 | An activity is a candidate iff it is stored, satisfies the conditions, lies in the range, and is public or watched by the user on its comment target. This is the join-free statement of the query's WHERE clauses |
| Ordering.SortDesc | app/controllers/api_v1/activities_controller.rb:12 | The result is ordered by id, non-increasing, and is a permutation of its input |
| Ordering.SortThenTakeIsFirstPage | app/controllers/api_v1/activities_controller.rb:12-13 | Ordering then limiting yields the first page: sorted, drawn from the candidates with multiplicity, of length min(limit, number of candidates), with every left-out candidate no later than the last row |
| Ordering.FirstPageUnique | app/controllers/api_v1/activities_controller.rb:12-13 | When ids determine activities, at most one sequence is a first page of given candidates and limit |
| ActivitiesController.GetTarget | app/controllers/api_v1/activities_controller.rb:44-48 | Fails iff a `project_id` parameter is present and no current project was resolved. The failure is a not-found error of type ObjectNotFound with message 'Target not found' |
| ActivitiesController.Query | app/controllers/api_v1/activities_controller.rb:12-13 | The query result is the first page of the candidates for the limit |
| ActivitiesController.Index | app/controllers/api_v1/activities_controller.rb:3-13 | Fails iff `get_target` fails, with its error. Otherwise returns the first page of the index candidates |
| ActivitiesController.FindScoped | app/controllers/api_v1/activities_controller.rb:19 | Finds a stored activity with the requested id inside the given projects, and finds none iff no such activity exists |
| ActivitiesController.Show | app/controllers/api_v1/activities_controller.rb:18-27 | Returns an activity only if it is stored, has the requested id and its project is among the user's projects; the `project_id` parameter and the current project play no part. Otherwise it fails with a not-found error of type ObjectNotFound and message 'Not found' |
| FeedProperties.IndexQualifies | app/controllers/api_v1/activities_controller.rb:8-13 | An activity is an index candidate iff it is stored, in the scoped projects, matches every given filter, lies in the range, and is public or watched by the user |
| FeedProperties.ListedQualifies | app/controllers/api_v1/activities_controller.rb:8-13 | Every listed activity is stored, scoped, filtered, in range and visible to the user |
| FeedProperties.IndexScoped | app/controllers/api_v1/activities_controller.rb:32-34 | Every listed activity belongs to the current project when one is set, and otherwise to one of the user's projects |
| FeedProperties.IndexFilters | app/controllers/api_v1/activities_controller.rb:35-39 | Every listed activity equals each given `user_id`, `target_type`, `target_id`, `comment_target_type` and `comment_target_id` parameter |
| FeedProperties.UnknownUserListsNothing | spec/controllers/api_v1/activities_controller_spec.rb:48-55 | Filtering by a user id that no stored activity carries lists nothing |
| FeedProperties.IndexPrivacy | app/controllers/api_v1/activities_controller.rb:10-11 | Every listed activity is public, or private with a stored watcher of the user whose type and id equal the activity's comment target |
| FeedProperties.PrivateUnwatchedNeverListed | app/controllers/api_v1/activities_controller.rb:10-11 | A private activity is never listed when the user does not watch its comment target, including when that target is NULL |
| FeedProperties.CountOneListsOne | spec/controllers/api_v1/activities_controller_spec.rb:57-64 | With a limit of one and at least one qualifying activity, exactly one row is listed |
| FeedProperties.NothingSkipped | app/controllers/api_v1/activities_controller.rb:12-13 | A qualifying activity missing from a non-empty page has an id no larger than the last listed row |
| FeedProperties.RoomyPageListsEveryQualifying | app/controllers/api_v1/activities_controller.rb:8-13 | When the limit covers all candidates, every qualifying activity is listed, so a private activity appears once the user watches its comment target |
| FeedProperties.IndexIsTheFirstPage | app/controllers/api_v1/activities_controller.rb:12-13 | With unique activity ids, any first page of the index candidates equals the page `index` returns, so an identical request on unchanged data gives the identical page |
| FeedProperties.ShowFindsOwnActivity | app/controllers/api_v1/activities_controller.rb:19 | With unique ids, `show` returns the stored activity with the requested id whenever its project is one of the user's, whatever the `project_id` parameter |
| Pagination.PaginationStable | app/controllers/api_v1/activities_controller.rb:9 | Activities stored anywhere whose ids the range excludes leave the index response unchanged |
| Pagination.SingleProjectNarrows | app/controllers/api_v1/activities_controller.rb:32 | For a current project the user belongs to, the candidates equal the all-projects candidates restricted to that project, in the same order |
| Duplicates.CandidateMultiplicity | app/controllers/api_v1/activities_controller.rb:10-11 | A candidate appears once per stored copy times the row count. The row count is the number of watcher rows on its comment target (at least one) when public, and the user's watcher rows on it when private. Anything else appears zero times |
| Duplicates.PublicListedPerWatcher | app/controllers/api_v1/activities_controller.rb:11 | A public activity whose comment target has watcher rows is a candidate once per watcher row, not once |

## Left out

- Reference expansion and serialisation (`api_respond`, `:references`, `:include`) are not modelled. They live in the parent `APIController`, which is not part of this model.
- The JSONP callback, the OAuth `:read_projects` scope and the `authorize!` ability rules are left out. This includes the 401 that `show` returns for an unwatched private activity. Their logic is framework or foreign code that is not part of this model.
- The internals of `api_range` (such as `since_id`) and of `api_limit` (count defaults and clamping) are left out. Both are defined in the parent controller and enter as parameters.
- `touch_user`, database execution and the resolution of `@current_project` from a permalink are left out. The resolved project is an input.
- Neither the controller (activities_controller.rb line 32) nor the model checks that the current project is one of the user's. The `authorize!` on line 6, which might, is left out.
- Request parameters arrive as strings and ActiveRecord casts them to column types. The model takes them already typed.
- `is_private` is modelled as a non-null boolean, and watcher columns as non-null.

## Notes

- `show` succeeds for any stored activity in the user's projects. The per-activity `authorize!` decision (activities_controller.rb line 20) is left out.
- `show` ignores `project_id` (line 19) and scopes only by the user's projects.
- Results are ordered by non-increasing id and may repeat an activity. The query has no DISTINCT, so a public activity whose comment target has several watchers is listed once per watcher row.
- This controller has no check that rejects a non-positive count. Any such check would belong to `api_limit`.
