/**
 * `ApiV1::ActivitiesController`: the `get_target` before-filter, the `index`
 * query pipeline (scope conditions, id range, privacy over the watcher join,
 * descending order, limit) and the `show` lookup.
 *
 * `api_range('activities')` and `api_limit` belong to the parent controller;
 * they enter here as a caller-supplied predicate on activity ids and a
 * natural-number limit.
 */
module ActivitiesController {
  import opened Wrappers
  import opened Records
  import opened Scope
  import opened Join
  import opened Ordering

  /** The WHERE clauses of `index` on one joined row: the scope conditions,
      the id range and the privacy predicate. */
  predicate Where(conds: seq<Condition>, range: int -> bool, me: int, row: Row)
  {
    Satisfies(conds, row.activity) && range(row.activity.id) && PassesPrivacy(row, me)
  }

  function FilterRows(rows: seq<Row>, conds: seq<Condition>, range: int -> bool, me: int): (kept: seq<Row>)
    ensures forall row {:trigger row in kept} :: row in kept <==> row in rows && Where(conds, range, me, row)
  {
    if |rows| == 0 then []
    else
      var rest := FilterRows(rows[1..], conds, range, me);
      assert forall row :: row in rows <==> row == rows[0] || row in rows[1..] by {
        assert rows == [rows[0]] + rows[1..];
      }
      (if Where(conds, range, me, rows[0]) then [rows[0]] else []) + rest
  }

  /** The `activities.*` columns of each row (the select list of the query). */
  function ActivitiesOf(rows: seq<Row>): (acts: seq<Activity>)
    ensures |acts| == |rows|
    ensures forall i :: 0 <= i < |rows| ==> acts[i] == rows[i].activity
  {
    seq(|rows|, i requires 0 <= i < |rows| => rows[i].activity)
  }

  /** The activities that pass every WHERE clause, one entry per joined row,
      in storage order. There is no DISTINCT, so an activity appears once per
      watcher row its comment target was joined with. */
  function Candidates(db: Db, conds: seq<Condition>, range: int -> bool, me: int): seq<Activity>
  {
    ActivitiesOf(FilterRows(LeftJoin(db.activities, db.watchers), conds, range, me))
  }

  /**
   * Which activities are candidates, stated without the join: stored, passing
   * the conditions and the range, and public or watched by `me`.
   */
  lemma CandidateMembership(db: Db, conds: seq<Condition>, range: int -> bool, me: int, a: Activity)
    ensures a in Candidates(db, conds, range, me) <==>
      a in db.activities && Satisfies(conds, a) && range(a.id) && VisibleTo(a, db.watchers, me)
  {
    var joined := LeftJoin(db.activities, db.watchers);
    var kept := FilterRows(joined, conds, range, me);
    var acts := ActivitiesOf(kept);
    if a in acts {
      var i :| 0 <= i < |acts| && acts[i] == a;
      assert kept[i] in kept;
      var row := kept[i];
      if a.isPrivate {
        assert row.watcher.value in db.watchers && OnClause(a, row.watcher.value);
      }
    }
    if a in db.activities && Satisfies(conds, a) && range(a.id) && VisibleTo(a, db.watchers, me) {
      var row: Row;
      if a.isPrivate {
        var w :| w in db.watchers && OnClause(a, w) && w.userId == me;
        row := Row(a, Some(w));
      } else if w :| w in db.watchers && OnClause(a, w) {
        row := Row(a, Some(w));
      } else {
        row := Row(a, None);
      }
      assert InLeftJoin(db.activities, db.watchers, row);
      assert row in kept;
      var i :| 0 <= i < |kept| && kept[i] == row;
      assert acts[i] == a;
    }
  }

  /** The `get_target` before-filter: a `project_id` parameter that did not
      resolve to a project stops the request with a not-found error. */
  function GetTarget(params: IndexParams, current: Option<Project>): (o: Outcome<ApiError>)
    ensures o.Fail? <==> params.projectId.Some? && current.None?
    ensures o.Fail? ==> o.error.status == NotFound && o.error.kind == "ObjectNotFound"
                        && o.error.message == "Target not found"
  {
    if params.projectId.Some? && current.None? then Fail(TargetNotFound) else Pass
  }

  /** ORDER BY activities.id DESC LIMIT limit over the candidates. */
  function Query(db: Db, conds: seq<Condition>, range: int -> bool, me: int, limit: nat): (page: seq<Activity>)
    ensures IsFirstPage(page, Candidates(db, conds, range, me), limit)
  {
    var candidates := Candidates(db, conds, range, me);
    SortThenTakeIsFirstPage(candidates, limit);
    Take(SortDesc(candidates), limit)
  }

  /** The candidates of an index request. */
  function IndexCandidates(params: IndexParams, current: Option<Project>, user: User, db: Db, range: int -> bool): seq<Activity>
  {
    Candidates(db, ApiScope(params, current, user), range, user.id)
  }

  /**
   * `index`: the before-filter, then the query. On success the page is the
   * first `limit` candidates in descending id order.
   */
  function Index(params: IndexParams, current: Option<Project>, user: User, db: Db,
                 range: int -> bool, limit: nat): (r: Result<seq<Activity>, ApiError>)
    ensures r.Failure? <==> params.projectId.Some? && current.None?
    ensures r.Failure? ==> r.error == TargetNotFound
    ensures r.Success? ==> IsFirstPage(r.value, IndexCandidates(params, current, user, db, range), limit)
  {
    match GetTarget(params, current)
    case Fail(e) => Failure(e)
    case Pass => Success(Query(db, ApiScope(params, current, user), range, user.id, limit))
  }

  /** The request parameters `show` reads. */
  datatype ShowParams = ShowParams(projectId: Option<string>, id: int)

  predicate ShowMatches(a: Activity, id: int, projects: set<int>)
  {
    a.id == id && a.projectId in projects
  }

  /** `Activity.where(:project_id => projects).find_by_id(id)`: the first row in
      storage order with that id inside the projects, if any. */
  function FindScoped(table: seq<Activity>, projects: set<int>, id: int): (found: Option<Activity>)
    ensures found.Some? ==> found.value in table && ShowMatches(found.value, id, projects)
    ensures found.None? <==> forall a :: a in table ==> !ShowMatches(a, id, projects)
  {
    if |table| == 0 then None
    else if ShowMatches(table[0], id, projects) then Some(table[0])
    else
      assert forall a :: a in table <==> a == table[0] || a in table[1..] by {
        assert table == [table[0]] + table[1..];
      }
      FindScoped(table[1..], projects, id)
  }

  /**
   * `show`: look the activity up among the user's projects only; the
   * `project_id` parameter and the current project play no part. A miss is a
   * not-found error.
   */
  function Show(params: ShowParams, current: Option<Project>, user: User, db: Db): (r: Result<Activity, ApiError>)
    ensures r.Success? ==> r.value in db.activities && r.value.id == params.id
                           && r.value.projectId in user.projectIds
    ensures r.Failure? <==> forall a :: a in db.activities ==> !(a.id == params.id && a.projectId in user.projectIds)
    ensures r.Failure? ==> r.error.status == NotFound && r.error.kind == "ObjectNotFound"
                           && r.error.message == "Not found"
  {
    match FindScoped(db.activities, user.projectIds, params.id)
    case Some(a) => Success(a)
    case None => Failure(ActivityNotFound)
  }
}
