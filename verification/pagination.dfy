/**
 * How the index query behaves when the table changes or the scope narrows:
 * rows outside the id range do not disturb a page, and restricting to one
 * project equals filtering the all-projects candidates by that project.
 */
module Pagination {
  import opened Wrappers
  import opened Records
  import opened Scope
  import opened Join
  import opened ActivitiesController

  lemma {:induction false} LeftJoinAppend(xs: seq<Activity>, ys: seq<Activity>, ws: seq<Watcher>)
    ensures LeftJoin(xs + ys, ws) == LeftJoin(xs, ws) + LeftJoin(ys, ws)
  {
    if |xs| > 0 {
      assert (xs + ys)[1..] == xs[1..] + ys;
      LeftJoinAppend(xs[1..], ys, ws);
    } else {
      assert xs + ys == ys;
    }
  }

  lemma {:induction false} FilterRowsAppend(xs: seq<Row>, ys: seq<Row>, conds: seq<Condition>, range: int -> bool, me: int)
    ensures FilterRows(xs + ys, conds, range, me) == FilterRows(xs, conds, range, me) + FilterRows(ys, conds, range, me)
  {
    if |xs| > 0 {
      assert (xs + ys)[1..] == xs[1..] + ys;
      FilterRowsAppend(xs[1..], ys, conds, range, me);
    } else {
      assert xs + ys == ys;
    }
  }

  lemma ActivitiesOfAppend(xs: seq<Row>, ys: seq<Row>)
    ensures ActivitiesOf(xs + ys) == ActivitiesOf(xs) + ActivitiesOf(ys)
  {
  }

  /** Rows whose activity ids all lie outside the range are all filtered out. */
  lemma {:induction false} FilterOutOfRange(rows: seq<Row>, conds: seq<Condition>, range: int -> bool, me: int)
    requires forall i :: 0 <= i < |rows| ==> !range(rows[i].activity.id)
    ensures FilterRows(rows, conds, range, me) == []
  {
    if |rows| > 0 {
      FilterOutOfRange(rows[1..], conds, range, me);
    }
  }

  /**
   * Pagination stability: activities stored after a page was fetched, whose
   * ids the range excludes (as a `since_id` cursor excludes newer rows),
   * leave the page unchanged wherever they are stored.
   */
  lemma PaginationStable(params: IndexParams, current: Option<Project>, user: User,
                         before: seq<Activity>, newer: seq<Activity>, after: seq<Activity>,
                         ws: seq<Watcher>, range: int -> bool, limit: nat)
    requires forall a :: a in newer ==> !range(a.id)
    ensures Index(params, current, user, Db(before + newer + after, ws), range, limit)
         == Index(params, current, user, Db(before + after, ws), range, limit)
  {
    var conds := ApiScope(params, current, user);
    var me := user.id;
    LeftJoinAppend(before + newer, after, ws);
    LeftJoinAppend(before, newer, ws);
    LeftJoinAppend(before, after, ws);
    var jb, jn, ja := LeftJoin(before, ws), LeftJoin(newer, ws), LeftJoin(after, ws);
    forall i | 0 <= i < |jn| ensures !range(jn[i].activity.id) {
      assert jn[i] in jn;
    }
    FilterOutOfRange(jn, conds, range, me);
    FilterRowsAppend(jb + jn, ja, conds, range, me);
    FilterRowsAppend(jb, jn, conds, range, me);
    FilterRowsAppend(jb, ja, conds, range, me);
    assert FilterRows(jb + jn, conds, range, me) == FilterRows(jb, conds, range, me);
    assert Candidates(Db(before + newer + after, ws), conds, range, me)
        == Candidates(Db(before + after, ws), conds, range, me);
  }

  /** The activities of one project, in order. */
  function KeepProject(s: seq<Activity>, projectId: int): (kept: seq<Activity>)
    ensures forall a {:trigger a in kept} :: a in kept <==> a in s && a.projectId == projectId
  {
    if |s| == 0 then []
    else
      assert forall a :: a in s <==> a == s[0] || a in s[1..] by {
        assert s == [s[0]] + s[1..];
      }
      (if s[0].projectId == projectId then [s[0]] else []) + KeepProject(s[1..], projectId)
  }

  /** Filtering the rows of a non-empty sequence: the first row's outcome,
      then the rest. */
  lemma FilterRowsCons(rows: seq<Row>, conds: seq<Condition>, range: int -> bool, me: int)
    requires |rows| > 0
    ensures ActivitiesOf(FilterRows(rows, conds, range, me))
         == (if Where(conds, range, me, rows[0]) then [rows[0].activity] else [])
            + ActivitiesOf(FilterRows(rows[1..], conds, range, me))
  {
    var head := if Where(conds, range, me, rows[0]) then [rows[0]] else [];
    ActivitiesOfAppend(head, FilterRows(rows[1..], conds, range, me));
    assert ActivitiesOf(head) == if head == [] then [] else [rows[0].activity];
  }

  lemma KeepProjectCons(x: Activity, s: seq<Activity>, projectId: int)
    ensures KeepProject([x] + s, projectId)
         == (if x.projectId == projectId then [x] else []) + KeepProject(s, projectId)
  {
    assert ([x] + s)[1..] == s;
  }

  lemma {:induction false} FilterNarrowed(rows: seq<Row>, narrow: seq<Condition>, wide: seq<Condition>,
                                          projectId: int, range: int -> bool, me: int)
    requires forall a :: Satisfies(narrow, a) <==> Satisfies(wide, a) && a.projectId == projectId
    ensures ActivitiesOf(FilterRows(rows, narrow, range, me))
         == KeepProject(ActivitiesOf(FilterRows(rows, wide, range, me)), projectId)
  {
    if |rows| > 0 {
      var a := rows[0].activity;
      var wideRest := ActivitiesOf(FilterRows(rows[1..], wide, range, me));
      FilterNarrowed(rows[1..], narrow, wide, projectId, range, me);
      FilterRowsCons(rows, narrow, range, me);
      FilterRowsCons(rows, wide, range, me);
      assert Where(narrow, range, me, rows[0]) <==> Where(wide, range, me, rows[0]) && a.projectId == projectId;
      if Where(wide, range, me, rows[0]) {
        KeepProjectCons(a, wideRest, projectId);
      } else {
        assert [] + wideRest == wideRest;
      }
    }
  }

  /**
   * A current project the user belongs to narrows the feed to exactly that
   * project's share of the all-projects candidates, in the same order.
   */
  lemma SingleProjectNarrows(params: IndexParams, p: Project, user: User, db: Db, range: int -> bool)
    requires p.id in user.projectIds
    ensures IndexCandidates(params, Some(p), user, db, range)
         == KeepProject(IndexCandidates(params, None, user, db, range), p.id)
  {
    FilterNarrowed(LeftJoin(db.activities, db.watchers), ApiScope(params, Some(p), user),
                   ApiScope(params, None, user), p.id, range, user.id);
  }
}
