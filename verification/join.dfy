/**
 * `LEFT JOIN watchers ON activities.comment_target_id = watchers.watchable_id
 * AND watchers.watchable_type = activities.comment_target_type`, written out
 * over sequences, and the privacy predicate the index query evaluates on each
 * joined row.
 */
module Join {
  import opened Wrappers
  import opened Records

  /** One row of the joined relation: an activity and the watcher it was paired
      with, or `None` when the left join found no watcher (all-NULL columns). */
  datatype Row = Row(activity: Activity, watcher: Option<Watcher>)

  /** The ON clause. A NULL comment target compares unequal to everything. */
  predicate OnClause(a: Activity, w: Watcher)
  {
    a.commentTargetId == Some(w.watchableId) && a.commentTargetType == Some(w.watchableType)
  }

  /** The watchers the ON clause pairs with `a`, in storage order. */
  function Matching(a: Activity, ws: seq<Watcher>): (m: seq<Watcher>)
    ensures forall w {:trigger w in m} :: w in m <==> w in ws && OnClause(a, w)
  {
    if |ws| == 0 then []
    else (if OnClause(a, ws[0]) then [ws[0]] else []) + Matching(a, ws[1..])
  }

  /** How the left join pairs activity `a` with a watcher column value: a
      watcher the ON clause accepts, or NULL when it accepts none. */
  predicate PairedWith(a: Activity, ws: seq<Watcher>, watcher: Option<Watcher>)
  {
    match watcher
    case Some(w) => w in ws && OnClause(a, w)
    case None => forall w :: w in ws ==> !OnClause(a, w)
  }

  /** Activity `a` paired with each of the watchers `m`, in order. */
  function PairRows(a: Activity, m: seq<Watcher>): (rows: seq<Row>)
    ensures |rows| == |m|
    ensures forall i :: 0 <= i < |m| ==> rows[i] == Row(a, Some(m[i]))
  {
    seq(|m|, i requires 0 <= i < |m| => Row(a, Some(m[i])))
  }

  /** The rows one activity contributes: one per matching watcher, or a single
      row with no watcher when nothing matches. */
  function JoinOne(a: Activity, ws: seq<Watcher>): (rows: seq<Row>)
    ensures forall row {:trigger row in rows} :: row in rows <==> row.activity == a && PairedWith(a, ws, row.watcher)
  {
    var m := Matching(a, ws);
    if |m| == 0 then
      assert forall w :: w in ws ==> !OnClause(a, w) by {
        forall w | w in ws ensures !OnClause(a, w) { assert w !in m; }
      }
      [Row(a, None)]
    else
      var rows := PairRows(a, m);
      assert forall row :: row in rows ==> row.activity == a && PairedWith(a, ws, row.watcher) by {
        forall row | row in rows ensures row.activity == a && PairedWith(a, ws, row.watcher) {
          var i :| 0 <= i < |rows| && rows[i] == row;
          assert m[i] in m;
        }
      }
      assert forall w :: w in m ==> Row(a, Some(w)) in rows by {
        forall w | w in m ensures Row(a, Some(w)) in rows {
          var i :| 0 <= i < |m| && m[i] == w;
          assert rows[i] == Row(a, Some(w));
        }
      }
      assert !PairedWith(a, ws, None) by { assert m[0] in m; }
      rows
  }

  /** What it means for a row to belong to the left join of `acts` and `ws`. */
  predicate InLeftJoin(acts: seq<Activity>, ws: seq<Watcher>, row: Row)
  {
    row.activity in acts && PairedWith(row.activity, ws, row.watcher)
  }

  function LeftJoin(acts: seq<Activity>, ws: seq<Watcher>): (rows: seq<Row>)
    ensures forall row {:trigger row in rows} :: row in rows <==> InLeftJoin(acts, ws, row)
  {
    if |acts| == 0 then []
    else
      var rest := LeftJoin(acts[1..], ws);
      assert forall row :: row in rest ==> InLeftJoin(acts, ws, row) by {
        forall row | row in rest ensures InLeftJoin(acts, ws, row) {
          assert row.activity in acts[1..];
        }
      }
      assert forall row :: InLeftJoin(acts, ws, row) && row.activity != acts[0] ==> row in rest by {
        forall row | InLeftJoin(acts, ws, row) && row.activity != acts[0] ensures row in rest {
          assert row.activity in acts[1..];
        }
      }
      JoinOne(acts[0], ws) + rest
  }

  /**
   * The WHERE clause on a joined row:
   * `is_private = false OR (is_private = true AND watchers.user_id = me)`.
   * A row without a watcher has a NULL `watchers.user_id`, which is not equal
   * to anything.
   */
  predicate PassesPrivacy(row: Row, me: int)
  {
    || !row.activity.isPrivate
    || (row.activity.isPrivate && row.watcher.Some? && row.watcher.value.userId == me)
  }

  /** The visibility rule stated without the join: public, or private with a
      watcher row of `me` on the activity's comment target. */
  predicate VisibleTo(a: Activity, ws: seq<Watcher>, me: int)
  {
    !a.isPrivate || exists w :: w in ws && OnClause(a, w) && w.userId == me
  }
}
