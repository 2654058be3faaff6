/**
 * The index query has no DISTINCT, so the left join decides how often an
 * activity is listed: a public one once per watcher row of its comment target
 * (once if there is none), a private one once per watcher row of the
 * requesting user on its comment target.
 */
module Duplicates {
  import opened Wrappers
  import opened Records
  import opened Scope
  import opened Join
  import opened ActivitiesController
  import opened Pagination

  /** Number of watcher rows the ON clause pairs with `a`. */
  function WatcherRowCount(a: Activity, ws: seq<Watcher>): nat
  {
    if |ws| == 0 then 0
    else (if OnClause(a, ws[0]) then 1 else 0) + WatcherRowCount(a, ws[1..])
  }

  /** Number of those rows that belong to user `me`. */
  function OwnWatcherRowCount(a: Activity, ws: seq<Watcher>, me: int): nat
  {
    if |ws| == 0 then 0
    else (if OnClause(a, ws[0]) && ws[0].userId == me then 1 else 0) + OwnWatcherRowCount(a, ws[1..], me)
  }

  /** How many times one stored copy of a qualifying activity is listed. */
  function RowsPerActivity(a: Activity, ws: seq<Watcher>, me: int): nat
  {
    if !a.isPrivate then (if WatcherRowCount(a, ws) == 0 then 1 else WatcherRowCount(a, ws))
    else OwnWatcherRowCount(a, ws, me)
  }

  function CountOwn(m: seq<Watcher>, me: int): nat
  {
    if |m| == 0 then 0 else (if m[0].userId == me then 1 else 0) + CountOwn(m[1..], me)
  }

  lemma {:induction false} MatchingCounts(a: Activity, ws: seq<Watcher>, me: int)
    ensures |Matching(a, ws)| == WatcherRowCount(a, ws)
    ensures CountOwn(Matching(a, ws), me) == OwnWatcherRowCount(a, ws, me)
  {
    if |ws| > 0 {
      MatchingCounts(a, ws[1..], me);
      if OnClause(a, ws[0]) {
        assert ([ws[0]] + Matching(a, ws[1..]))[1..] == Matching(a, ws[1..]);
      } else {
        assert [] + Matching(a, ws[1..]) == Matching(a, ws[1..]);
      }
    }
  }

  lemma {:induction false} OwnAtMostAll(a: Activity, ws: seq<Watcher>, me: int)
    ensures OwnWatcherRowCount(a, ws, me) <= WatcherRowCount(a, ws)
  {
    if |ws| > 0 {
      OwnAtMostAll(a, ws[1..], me);
    }
  }

  /** Rows that all carry activity `a` project to |rows| copies of `a`. */
  lemma {:induction false} CopiesOf(rows: seq<Row>, a: Activity)
    requires forall i :: 0 <= i < |rows| ==> rows[i].activity == a
    ensures multiset(ActivitiesOf(rows))[a] == |rows|
  {
    if |rows| > 0 {
      CopiesOf(rows[1..], a);
      assert ActivitiesOf(rows) == [a] + ActivitiesOf(rows[1..]);
    }
  }

  /** Of the rows pairing `a` with watchers `m`, the privacy clause keeps all
      when `a` is public and those of user `me` when it is private. */
  lemma {:induction false} PairRowsKept(a: Activity, m: seq<Watcher>, conds: seq<Condition>, range: int -> bool, me: int)
    requires Satisfies(conds, a) && range(a.id)
    ensures |FilterRows(PairRows(a, m), conds, range, me)| == if a.isPrivate then CountOwn(m, me) else |m|
  {
    if |m| > 0 {
      PairRowsKept(a, m[1..], conds, range, me);
      assert PairRows(a, m)[1..] == PairRows(a, m[1..]);
    }
  }

  /** Every row kept from activity `x`'s join rows carries `x`. */
  lemma KeptRowsCarry(x: Activity, ws: seq<Watcher>, conds: seq<Condition>, range: int -> bool, me: int)
    ensures forall i :: 0 <= i < |FilterRows(JoinOne(x, ws), conds, range, me)| ==>
      FilterRows(JoinOne(x, ws), conds, range, me)[i].activity == x
  {
    var kept := FilterRows(JoinOne(x, ws), conds, range, me);
    forall i | 0 <= i < |kept| ensures kept[i].activity == x {
      assert kept[i] in kept;
    }
  }

  /** The copies of `a` one stored activity `x` contributes to the candidates. */
  lemma OneActivityCopies(x: Activity, ws: seq<Watcher>, conds: seq<Condition>, range: int -> bool, me: int, a: Activity)
    ensures multiset(ActivitiesOf(FilterRows(JoinOne(x, ws), conds, range, me)))[a]
         == if x == a && Satisfies(conds, a) && range(a.id) then RowsPerActivity(a, ws, me) else 0
  {
    var kept := FilterRows(JoinOne(x, ws), conds, range, me);
    KeptRowsCarry(x, ws, conds, range, me);
    if x != a || !(Satisfies(conds, a) && range(a.id)) {
      forall i | 0 <= i < |kept| ensures kept[i].activity != a {
        assert kept[i] in kept;
      }
      assert a !in ActivitiesOf(kept);
    } else {
      CopiesOf(kept, a);
      var m := Matching(a, ws);
      MatchingCounts(a, ws, me);
      if |m| == 0 {
        OwnAtMostAll(a, ws, me);
        assert JoinOne(a, ws) == [Row(a, None)];
        assert FilterRows([Row(a, None)][1..], conds, range, me) == [];
      } else {
        PairRowsKept(a, m, conds, range, me);
      }
    }
  }

  lemma MulSucc(n: nat, k: nat)
    ensures (1 + n) * k == k + n * k
  {
  }

  /** The candidates of a table are those of its first activity followed by
      those of the rest. */
  lemma CandidatesCons(db: Db, conds: seq<Condition>, range: int -> bool, me: int)
    requires |db.activities| > 0
    ensures Candidates(db, conds, range, me)
         == ActivitiesOf(FilterRows(JoinOne(db.activities[0], db.watchers), conds, range, me))
            + Candidates(Db(db.activities[1..], db.watchers), conds, range, me)
  {
    var acts, ws := db.activities, db.watchers;
    assert LeftJoin(acts, ws) == JoinOne(acts[0], ws) + LeftJoin(acts[1..], ws);
    FilterRowsAppend(JoinOne(acts[0], ws), LeftJoin(acts[1..], ws), conds, range, me);
    ActivitiesOfAppend(FilterRows(JoinOne(acts[0], ws), conds, range, me),
                       FilterRows(LeftJoin(acts[1..], ws), conds, range, me));
  }

  /** The number of times the candidates list `a`, as the join decides it. */
  function ExpectedCopies(db: Db, conds: seq<Condition>, range: int -> bool, me: int, a: Activity): nat
  {
    if Satisfies(conds, a) && range(a.id)
    then multiset(db.activities)[a] * RowsPerActivity(a, db.watchers, me)
    else 0
  }

  /** The expected count of a table is that of its first activity plus that of the rest. */
  lemma ExpectedCons(db: Db, conds: seq<Condition>, range: int -> bool, me: int, a: Activity)
    requires |db.activities| > 0
    ensures ExpectedCopies(db, conds, range, me, a)
         == (if db.activities[0] == a && Satisfies(conds, a) && range(a.id) then RowsPerActivity(a, db.watchers, me) else 0)
            + ExpectedCopies(Db(db.activities[1..], db.watchers), conds, range, me, a)
  {
    CountCons(db.activities, a);
    if Satisfies(conds, a) && range(a.id) {
      MulSucc(multiset(db.activities[1..])[a], RowsPerActivity(a, db.watchers, me));
    }
  }

  /**
   * Exactly how often the candidates list an activity: for each stored copy
   * of a qualifying activity, `RowsPerActivity` times; never otherwise.
   */
  lemma {:induction false} CandidateMultiplicity(db: Db, conds: seq<Condition>, range: int -> bool, me: int, a: Activity)
    ensures multiset(Candidates(db, conds, range, me))[a]
         == if Satisfies(conds, a) && range(a.id)
            then multiset(db.activities)[a] * RowsPerActivity(a, db.watchers, me)
            else 0
    decreases |db.activities|
  {
    if |db.activities| > 0 {
      var rest := Db(db.activities[1..], db.watchers);
      var first := ActivitiesOf(FilterRows(JoinOne(db.activities[0], db.watchers), conds, range, me));
      CandidateMultiplicity(rest, conds, range, me, a);
      CandidatesCons(db, conds, range, me);
      OneActivityCopies(db.activities[0], db.watchers, conds, range, me, a);
      CountConcat(first, Candidates(rest, conds, range, me), a);
      ExpectedCons(db, conds, range, me, a);
      assert multiset(Candidates(db, conds, range, me))[a] == ExpectedCopies(db, conds, range, me, a);
    }
  }

  lemma CountConcat(xs: seq<Activity>, ys: seq<Activity>, a: Activity)
    ensures multiset(xs + ys)[a] == multiset(xs)[a] + multiset(ys)[a]
  {
  }

  lemma CountCons(xs: seq<Activity>, a: Activity)
    requires |xs| > 0
    ensures multiset(xs)[a] == (if xs[0] == a then 1 else 0) + multiset(xs[1..])[a]
  {
    assert xs == [xs[0]] + xs[1..];
  }

  /** A public activity stored once whose comment target has watcher rows is
      listed among the candidates once per watcher row. */
  lemma PublicListedPerWatcher(db: Db, conds: seq<Condition>, range: int -> bool, me: int, a: Activity)
    requires multiset(db.activities)[a] == 1 && !a.isPrivate
    requires Satisfies(conds, a) && range(a.id)
    requires WatcherRowCount(a, db.watchers) > 0
    ensures multiset(Candidates(db, conds, range, me))[a] == WatcherRowCount(a, db.watchers)
  {
    CandidateMultiplicity(db, conds, range, me, a);
  }
}
