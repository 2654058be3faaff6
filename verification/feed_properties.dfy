/**
 * Properties of the activity feed: what `index` may return, in what order,
 * how many, and what it may not skip; what `show` finds.
 */
module FeedProperties {
  import opened Wrappers
  import opened Records
  import opened Scope
  import opened Join
  import opened Ordering
  import opened ActivitiesController

  /** Every row of a page is one of the candidates it was drawn from. */
  lemma PageRowIsCandidate(page: seq<Activity>, candidates: seq<Activity>, limit: nat, a: Activity)
    requires IsFirstPage(page, candidates, limit) && a in page
    ensures a in candidates
  {
    assert a in multiset(page);
  }

  /**
   * The index candidates, stated without the join: stored, inside the scoped
   * projects, matching each given filter (an absent filter constrains
   * nothing), inside the id range, and public or watched by the user.
   */
  lemma IndexQualifies(params: IndexParams, current: Option<Project>, user: User, db: Db,
                       range: int -> bool, a: Activity)
    ensures a in IndexCandidates(params, current, user, db, range) <==>
      && a in db.activities
      && a.projectId in ScopedProjects(current, user)
      && MatchesFilters(params, a)
      && range(a.id)
      && VisibleTo(a, db.watchers, user.id)
  {
    CandidateMembership(db, ApiScope(params, current, user), range, user.id, a);
  }

  /** A returned activity with its page-independent facts. */
  lemma ListedQualifies(params: IndexParams, current: Option<Project>, user: User, db: Db,
                        range: int -> bool, limit: nat, a: Activity)
    requires Index(params, current, user, db, range, limit).Success?
    requires a in Index(params, current, user, db, range, limit).value
    ensures a in db.activities && a.projectId in ScopedProjects(current, user)
    ensures MatchesFilters(params, a) && range(a.id) && VisibleTo(a, db.watchers, user.id)
  {
    var page := Index(params, current, user, db, range, limit).value;
    PageRowIsCandidate(page, IndexCandidates(params, current, user, db, range), limit, a);
    IndexQualifies(params, current, user, db, range, a);
  }

  /** Scoping: the current project when one is set, otherwise the user's projects. */
  lemma IndexScoped(params: IndexParams, current: Option<Project>, user: User, db: Db,
                    range: int -> bool, limit: nat)
    requires Index(params, current, user, db, range, limit).Success?
    ensures forall a :: a in Index(params, current, user, db, range, limit).value ==>
      && (current.Some? ==> a.projectId == current.value.id)
      && (current.None? ==> a.projectId in user.projectIds)
  {
    forall a | a in Index(params, current, user, db, range, limit).value
      ensures current.Some? ==> a.projectId == current.value.id
      ensures current.None? ==> a.projectId in user.projectIds
    {
      ListedQualifies(params, current, user, db, range, limit, a);
    }
  }

  /** Each given filter parameter is an exact-equality constraint on its column. */
  lemma IndexFilters(params: IndexParams, current: Option<Project>, user: User, db: Db,
                     range: int -> bool, limit: nat)
    requires Index(params, current, user, db, range, limit).Success?
    ensures forall a :: a in Index(params, current, user, db, range, limit).value ==>
      && (params.userId.Some? ==> a.userId == params.userId.value)
      && (params.targetType.Some? ==> a.targetType == params.targetType.value)
      && (params.targetId.Some? ==> a.targetId == params.targetId.value)
      && (params.commentTargetType.Some? ==> a.commentTargetType == Some(params.commentTargetType.value))
      && (params.commentTargetId.Some? ==> a.commentTargetId == Some(params.commentTargetId.value))
  {
    forall a | a in Index(params, current, user, db, range, limit).value
      ensures MatchesFilters(params, a)
    {
      ListedQualifies(params, current, user, db, range, limit, a);
    }
  }

  /** A filter on a user id no stored activity carries yields an empty page. */
  lemma UnknownUserListsNothing(params: IndexParams, current: Option<Project>, user: User, db: Db,
                                range: int -> bool, limit: nat)
    requires params.userId.Some?
    requires forall a :: a in db.activities ==> a.userId != params.userId.value
    requires Index(params, current, user, db, range, limit).Success?
    ensures Index(params, current, user, db, range, limit).value == []
  {
    var page := Index(params, current, user, db, range, limit).value;
    if page != [] {
      ListedQualifies(params, current, user, db, range, limit, page[0]);
    }
  }

  /** Privacy: every returned activity is public, or private with a watcher
      row of the user on its comment target. */
  lemma IndexPrivacy(params: IndexParams, current: Option<Project>, user: User, db: Db,
                     range: int -> bool, limit: nat)
    requires Index(params, current, user, db, range, limit).Success?
    ensures forall a :: a in Index(params, current, user, db, range, limit).value ==>
      || !a.isPrivate
      || exists w :: && w in db.watchers && w.userId == user.id
                     && a.commentTargetType == Some(w.watchableType)
                     && a.commentTargetId == Some(w.watchableId)
  {
    forall a | a in Index(params, current, user, db, range, limit).value
      ensures VisibleTo(a, db.watchers, user.id)
    {
      ListedQualifies(params, current, user, db, range, limit, a);
    }
  }

  /** A private activity that the user does not watch is never listed; in
      particular one whose comment target is NULL, which joins no watcher. */
  lemma PrivateUnwatchedNeverListed(params: IndexParams, current: Option<Project>, user: User, db: Db,
                                    range: int -> bool, limit: nat, a: Activity)
    requires a.isPrivate
    requires || a.commentTargetType.None? || a.commentTargetId.None?
             || forall w :: w in db.watchers && OnClause(a, w) ==> w.userId != user.id
    requires Index(params, current, user, db, range, limit).Success?
    ensures a !in Index(params, current, user, db, range, limit).value
  {
    assert !VisibleTo(a, db.watchers, user.id);
    IndexQualifies(params, current, user, db, range, a);
    var page := Index(params, current, user, db, range, limit).value;
    assert a !in multiset(IndexCandidates(params, current, user, db, range));
    assert a !in multiset(page);
  }

  /** With a limit of one and at least one qualifying activity, exactly one row is listed. */
  lemma CountOneListsOne(params: IndexParams, current: Option<Project>, user: User, db: Db,
                         range: int -> bool, a: Activity)
    requires a in db.activities && a.projectId in ScopedProjects(current, user)
    requires MatchesFilters(params, a) && range(a.id) && VisibleTo(a, db.watchers, user.id)
    requires Index(params, current, user, db, range, 1).Success?
    ensures |Index(params, current, user, db, range, 1).value| == 1
  {
    IndexQualifies(params, current, user, db, range, a);
  }

  /**
   * Nothing qualifying is skipped: a qualifying activity missing from a
   * non-empty page has an id no larger than the page's last row.
   */
  lemma NothingSkipped(params: IndexParams, current: Option<Project>, user: User, db: Db,
                       range: int -> bool, limit: nat, a: Activity)
    requires a in db.activities && a.projectId in ScopedProjects(current, user)
    requires MatchesFilters(params, a) && range(a.id) && VisibleTo(a, db.watchers, user.id)
    requires Index(params, current, user, db, range, limit).Success?
    requires a !in Index(params, current, user, db, range, limit).value
    requires |Index(params, current, user, db, range, limit).value| > 0
    ensures var page := Index(params, current, user, db, range, limit).value;
      a.id <= page[|page| - 1].id
  {
    var candidates := IndexCandidates(params, current, user, db, range);
    IndexQualifies(params, current, user, db, range, a);
    var page := Index(params, current, user, db, range, limit).value;
    assert multiset(page)[a] == 0;
    assert a in multiset(candidates);
  }

  /** When the limit covers every candidate, each qualifying activity is
      listed; in particular a private one appears as soon as the user
      watches its comment target. */
  lemma RoomyPageListsEveryQualifying(params: IndexParams, current: Option<Project>, user: User, db: Db,
                                      range: int -> bool, limit: nat, a: Activity)
    requires limit >= |IndexCandidates(params, current, user, db, range)|
    requires a in db.activities && a.projectId in ScopedProjects(current, user)
    requires MatchesFilters(params, a) && range(a.id) && VisibleTo(a, db.watchers, user.id)
    requires Index(params, current, user, db, range, limit).Success?
    ensures a in Index(params, current, user, db, range, limit).value
  {
    var candidates := IndexCandidates(params, current, user, db, range);
    var page := Index(params, current, user, db, range, limit).value;
    IndexQualifies(params, current, user, db, range, a);
    assert |multiset(page)| == |multiset(candidates)|;
    assert multiset(page) == multiset(candidates) by {
      MultisetSubsetSameSize(multiset(page), multiset(candidates));
    }
    assert a in multiset(candidates);
  }

  lemma MultisetSubsetSameSize(small: multiset<Activity>, big: multiset<Activity>)
    requires small <= big && |small| == |big|
    ensures small == big
  {
    var rest := big - small;
    assert big == small + rest;
    assert |rest| == 0;
  }

  /** Candidates drawn from a table with unique ids have ids that determine them. */
  lemma CandidatesIdsDetermine(db: Db, conds: seq<Condition>, range: int -> bool, me: int)
    requires UniqueIds(db.activities)
    ensures IdsDetermine(Candidates(db, conds, range, me))
  {
    var c := Candidates(db, conds, range, me);
    forall i, j | 0 <= i < |c| && 0 <= j < |c| && c[i].id == c[j].id ensures c[i] == c[j] {
      CandidateMembership(db, conds, range, me, c[i]);
      CandidateMembership(db, conds, range, me, c[j]);
      var x :| 0 <= x < |db.activities| && db.activities[x] == c[i];
      var y :| 0 <= y < |db.activities| && db.activities[y] == c[j];
    }
  }

  /**
   * With unique activity ids, the page is the one and only first page of the
   * candidates: any sequence that is sorted, drawn from the candidates, as
   * long as the limit allows and skips nothing is exactly what `index`
   * returns. Repeating a request on unchanged data gives the same page.
   */
  lemma IndexIsTheFirstPage(params: IndexParams, current: Option<Project>, user: User, db: Db,
                            range: int -> bool, limit: nat, page: seq<Activity>)
    requires UniqueIds(db.activities)
    requires Index(params, current, user, db, range, limit).Success?
    requires IsFirstPage(page, IndexCandidates(params, current, user, db, range), limit)
    ensures page == Index(params, current, user, db, range, limit).value
  {
    CandidatesIdsDetermine(db, ApiScope(params, current, user), range, user.id);
    FirstPageUnique(page, Index(params, current, user, db, range, limit).value,
                    IndexCandidates(params, current, user, db, range), limit);
  }

  /** With unique ids, `show` returns the activity with the requested id
      whenever it lies in one of the user's projects, whatever `project_id` says. */
  lemma ShowFindsOwnActivity(params: ShowParams, current: Option<Project>, user: User, db: Db, a: Activity)
    requires UniqueIds(db.activities)
    requires a in db.activities && a.id == params.id && a.projectId in user.projectIds
    ensures Show(params, current, user, db) == Success(a)
  {
  }
}
