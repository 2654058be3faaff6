/**
 * `api_scope`: the exact-match conditions the index query starts from. The
 * source assembles a hash column => value from the optional request
 * parameters; here it is a sequence of conditions, one per present parameter,
 * and an activity passes when every condition holds.
 */
module Scope {
  import opened Wrappers
  import opened Records

  /** The request parameters `index` reads. `projectId` is the raw permalink;
      only whether it was given matters to the core. */
  datatype IndexParams = IndexParams(
    projectId: Option<string>,
    userId: Option<int>,
    targetType: Option<string>,
    targetId: Option<int>,
    commentTargetType: Option<string>,
    commentTargetId: Option<int>
  )

  /** One entry of the conditions hash. `ProjectIn` is the `project_id` key,
      whose value is a single id or a list of ids. */
  datatype Condition =
    | ProjectIn(projects: set<int>)
    | UserIs(userId: int)
    | TargetTypeIs(targetType: string)
    | TargetIdIs(targetId: int)
    | CommentTargetTypeIs(commentTargetType: string)
    | CommentTargetIdIs(commentTargetId: int)

  /** SQL equality against a nullable column is never true for NULL. */
  predicate Holds(c: Condition, a: Activity)
  {
    match c
    case ProjectIn(ps) => a.projectId in ps
    case UserIs(u) => a.userId == u
    case TargetTypeIs(t) => a.targetType == t
    case TargetIdIs(t) => a.targetId == t
    case CommentTargetTypeIs(t) => a.commentTargetType == Some(t)
    case CommentTargetIdIs(t) => a.commentTargetId == Some(t)
  }

  predicate Satisfies(conds: seq<Condition>, a: Activity)
  {
    forall i :: 0 <= i < |conds| ==> Holds(conds[i], a)
  }

  /** The projects the feed is restricted to: the current project alone when
      one was resolved, otherwise every project of the user. */
  function ScopedProjects(current: Option<Project>, user: User): set<int>
  {
    match current
    case Some(p) => {p.id}
    case None => user.projectIds
  }

  /** Equality with the parameter when it is present; no constraint when absent. */
  predicate MatchesIfGiven<T(==)>(given: Option<T>, actual: T)
  {
    given.None? || actual == given.value
  }

  /** Same, against a nullable column: a present parameter never matches NULL. */
  predicate MatchesNullableIfGiven<T(==)>(given: Option<T>, actual: Option<T>)
  {
    given.None? || actual == Some(given.value)
  }

  /** The five optional filters of the index request, field by field. */
  predicate MatchesFilters(params: IndexParams, a: Activity)
  {
    && MatchesIfGiven(params.userId, a.userId)
    && MatchesIfGiven(params.targetType, a.targetType)
    && MatchesIfGiven(params.targetId, a.targetId)
    && MatchesNullableIfGiven(params.commentTargetType, a.commentTargetType)
    && MatchesNullableIfGiven(params.commentTargetId, a.commentTargetId)
  }

  lemma SatisfiesAppend(xs: seq<Condition>, ys: seq<Condition>)
    ensures forall a :: Satisfies(xs + ys, a) <==> Satisfies(xs, a) && Satisfies(ys, a)
  {
    forall a ensures Satisfies(xs + ys, a) <==> Satisfies(xs, a) && Satisfies(ys, a) {
      if Satisfies(xs, a) && Satisfies(ys, a) {
        forall i | 0 <= i < |xs + ys| ensures Holds((xs + ys)[i], a) {
          if i >= |xs| { assert (xs + ys)[i] == ys[i - |xs|]; }
        }
      }
      if Satisfies(xs + ys, a) {
        forall i | 0 <= i < |xs| ensures Holds(xs[i], a) {
          assert (xs + ys)[i] == xs[i];
        }
        forall i | 0 <= i < |ys| ensures Holds(ys[i], a) {
          assert (xs + ys)[|xs| + i] == ys[i];
        }
      }
    }
  }

  /** The condition an optional parameter contributes: none when it is nil. */
  function OptionalCondition<T>(given: Option<T>, make: T -> Condition): (conds: seq<Condition>)
    ensures forall a :: Satisfies(conds, a) <==> given.None? || Holds(make(given.value), a)
  {
    match given
    case Some(v) =>
      assert forall a :: Satisfies([make(v)], a) <==> Holds([make(v)][0], a);
      [make(v)]
    case None => []
  }

  /**
   * The conditions hash of `api_scope`. The project condition is always
   * present; each filter parameter adds one condition only when non-nil.
   */
  function ApiScope(params: IndexParams, current: Option<Project>, user: User): (conds: seq<Condition>)
    ensures |conds| >= 1 && conds[0] == ProjectIn(ScopedProjects(current, user))
    ensures forall a :: Satisfies(conds, a) <==>
      a.projectId in ScopedProjects(current, user) && MatchesFilters(params, a)
  {
    var byProject := [ProjectIn(ScopedProjects(current, user))];
    var byUser := OptionalCondition(params.userId, u => UserIs(u));
    var byTargetType := OptionalCondition(params.targetType, t => TargetTypeIs(t));
    var byTargetId := OptionalCondition(params.targetId, t => TargetIdIs(t));
    var byCommentTargetType := OptionalCondition(params.commentTargetType, t => CommentTargetTypeIs(t));
    var byCommentTargetId := OptionalCondition(params.commentTargetId, t => CommentTargetIdIs(t));
    SatisfiesAppend(byProject, byUser);
    SatisfiesAppend(byProject + byUser, byTargetType);
    SatisfiesAppend(byProject + byUser + byTargetType, byTargetId);
    SatisfiesAppend(byProject + byUser + byTargetType + byTargetId, byCommentTargetType);
    SatisfiesAppend(byProject + byUser + byTargetType + byTargetId + byCommentTargetType, byCommentTargetId);
    byProject + byUser + byTargetType + byTargetId + byCommentTargetType + byCommentTargetId
  }
}
