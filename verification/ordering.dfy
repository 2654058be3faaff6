/**
 * `order('activities.id DESC').limit(n)`: a descending sort by activity id
 * followed by a take, and the declarative "first page" property the pair
 * establishes.
 */
module Ordering {
  import opened Records

  /** Non-increasing ids. The join can repeat an activity, so equal ids are allowed. */
  predicate SortedDesc(s: seq<Activity>)
  {
    forall i, j :: 0 <= i < j < |s| ==> s[i].id >= s[j].id
  }

  /** Prepending an element no smaller than every element keeps a sequence sorted. */
  lemma PrependSorted(y: Activity, rest: seq<Activity>)
    requires SortedDesc(rest)
    requires forall k :: 0 <= k < |rest| ==> rest[k].id <= y.id
    ensures SortedDesc([y] + rest)
  {
    var r := [y] + rest;
    forall i, j | 0 <= i < j < |r| ensures r[i].id >= r[j].id {
      assert r[j] == rest[j - 1];
      if i > 0 { assert r[i] == rest[i - 1]; }
    }
  }

  /** Elements drawn from `x` or a sorted tail of `s` are bounded by s[0] when x is. */
  lemma BoundedByHead(x: Activity, s: seq<Activity>, rest: seq<Activity>)
    requires |s| > 0 && SortedDesc(s) && x.id < s[0].id
    requires multiset(rest) == multiset(s[1..]) + multiset{x}
    ensures forall k :: 0 <= k < |rest| ==> rest[k].id <= s[0].id
  {
    forall k | 0 <= k < |rest| ensures rest[k].id <= s[0].id {
      assert rest[k] in multiset(rest);
      if rest[k] != x {
        var j :| 0 <= j < |s[1..]| && s[1..][j] == rest[k];
        assert s[j + 1] == rest[k];
      }
    }
  }

  function Insert(x: Activity, s: seq<Activity>): (r: seq<Activity>)
    requires SortedDesc(s)
    ensures SortedDesc(r)
    ensures multiset(r) == multiset(s) + multiset{x}
  {
    if |s| == 0 then [x]
    else if x.id >= s[0].id then
      PrependSorted(x, s);
      [x] + s
    else
      var rest := Insert(x, s[1..]);
      BoundedByHead(x, s, rest);
      PrependSorted(s[0], rest);
      assert s == [s[0]] + s[1..];
      [s[0]] + rest
  }

  /** Insertion sort, most recent (highest id) first. */
  function SortDesc(s: seq<Activity>): (r: seq<Activity>)
    ensures SortedDesc(r)
    ensures multiset(r) == multiset(s)
  {
    if |s| == 0 then []
    else
      assert s == [s[0]] + s[1..];
      Insert(s[0], SortDesc(s[1..]))
  }

  function Min(a: nat, b: nat): nat
  {
    if a <= b then a else b
  }

  /** The SQL LIMIT: the first `limit` elements, or all of them when fewer. */
  function Take(s: seq<Activity>, limit: nat): seq<Activity>
  {
    s[..Min(limit, |s|)]
  }

  /**
   * `page` is the first page of `limit` rows of `candidates` in descending id
   * order: it is sorted, it is drawn from the candidates (with multiplicity),
   * it is as long as the limit allows, and every candidate left out comes no
   * earlier than the last row returned.
   */
  predicate IsFirstPage(page: seq<Activity>, candidates: seq<Activity>, limit: nat)
  {
    && SortedDesc(page)
    && multiset(page) <= multiset(candidates)
    && |page| == Min(limit, |candidates|)
    && SkipsNothing(page, candidates)
  }

  /** Every candidate the page leaves out (counting copies) comes no earlier
      than the page's last row. */
  predicate SkipsNothing(page: seq<Activity>, candidates: seq<Activity>)
  {
    |page| > 0 ==>
      forall x :: x in candidates && multiset(page)[x] < multiset(candidates)[x] ==> x.id <= page[|page| - 1].id
  }

  /** An element a sorted sequence holds more often than its prefix of length
      `k` sits at or after position `k`, so its id is at most that of s[k-1]. */
  lemma LeftoverComesLater(s: seq<Activity>, k: nat, x: Activity)
    requires SortedDesc(s) && 0 < k <= |s|
    requires multiset(s[..k])[x] < multiset(s)[x]
    ensures x.id <= s[k - 1].id
  {
    assert s == s[..k] + s[k..];
    assert multiset(s) == multiset(s[..k]) + multiset(s[k..]);
    assert x in multiset(s[k..]);
    var j :| 0 <= j < |s[k..]| && s[k..][j] == x;
    assert s[k + j] == x;
  }

  lemma MultisetSplit(s: seq<Activity>, i: nat)
    requires i <= |s|
    ensures multiset(s) == multiset(s[..i]) + multiset(s[i..])
  {
    assert s == s[..i] + s[i..];
  }

  /** A prefix of a sorted arrangement of the candidates is their first page. */
  lemma {:induction false} SortedPrefixIsFirstPage(s: seq<Activity>, candidates: seq<Activity>, limit: nat)
    requires SortedDesc(s) && multiset(s) == multiset(candidates)
    ensures IsFirstPage(Take(s, limit), candidates, limit)
  {
    var k := Min(limit, |s|);
    var page := s[..k];
    assert |candidates| == |s| by {
      assert |multiset(candidates)| == |candidates| && |multiset(s)| == |s|;
    }
    MultisetSplit(s, k);
    assert multiset(page) <= multiset(candidates);
    assert SortedDesc(page);
    assert SkipsNothing(page, candidates) by {
      if k > 0 {
        forall x | x in candidates && multiset(page)[x] < multiset(candidates)[x] ensures x.id <= page[k - 1].id {
          LeftoverComesLater(s, k, x);
        }
      }
    }
    assert Take(s, limit) == page;
  }

  /** Sorting and then taking yields the first page. */
  lemma SortThenTakeIsFirstPage(candidates: seq<Activity>, limit: nat)
    ensures IsFirstPage(Take(SortDesc(candidates), limit), candidates, limit)
  {
    SortedPrefixIsFirstPage(SortDesc(candidates), candidates, limit);
  }

  /** Every id of `s` determines its activity, as the primary key guarantees. */
  predicate IdsDetermine(s: seq<Activity>)
  {
    forall i, j :: 0 <= i < |s| && 0 <= j < |s| && s[i].id == s[j].id ==> s[i] == s[j]
  }

  /** Where page `p` is drawn from the candidates and page `q` agrees with it
      before position `i`, sorted and skipping nothing, q's row at `i` has at
      least the id of p's. */
  lemma NotLargerAtSamePosition(p: seq<Activity>, q: seq<Activity>, candidates: seq<Activity>, i: nat)
    requires multiset(p) <= multiset(candidates)
    requires SortedDesc(q) && SkipsNothing(q, candidates)
    requires i < |p| && i < |q| && p[..i] == q[..i]
    ensures p[i].id <= q[i].id
  {
    var x := p[i];
    MultisetSplit(p, i);
    MultisetSplit(q, i);
    assert p[i..][0] == x;
    assert multiset(p[..i])[x] < multiset(p)[x];
    if x in multiset(q[i..]) {
      var j :| 0 <= j < |q[i..]| && q[i..][j] == x;
      assert q[i + j] == x;
    } else {
      assert multiset(q)[x] < multiset(candidates)[x];
      assert x in candidates;
      assert x.id <= q[|q| - 1].id;
    }
  }

  /** Two first pages that agree before position `i` agree at `i`. */
  lemma SameAtPosition(p: seq<Activity>, q: seq<Activity>, candidates: seq<Activity>, limit: nat, i: nat)
    requires IdsDetermine(candidates)
    requires IsFirstPage(p, candidates, limit) && IsFirstPage(q, candidates, limit)
    requires i < |p| && p[..i] == q[..i]
    ensures p[i] == q[i]
  {
    NotLargerAtSamePosition(p, q, candidates, i);
    NotLargerAtSamePosition(q, p, candidates, i);
    assert p[i] in multiset(candidates) by { assert p[i] in multiset(p); }
    assert q[i] in multiset(candidates) by { assert q[i] in multiset(q); }
    var a :| 0 <= a < |candidates| && candidates[a] == p[i];
    var b :| 0 <= b < |candidates| && candidates[b] == q[i];
  }

  /** Sequences of equal length that agree at every position where they agree
      on all earlier positions are equal up to `k`. */
  lemma {:induction false} PrefixesAgree(p: seq<Activity>, q: seq<Activity>, k: nat)
    requires |p| == |q| && k <= |p|
    requires forall i :: 0 <= i < |p| && p[..i] == q[..i] ==> p[i] == q[i]
    ensures p[..k] == q[..k]
  {
    if k > 0 {
      PrefixesAgree(p, q, k - 1);
      assert p[..k] == p[..k - 1] + [p[k - 1]];
      assert q[..k] == q[..k - 1] + [q[k - 1]];
    }
  }

  /**
   * The first page is unique when ids determine activities: the query result
   * does not depend on how ties are broken or which sort produced it.
   */
  lemma FirstPageUnique(p: seq<Activity>, q: seq<Activity>, candidates: seq<Activity>, limit: nat)
    requires IdsDetermine(candidates)
    requires IsFirstPage(p, candidates, limit) && IsFirstPage(q, candidates, limit)
    ensures p == q
  {
    forall i | 0 <= i < |p| && p[..i] == q[..i] ensures p[i] == q[i] {
      SameAtPosition(p, q, candidates, limit, i);
    }
    PrefixesAgree(p, q, |p|);
    assert p == p[..|p|] && q == q[..|q|];
  }
}
