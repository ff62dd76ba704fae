/**
 * The two list operations both template algorithms start from: keeping the
 * active templates, and the stable sort by creation time, newest first
 * (`(a, b) => b.createdAt - a.createdAt` with ECMAScript's stable
 * `Array.prototype.sort`).  Every stable sort by that comparator produces
 * the same list, so the sort is specified by a reference insertion sort.
 */
module TemplateOrder {
  import opened Schedule
  import opened TemplateUtils

  /** Non-increasing creation times. */
  predicate NewestFirst(ts: seq<TimeSlotTemplate>)
  {
    forall i, j :: 0 <= i < j < |ts| ==> ts[i].createdAt >= ts[j].createdAt
  }

  /** The templates created at time `k`, in list order. */
  function CreatedAt(ts: seq<TimeSlotTemplate>, k: int): (r: seq<TimeSlotTemplate>)
    ensures forall t :: t in r <==> t in ts && t.createdAt == k
  {
    if ts == [] then []
    else
      var rest := CreatedAt(ts[..|ts| - 1], k);
      assert forall t :: t in ts <==> t in ts[..|ts| - 1] || t == ts[|ts| - 1];
      if ts[|ts| - 1].createdAt == k then rest + [ts[|ts| - 1]] else rest
  }

  /** `x` goes after every template at least as new as itself, and before the first older one. */
  function InsertByAge(x: TimeSlotTemplate, sorted: seq<TimeSlotTemplate>): (r: seq<TimeSlotTemplate>)
    ensures multiset(r) == multiset(sorted) + multiset{x}
  {
    if sorted == [] then [x]
    else if sorted[0].createdAt >= x.createdAt then
      assert sorted == [sorted[0]] + sorted[1..];
      [sorted[0]] + InsertByAge(x, sorted[1..])
    else [x] + sorted
  }

  /** Inserting into a newest-first list keeps it newest first. */
  lemma {:induction false} InsertByAgeSorted(x: TimeSlotTemplate, sorted: seq<TimeSlotTemplate>)
    requires NewestFirst(sorted)
    ensures NewestFirst(InsertByAge(x, sorted))
    decreases |sorted|
  {
    if sorted != [] && sorted[0].createdAt >= x.createdAt {
      var rest := InsertByAge(x, sorted[1..]);
      InsertByAgeSorted(x, sorted[1..]);
      forall t | t in rest ensures sorted[0].createdAt >= t.createdAt {
        assert t in multiset(rest);
        assert t in sorted[1..] || t == x;
      }
      NewestFirstCons(sorted[0], rest);
    }
  }

  /** A template at least as new as every template of a newest-first list can go in front. */
  lemma NewestFirstCons(x: TimeSlotTemplate, ts: seq<TimeSlotTemplate>)
    requires NewestFirst(ts) && forall t :: t in ts ==> x.createdAt >= t.createdAt
    ensures NewestFirst([x] + ts)
  {
    var r := [x] + ts;
    forall i, j | 0 <= i < j < |r| ensures r[i].createdAt >= r[j].createdAt {
      assert r[j] == ts[j - 1];
      if i > 0 {
        assert r[i] == ts[i - 1];
      }
    }
  }

  /** The sort: newest first, a permutation of the input. */
  function SortNewestFirst(ts: seq<TimeSlotTemplate>): (r: seq<TimeSlotTemplate>)
    ensures multiset(r) == multiset(ts)
    ensures |r| == |ts|
    ensures NewestFirst(r)
  {
    if ts == [] then []
    else
      assert ts == ts[..|ts| - 1] + [ts[|ts| - 1]];
      var sortedInit := SortNewestFirst(ts[..|ts| - 1]);
      InsertByAgeSorted(ts[|ts| - 1], sortedInit);
      var r := InsertByAge(ts[|ts| - 1], sortedInit);
      assert |r| == |multiset(r)|;
      r
  }

  /** Inserting `x` into a sorted list appends it to the templates of its own creation time. */
  lemma {:induction false} InsertByAgeStable(x: TimeSlotTemplate, sorted: seq<TimeSlotTemplate>, k: int)
    requires NewestFirst(sorted)
    ensures CreatedAt(InsertByAge(x, sorted), k) == CreatedAt(sorted, k) + (if x.createdAt == k then [x] else [])
    decreases |sorted|
  {
    if sorted == [] {
    } else if sorted[0].createdAt >= x.createdAt {
      InsertByAgeStable(x, sorted[1..], k);
      CreatedAtCons(sorted[0], sorted[1..], k);
      CreatedAtCons(sorted[0], InsertByAge(x, sorted[1..]), k);
      assert sorted == [sorted[0]] + sorted[1..];
    } else {
      // every template of `sorted` is older than `x`
      if x.createdAt == k {
        assert CreatedAt(sorted, k) == [] by {
          CreatedAtNone(sorted, k);
        }
      }
      CreatedAtCons(x, sorted, k);
    }
  }

  /** `CreatedAt` of a list with one more template in front. */
  lemma {:induction false} CreatedAtCons(x: TimeSlotTemplate, ts: seq<TimeSlotTemplate>, k: int)
    ensures CreatedAt([x] + ts, k) == (if x.createdAt == k then [x] else []) + CreatedAt(ts, k)
    decreases |ts|
  {
    var s := [x] + ts;
    if ts != [] {
      assert s[..|s| - 1] == [x] + ts[..|ts| - 1];
      assert s[|s| - 1] == ts[|ts| - 1];
      CreatedAtCons(x, ts[..|ts| - 1], k);
    } else {
      assert s[..|s| - 1] == [];
    }
  }

  /** A list none of whose templates has creation time `k` has none to report. */
  lemma {:induction false} CreatedAtNone(ts: seq<TimeSlotTemplate>, k: int)
    requires forall i :: 0 <= i < |ts| ==> ts[i].createdAt != k
    ensures CreatedAt(ts, k) == []
    decreases |ts|
  {
    if ts != [] {
      CreatedAtNone(ts[..|ts| - 1], k);
    }
  }

  /** The sort is stable: templates with equal creation times keep their input order. */
  lemma {:induction false} SortStable(ts: seq<TimeSlotTemplate>, k: int)
    ensures CreatedAt(SortNewestFirst(ts), k) == CreatedAt(ts, k)
    decreases |ts|
  {
    if ts != [] {
      var init, last := ts[..|ts| - 1], ts[|ts| - 1];
      SortStable(init, k);
      InsertByAgeStable(last, SortNewestFirst(init), k);
    }
  }

  /** `templates.filter(t => t.active)`. */
  function ActiveOnly(ts: seq<TimeSlotTemplate>): (r: seq<TimeSlotTemplate>)
    ensures forall t :: t in r <==> t in ts && t.active
    ensures Subsequence(r, ts)
    decreases |ts|
  {
    if ts == [] then []
    else
      var rest := ActiveOnly(ts[1..]);
      assert forall t :: t in ts <==> t == ts[0] || t in ts[1..];
      if ts[0].active then
        assert ([ts[0]] + rest)[1..] == rest;
        [ts[0]] + rest
      else rest
  }
}
