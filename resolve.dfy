/**
 * `resolveTemplates`: the range-level shadowing pass.  Templates are sorted
 * newest first; walking that list, an active template is kept unless an
 * already kept template's range contains its whole range.  Missing bounds
 * read as 1900-01-01 and 2100-01-01 here, not as the defaults generation
 * uses.
 */
module Resolve {
  import opened Dates
  import opened Schedule
  import opened TemplateOrder
  import opened TemplateUtils

  /** The start bound the pass compares, 1900-01-01 when missing. */
  function ResolveStart(t: TimeSlotTemplate): (d: Day)
    ensures t.startDate.None? ==> d == Jan1st1900
    ensures t.startDate.Some? ==> d == t.startDate.value
  {
    match t.startDate
    case Some(s) => s
    case None => Jan1st1900
  }

  /** The end bound the pass compares, 2100-01-01 when missing. */
  function ResolveEnd(t: TimeSlotTemplate): (d: Day)
    ensures t.endDate.None? ==> d == Jan1st2100
    ensures t.endDate.Some? ==> d == t.endDate.value
  {
    match t.endDate
    case Some(e) => e
    case None => Jan1st2100
  }

  /** The `some` callback: an active kept template whose range contains the candidate's. */
  predicate Covers(resolved: TimeSlotTemplate, t: TimeSlotTemplate)
  {
    resolved.active && ResolveStart(resolved) <= ResolveStart(t) && ResolveEnd(resolved) >= ResolveEnd(t)
  }

  /** Covering is reflexive on active templates and transitive. */
  lemma CoversPreorder(a: TimeSlotTemplate, b: TimeSlotTemplate, c: TimeSlotTemplate)
    ensures Covers(a, a) <==> a.active
    ensures Covers(a, b) && Covers(b, c) ==> Covers(a, c)
  {
  }

  /** `resolvedTemplates.some(...)`. */
  function IsOverridden(kept: seq<TimeSlotTemplate>, t: TimeSlotTemplate): (r: bool)
    ensures r <==> exists i :: 0 <= i < |kept| && Covers(kept[i], t)
  {
    if kept == [] then false
    else
      assert forall i :: 1 <= i < |kept| ==> kept[i] == kept[1..][i - 1];
      Covers(kept[0], t) || IsOverridden(kept[1..], t)
  }

  /** The list the loop has built after visiting `s`, a prefix of the sorted templates. */
  function Resolved(s: seq<TimeSlotTemplate>): (r: seq<TimeSlotTemplate>)
    ensures forall t :: t in r ==> t in s && t.active
    ensures forall i, j :: 0 <= i < j < |r| ==> !Covers(r[i], r[j])
    ensures Subsequence(r, s)
  {
    if s == [] then []
    else
      var kept := Resolved(s[..|s| - 1]);
      var t := s[|s| - 1];
      assert forall u :: u in s[..|s| - 1] ==> u in s;
      assert s == s[..|s| - 1] + [t];
      SubsequenceSnoc(kept, s[..|s| - 1], t);
      if !t.active || IsOverridden(kept, t) then kept else kept + [t]
  }

  /** Kept templates stay kept: the result for a prefix is a prefix of the result. */
  lemma {:induction false} ResolvedPrefix(s: seq<TimeSlotTemplate>, n: nat)
    requires n <= |s|
    ensures Resolved(s[..n]) <= Resolved(s)
    decreases |s| - n
  {
    if n < |s| {
      ResolvedPrefix(s[..|s| - 1], n);
      assert s[..|s| - 1][..n] == s[..n];
    } else {
      assert s[..n] == s;
    }
  }

  /** Every active template is kept or covered by a kept one. */
  lemma {:induction false} ResolvedCovers(s: seq<TimeSlotTemplate>)
    ensures forall t :: t in s && t.active ==> t in Resolved(s) || IsOverridden(Resolved(s), t)
    decreases |s|
  {
    if s != [] {
      var init := s[..|s| - 1];
      ResolvedCovers(init);
      var kept, r, last := Resolved(init), Resolved(s), s[|s| - 1];
      assert r == if !last.active || IsOverridden(kept, last) then kept else kept + [last];
      assert kept <= r;
      forall t | t in init && t.active ensures t in r || IsOverridden(r, t) {
        KeptStaysKept(kept, r, t);
      }
      assert forall t :: t in s ==> t in init || t == last;
    }
  }

  /** A template kept or covered by a prefix of the kept list stays so in the whole list. */
  lemma KeptStaysKept(kept: seq<TimeSlotTemplate>, r: seq<TimeSlotTemplate>, t: TimeSlotTemplate)
    requires kept <= r
    requires t in kept || IsOverridden(kept, t)
    ensures t in r || IsOverridden(r, t)
  {
    if t !in kept {
      var i :| 0 <= i < |kept| && Covers(kept[i], t);
      assert Covers(r[i], t);
    }
  }

  /** On a newest-first list the kept templates are newest first too. */
  lemma {:induction false} ResolvedNewestFirst(s: seq<TimeSlotTemplate>)
    requires NewestFirst(s)
    ensures NewestFirst(Resolved(s))
    decreases |s|
  {
    if s != [] {
      var init := s[..|s| - 1];
      assert NewestFirst(init);
      ResolvedNewestFirst(init);
      var kept := Resolved(init);
      forall u | u in kept ensures u.createdAt >= s[|s| - 1].createdAt {
        var j :| 0 <= j < |init| && init[j] == u;
      }
    }
  }

  /** The first active template of the list is always kept, in front. */
  lemma {:induction false} ResolvedHead(s: seq<TimeSlotTemplate>, k: nat)
    requires k < |s| && s[k].active && forall i :: 0 <= i < k ==> !s[i].active
    ensures Resolved(s) != [] && Resolved(s)[0] == s[k]
    decreases |s|
  {
    if |s| - 1 > k {
      ResolvedHead(s[..|s| - 1], k);
      ResolvedPrefix(s, |s| - 1);
    } else {
      ResolvedNone(s[..k]);
      assert s[..|s| - 1] == s[..k];
    }
  }

  /** Without active templates nothing is kept. */
  lemma {:induction false} ResolvedNone(s: seq<TimeSlotTemplate>)
    requires forall i :: 0 <= i < |s| ==> !s[i].active
    ensures Resolved(s) == []
    decreases |s|
  {
    if s != [] {
      ResolvedNone(s[..|s| - 1]);
    }
  }

  /**
   * `resolveTemplates`: the sort, then one pass that skips inactive
   * templates and keeps a template unless a kept template covers it.
   */
  method ResolveTemplates(templates: seq<TimeSlotTemplate>) returns (resolved: seq<TimeSlotTemplate>)
    ensures resolved == Resolved(SortNewestFirst(templates))
    ensures Subsequence(resolved, SortNewestFirst(templates))
    ensures forall t :: t in resolved ==> t in templates && t.active
    ensures NewestFirst(resolved)
    ensures forall i, j :: 0 <= i < j < |resolved| ==> !Covers(resolved[i], resolved[j])
    ensures forall t :: t in templates && t.active ==> t in resolved || IsOverridden(resolved, t)
  {
    var sorted := SortNewestFirst(templates);
    resolved := [];
    for i := 0 to |sorted|
      invariant resolved == Resolved(sorted[..i])
    {
      assert sorted[..i + 1][..i] == sorted[..i];
      var template := sorted[i];
      if !template.active {
        continue;
      }
      var isOverridden := IsOverridden(resolved, template);
      if !isOverridden {
        resolved := resolved + [template];
      }
    }
    assert sorted[..|sorted|] == sorted;
    assert forall t :: t in sorted <==> t in templates by {
      assert forall t :: t in sorted <==> t in multiset(sorted);
    }
    ResolvedNewestFirst(sorted);
    ResolvedCovers(sorted);
  }
}
