/**
 * `generateSlotsFromTemplates`: the per-day materialiser.  For each day of
 * the closed range it picks the newest active template whose effective
 * range contains the day, finds the week pattern by cyclic position from
 * the Monday of the template's effective start, and emits one slot per
 * slot pattern of every day pattern that matches the day.
 */
module Generation {
  import opened Wrappers
  import opened Dates
  import opened Schedule
  import opened Base64
  import opened TemplateUtils
  import opened TemplateOrder

  // ---------------------------------------------------------------------
  // Specification, one day at a time

  /** The template's effective range contains the day (both ends inclusive). */
  predicate Governs(t: TimeSlotTemplate, d: Day, thisYear: Day)
  {
    EffectiveStartDate(t, thisYear) <= d <= EffectiveEndDate(t)
  }

  /** The position of the first template, in list order, whose range contains `d`. */
  function GoverningIndex(active: seq<TimeSlotTemplate>, d: Day, thisYear: Day): (r: Option<nat>)
    decreases |active|
  {
    if active == [] then None
    else if Governs(active[0], d, thisYear) then Some(0)
    else
      match GoverningIndex(active[1..], d, thisYear)
      case None => None
      case Some(i) => Some(i + 1)
  }

  /** `GoverningIndex` finds the first template whose range contains `d`, and none when there is none. */
  lemma {:induction false} GoverningIndexSpec(active: seq<TimeSlotTemplate>, d: Day, thisYear: Day)
    ensures var r := GoverningIndex(active, d, thisYear);
      (r.None? <==> forall j :: 0 <= j < |active| ==> !Governs(active[j], d, thisYear)) &&
      (r.Some? ==> r.value < |active| && Governs(active[r.value], d, thisYear)) &&
      (r.Some? ==> forall j :: 0 <= j < r.value ==> !Governs(active[j], d, thisYear))
    decreases |active|
  {
    if active != [] && !Governs(active[0], d, thisYear) {
      GoverningIndexSpec(active[1..], d, thisYear);
      assert forall j :: 1 <= j < |active| ==> active[j] == active[1..][j - 1];
    }
  }

  /** The first governing template is determined by its two defining properties. */
  lemma GoverningIndexIs(active: seq<TimeSlotTemplate>, d: Day, thisYear: Day, i: nat)
    requires i < |active| && Governs(active[i], d, thisYear)
    requires forall j :: 0 <= j < i ==> !Governs(active[j], d, thisYear)
    ensures GoverningIndex(active, d, thisYear) == Some(i)
  {
    GoverningIndexSpec(active, d, thisYear);
    var r := GoverningIndex(active, d, thisYear);
    assert r.Some?;
    assert !(r.value < i);
    assert !(i < r.value);
  }

  /** With no template whose range contains `d` there is no governing template. */
  lemma GoverningIndexNone(active: seq<TimeSlotTemplate>, d: Day, thisYear: Day)
    requires forall j :: 0 <= j < |active| ==> !Governs(active[j], d, thisYear)
    ensures GoverningIndex(active, d, thisYear) == None
  {
    GoverningIndexSpec(active, d, thisYear);
  }

  /** Weeks are counted from the Monday of the template's effective start. */
  function WeekAnchor(t: TimeSlotTemplate, thisYear: Day): (monday: Day)
    ensures Weekday(monday) == 1
    ensures monday <= EffectiveStartDate(t, thisYear) < monday + 7
  {
    StartOfWeek(EffectiveStartDate(t, thisYear))
  }

  /** `weeks[weekIndex]`, absent for the NaN index of an empty list and for a negative index. */
  function WeekPatternFor(t: TimeSlotTemplate, d: Day, thisYear: Day): (r: Option<WeekPattern>)
    ensures r.Some? ==> r.value in t.weeks
  {
    match GetWeekIndex(d, WeekAnchor(t, thisYear), |t.weeks|)
    case None => None
    case Some(w) => if 0 <= w < |t.weeks| then Some(t.weeks[w]) else None
  }

  /** The slot a slot pattern yields on a day. */
  function MakeSlot(t: TimeSlotTemplate, d: Day, sp: SlotPattern): (s: TimeSlot)
    ensures s.templateId == t.id && s.date == d && !s.isBooked
    ensures s.startDate == Stamp(d, sp.start.hour, sp.start.minute)
    ensures s.endDate == Stamp(d, sp.end.hour, sp.end.minute)
    ensures s.id == StableAnchorId(t.id, d, sp.id)
  {
    TimeSlot(StableAnchorId(t.id, d, sp.id), t.id, false,
      Stamp(d, sp.start.hour, sp.start.minute), Stamp(d, sp.end.hour, sp.end.minute), d)
  }

  /** The slots of a list of slot patterns, in order. */
  function PatternSlots(t: TimeSlotTemplate, d: Day, sps: seq<SlotPattern>): (r: seq<TimeSlot>)
    ensures |r| == |sps|
  {
    if sps == [] then []
    else PatternSlots(t, d, sps[..|sps| - 1]) + [MakeSlot(t, d, sps[|sps| - 1])]
  }

  /** The slots of a slot-pattern list belong to `t` and `d` and are unbooked. */
  lemma {:induction false} PatternSlotsOf(t: TimeSlotTemplate, d: Day, sps: seq<SlotPattern>)
    ensures SlotsOf(PatternSlots(t, d, sps), t.id, d)
    decreases |sps|
  {
    if sps != [] {
      var init := sps[..|sps| - 1];
      PatternSlotsOf(t, d, init);
      var s := MakeSlot(t, d, sps[|sps| - 1]);
      assert s.templateId == t.id && s.date == d && !s.isBooked;
      assert PatternSlots(t, d, sps) == PatternSlots(t, d, init) + [s];
      ConcatSlotsOf(PatternSlots(t, d, init), [s], t.id, d);
    }
  }

  /** Slots made for template `t` on day `d`, unbooked. */
  predicate SlotsOf(r: seq<TimeSlot>, id: string, d: Day)
  {
    forall i :: 0 <= i < |r| ==> r[i].templateId == id && r[i].date == d && !r[i].isBooked
  }

  /** The slots of a list of day patterns: each day pattern's slots in turn. */
  function DayPatternsSlots(t: TimeSlotTemplate, d: Day, dps: seq<DayPattern>): (r: seq<TimeSlot>)
  {
    if dps == [] then []
    else DayPatternsSlots(t, d, dps[..|dps| - 1]) + PatternSlots(t, d, dps[|dps| - 1].slots)
  }

  /** Every slot of a day-pattern list belongs to `t` and `d` and is unbooked. */
  lemma {:induction false} DayPatternsSlotsOf(t: TimeSlotTemplate, d: Day, dps: seq<DayPattern>)
    ensures SlotsOf(DayPatternsSlots(t, d, dps), t.id, d)
    decreases |dps|
  {
    if dps != [] {
      DayPatternsSlotsOf(t, d, dps[..|dps| - 1]);
      var a, b := DayPatternsSlots(t, d, dps[..|dps| - 1]), PatternSlots(t, d, dps[|dps| - 1].slots);
      PatternSlotsOf(t, d, dps[|dps| - 1].slots);
      ConcatSlotsOf(a, b, t.id, d);
    }
  }

  lemma ConcatSlotsOf(a: seq<TimeSlot>, b: seq<TimeSlot>, id: string, d: Day)
    requires SlotsOf(a, id, d) && SlotsOf(b, id, d)
    ensures SlotsOf(a + b, id, d)
  {
    var r := a + b;
    assert forall i :: 0 <= i < |r| ==> r[i] == if i < |a| then a[i] else b[i - |a|];
  }

  /** The slots generated for one day. */
  function DaySlots(active: seq<TimeSlotTemplate>, d: Day, thisYear: Day): (r: seq<TimeSlot>)
  {
    match GoverningIndex(active, d, thisYear)
    case None => []
    case Some(g) =>
      if g < |active| then
        match WeekPatternFor(active[g], d, thisYear)
        case None => []
        case Some(wp) => DayPatternsSlots(active[g], d, FindApplicableDayPatterns(d, wp))
      else []
  }

  /** A day's slots are dated that day, unbooked, and carry the id of the day's governing template. */
  lemma DaySlotsFacts(active: seq<TimeSlotTemplate>, d: Day, thisYear: Day)
    ensures DaySlots(active, d, thisYear) != [] ==>
      GoverningIndex(active, d, thisYear).Some? && GoverningIndex(active, d, thisYear).value < |active| &&
      SlotsOf(DaySlots(active, d, thisYear), active[GoverningIndex(active, d, thisYear).value].id, d)
  {
    match GoverningIndex(active, d, thisYear)
    case None =>
    case Some(g) =>
      if g < |active| {
        match WeekPatternFor(active[g], d, thisYear)
        case None =>
        case Some(wp) => DayPatternsSlotsOf(active[g], d, FindApplicableDayPatterns(d, wp));
      }
  }

  /** The slots of the days `first` to `last`, both included, day by day. */
  function SlotsBetween(active: seq<TimeSlotTemplate>, first: Day, last: Day, thisYear: Day): (r: seq<TimeSlot>)
    decreases last - first + 1
  {
    if last < first then []
    else
      var before := SlotsBetween(active, first, last - 1, thisYear);
      before + DaySlots(active, last, thisYear)
  }

  /** What generation returns: the days of the range over the active templates, newest first. */
  function GeneratedSlots(templates: seq<TimeSlotTemplate>, startDate: Day, endDate: Day, thisYear: Day): (r: seq<TimeSlot>)
  {
    SlotsBetween(SortNewestFirst(ActiveOnly(templates)), startDate, endDate, thisYear)
  }

  // ---------------------------------------------------------------------
  // The algorithm

  /**
   * `generateSlotsFromTemplates`: a `while` loop over the days; per day, a
   * search loop with `break` for the governing template and two nested
   * `for` loops over day patterns and slot patterns (the loop body and its
   * two inner stages are the methods below).  `thisYear` is the first day
   * of the current year, the only reading of the clock generation makes.
   */
  method GenerateSlotsFromTemplates(templates: seq<TimeSlotTemplate>, startDate: Day, endDate: Day, thisYear: Day)
    returns (slots: seq<TimeSlot>)
    ensures slots == GeneratedSlots(templates, startDate, endDate, thisYear)
    ensures UnbookedInOrder(slots, startDate, endDate)
  {
    var activeTemplates := SortNewestFirst(ActiveOnly(templates));
    if |activeTemplates| == 0 {
      NoActiveNoSlots(startDate, endDate, thisYear);
      SlotsBetweenOrdered(activeTemplates, startDate, endDate, thisYear);
      return [];
    }
    slots := GenerateDays(activeTemplates, startDate, endDate, thisYear);
    SlotsBetweenOrdered(activeTemplates, startDate, endDate, thisYear);
  }

  /** The day loop over the sorted active templates. */
  method GenerateDays(activeTemplates: seq<TimeSlotTemplate>, startDate: Day, endDate: Day, thisYear: Day)
    returns (slots: seq<TimeSlot>)
    ensures slots == SlotsBetween(activeTemplates, startDate, endDate, thisYear)
  {
    slots := [];
    var currentDate := startDate;
    if endDate < startDate {
      return;
    }
    while currentDate <= endDate
      invariant startDate <= currentDate <= endDate + 1
      invariant slots == SlotsBetween(activeTemplates, startDate, currentDate - 1, thisYear)
      decreases endDate - currentDate
    {
      var daySlots := GenerateDay(activeTemplates, currentDate, thisYear);
      SlotsBetweenExtend(activeTemplates, startDate, currentDate, thisYear, slots, daySlots);
      slots := slots + daySlots;
      currentDate := currentDate + 1;
    }
    SlotsBetweenDone(activeTemplates, startDate, currentDate, endDate, thisYear);
  }

  /** When the day loop stops, it has covered the whole range. */
  lemma SlotsBetweenDone(active: seq<TimeSlotTemplate>, first: Day, d: Day, last: Day, thisYear: Day)
    requires d - 1 == last
    ensures SlotsBetween(active, first, d - 1, thisYear) == SlotsBetween(active, first, last, thisYear)
  {
  }

  /** The body of the day loop; each `continue` of the source is an early return with no slots. */
  method GenerateDay(activeTemplates: seq<TimeSlotTemplate>, currentDate: Day, thisYear: Day)
    returns (slots: seq<TimeSlot>)
    ensures slots == DaySlots(activeTemplates, currentDate, thisYear)
  {
    var applicable := FindApplicableTemplate(activeTemplates, currentDate, thisYear);
    if applicable.None? {
      return [];
    }
    var g := applicable.value;
    var t := activeTemplates[g];
    var templateStartDate := StartOfWeek(EffectiveStartDate(t, thisYear));
    var weekIndex := GetWeekIndex(currentDate, templateStartDate, |t.weeks|);
    if weekIndex.None? || !(0 <= weekIndex.value < |t.weeks|) {
      DaySlotsWithoutWeek(activeTemplates, currentDate, thisYear, g);
      return [];
    }
    var weekPattern := t.weeks[weekIndex.value];
    var dayPatterns := FindApplicableDayPatterns(currentDate, weekPattern);
    DaySlotsWithWeek(activeTemplates, currentDate, thisYear, g, weekIndex.value);
    slots := EmitDaySlots(t, currentDate, dayPatterns);
  }

  /** The search loop: the first template, in list order, whose effective range contains the day. */
  method FindApplicableTemplate(activeTemplates: seq<TimeSlotTemplate>, currentDate: Day, thisYear: Day)
    returns (applicable: Option<nat>)
    ensures applicable == GoverningIndex(activeTemplates, currentDate, thisYear)
    ensures applicable.Some? ==> applicable.value < |activeTemplates|
  {
    applicable := None;
    var k := 0;
    while k < |activeTemplates|
      invariant 0 <= k <= |activeTemplates|
      invariant applicable == None
      invariant forall j :: 0 <= j < k ==> !Governs(activeTemplates[j], currentDate, thisYear)
    {
      var template := activeTemplates[k];
      var templateStart := EffectiveStartDate(template, thisYear);
      var templateEnd := EffectiveEndDate(template);
      if currentDate >= templateStart && currentDate <= templateEnd {
        applicable := Some(k);
        GoverningIndexIs(activeTemplates, currentDate, thisYear, k);
        return;
      }
      k := k + 1;
    }
    GoverningIndexNone(activeTemplates, currentDate, thisYear);
  }

  /** The outer `for` loop: the slots of every matching day pattern in turn. */
  method EmitDaySlots(t: TimeSlotTemplate, currentDate: Day, dayPatterns: seq<DayPattern>)
    returns (slots: seq<TimeSlot>)
    ensures slots == DayPatternsSlots(t, currentDate, dayPatterns)
  {
    slots := [];
    for i := 0 to |dayPatterns|
      invariant slots == DayPatternsSlots(t, currentDate, dayPatterns[..i])
    {
      var dayPattern := dayPatterns[i];
      DayPatternsSlotsStep(t, currentDate, dayPatterns, i);
      slots := EmitPatternSlots(t, currentDate, dayPattern.slots, slots);
    }
    assert dayPatterns[..|dayPatterns|] == dayPatterns;
  }

  /** The inner `for` loop: pushes one slot per slot pattern onto `slots`. */
  method EmitPatternSlots(t: TimeSlotTemplate, currentDate: Day, slotPatterns: seq<SlotPattern>, before: seq<TimeSlot>)
    returns (slots: seq<TimeSlot>)
    ensures slots == before + PatternSlots(t, currentDate, slotPatterns)
  {
    slots := before;
    for m := 0 to |slotPatterns|
      invariant slots == before + PatternSlots(t, currentDate, slotPatterns[..m])
    {
      var slotPattern := slotPatterns[m];
      PatternSlotsStep(t, currentDate, slotPatterns, m);
      var anchorIdParts := AnchorIdParts(t.id, currentDate, slotPattern.id);
      var stableAnchorId := Btoa(anchorIdParts).value;
      var slot := TimeSlot(stableAnchorId, t.id, false,
        Stamp(currentDate, slotPattern.start.hour, slotPattern.start.minute),
        Stamp(currentDate, slotPattern.end.hour, slotPattern.end.minute),
        currentDate);
      assert slot == MakeSlot(t, currentDate, slotPattern);
      AppendAssociative(before, PatternSlots(t, currentDate, slotPatterns[..m]), [slot]);
      slots := slots + [slot];
    }
    assert slotPatterns[..|slotPatterns|] == slotPatterns;
  }

  /** `SlotsBetweenStep` stated for the day loop's variables, with the next value `d + 1` of the day counter. */
  lemma SlotsBetweenExtend(active: seq<TimeSlotTemplate>, first: Day, d: Day, thisYear: Day,
                           before: seq<TimeSlot>, day: seq<TimeSlot>)
    requires first <= d
    requires before == SlotsBetween(active, first, d - 1, thisYear)
    requires day == DaySlots(active, d, thisYear)
    ensures before + day == SlotsBetween(active, first, (d + 1) - 1, thisYear)
  {
    SlotsBetweenStep(active, first, d, thisYear);
  }

  /** One more day of the range appends that day's slots. */
  lemma SlotsBetweenStep(active: seq<TimeSlotTemplate>, first: Day, d: Day, thisYear: Day)
    requires first <= d
    ensures SlotsBetween(active, first, d, thisYear) == SlotsBetween(active, first, d - 1, thisYear) + DaySlots(active, d, thisYear)
  {
  }

  /** A day whose governing template has no week pattern for it has no slots. */
  lemma DaySlotsWithoutWeek(active: seq<TimeSlotTemplate>, d: Day, thisYear: Day, g: nat)
    requires g < |active| && GoverningIndex(active, d, thisYear) == Some(g)
    requires var w := GetWeekIndex(d, StartOfWeek(EffectiveStartDate(active[g], thisYear)), |active[g].weeks|);
      w.None? || !(0 <= w.value < |active[g].weeks|)
    ensures DaySlots(active, d, thisYear) == []
  {
  }

  /** Otherwise the day's slots are those of the matching day patterns of that week pattern. */
  lemma DaySlotsWithWeek(active: seq<TimeSlotTemplate>, d: Day, thisYear: Day, g: nat, w: int)
    requires g < |active| && GoverningIndex(active, d, thisYear) == Some(g)
    requires GetWeekIndex(d, StartOfWeek(EffectiveStartDate(active[g], thisYear)), |active[g].weeks|) == Some(w)
    requires 0 <= w < |active[g].weeks|
    ensures DaySlots(active, d, thisYear) == DayPatternsSlots(active[g], d, FindApplicableDayPatterns(d, active[g].weeks[w]))
  {
    var t := active[g];
    assert WeekAnchor(t, thisYear) == StartOfWeek(EffectiveStartDate(t, thisYear));
    assert WeekPatternFor(t, d, thisYear) == Some(t.weeks[w]);
  }

  lemma DayPatternsSlotsStep(t: TimeSlotTemplate, d: Day, dps: seq<DayPattern>, i: nat)
    requires i < |dps|
    ensures DayPatternsSlots(t, d, dps[..i + 1]) == DayPatternsSlots(t, d, dps[..i]) + PatternSlots(t, d, dps[i].slots)
  {
    assert dps[..i + 1][..i] == dps[..i];
  }

  lemma PatternSlotsStep(t: TimeSlotTemplate, d: Day, sps: seq<SlotPattern>, m: nat)
    requires m < |sps|
    ensures PatternSlots(t, d, sps[..m + 1]) == PatternSlots(t, d, sps[..m]) + [MakeSlot(t, d, sps[m])]
  {
    assert sps[..m + 1][..m] == sps[..m];
  }

  // ---------------------------------------------------------------------
  // Properties

  /** Unbooked slots dated from `first` to `last`, in date order. */
  predicate UnbookedInOrder(r: seq<TimeSlot>, first: Day, last: Day)
  {
    (forall i :: 0 <= i < |r| ==> first <= r[i].date <= last && !r[i].isBooked) &&
    (forall i, j :: 0 <= i < j < |r| ==> r[i].date <= r[j].date)
  }

  /** Generated slots are unbooked, dated inside the range, and in date order. */
  lemma {:induction false} SlotsBetweenOrdered(active: seq<TimeSlotTemplate>, first: Day, last: Day, thisYear: Day)
    ensures UnbookedInOrder(SlotsBetween(active, first, last, thisYear), first, last)
    decreases last - first + 1
  {
    if last >= first {
      var a, b := SlotsBetween(active, first, last - 1, thisYear), DaySlots(active, last, thisYear);
      SlotsBetweenOrdered(active, first, last - 1, thisYear);
      DaySlotsDated(active, last, thisYear);
      AppendDayOrdered(a, b, first, last);
    }
  }

  /** Unbooked slots all dated `d`. */
  predicate UnbookedOn(b: seq<TimeSlot>, d: Day)
  {
    forall i :: 0 <= i < |b| ==> b[i].date == d && !b[i].isBooked
  }

  /** A day's slots are unbooked and dated that day. */
  lemma DaySlotsDated(active: seq<TimeSlotTemplate>, d: Day, thisYear: Day)
    ensures UnbookedOn(DaySlots(active, d, thisYear), d)
  {
    DaySlotsFacts(active, d, thisYear);
  }

  /** Appending the slots of the next day keeps the list ordered. */
  lemma AppendDayOrdered(a: seq<TimeSlot>, b: seq<TimeSlot>, first: Day, last: Day)
    requires UnbookedInOrder(a, first, last - 1) && UnbookedOn(b, last) && first <= last
    ensures UnbookedInOrder(a + b, first, last)
  {
    var r := a + b;
    assert forall i :: 0 <= i < |a| ==> r[i] == a[i];
    assert forall i :: |a| <= i < |r| ==> r[i] == b[i - |a|];
  }

  /** Without an active template nothing is generated. */
  lemma {:induction false} NoActiveNoSlots(first: Day, last: Day, thisYear: Day)
    ensures SlotsBetween([], first, last, thisYear) == []
    decreases last - first + 1
  {
    if last >= first {
      NoActiveNoSlots(first, last - 1, thisYear);
    }
  }

  /** The slot carries the id of the first template, newest first, whose range contains its date. */
  predicate GovernedBy(active: seq<TimeSlotTemplate>, s: TimeSlot, thisYear: Day)
  {
    var g := GoverningIndex(active, s.date, thisYear);
    g.Some? && g.value < |active| && s.templateId == active[g.value].id
  }

  /** Every generated slot belongs to the template governing its date. */
  lemma {:induction false} SlotsGoverned(active: seq<TimeSlotTemplate>, first: Day, last: Day, thisYear: Day)
    ensures forall s :: s in SlotsBetween(active, first, last, thisYear) ==> GovernedBy(active, s, thisYear)
    decreases last - first + 1
  {
    if last >= first {
      SlotsGoverned(active, first, last - 1, thisYear);
      var a, b := SlotsBetween(active, first, last - 1, thisYear), DaySlots(active, last, thisYear);
      DaySlotsGoverned(active, last, thisYear);
      assert forall s :: s in a + b ==> s in a || s in b;
    }
  }

  lemma DaySlotsGoverned(active: seq<TimeSlotTemplate>, d: Day, thisYear: Day)
    ensures forall s :: s in DaySlots(active, d, thisYear) ==> GovernedBy(active, s, thisYear)
  {
    DaySlotsFacts(active, d, thisYear);
    var b := DaySlots(active, d, thisYear);
    forall s | s in b ensures GovernedBy(active, s, thisYear) {
      var i :| 0 <= i < |b| && b[i] == s;
    }
  }

  // ---------------------------------------------------------------------
  // Slot ids read back

  /** No `:` in the template id or in any of its slot-pattern ids. */
  predicate ColonFreeIds(t: TimeSlotTemplate)
  {
    ':' !in t.id &&
    forall wp :: wp in t.weeks ==> forall dp :: dp in wp.days ==> forall sp :: sp in dp.slots ==> ':' !in sp.id
  }

  /**
   * `explainStableAnchorId` reads a slot's id back as the slot's template
   * id, its `yyyy-MM-dd` date and a colon-free slot-pattern id from which
   * the same stable id is regenerated.
   */
  predicate ExplainsBack(s: TimeSlot)
  {
    var e := ExplainStableAnchorId(s.id);
    e.templateId == s.templateId && e.date == Some(FormatDate(s.date)) && e.slotId.Some? &&
    IsLatin1(s.templateId) && IsLatin1(e.slotId.value) && ':' !in e.slotId.value &&
    s.id == StableAnchorId(s.templateId, s.date, e.slotId.value)
  }

  /** A slot made from colon-free ids explains back to its slot pattern's id. */
  lemma MakeSlotExplains(t: TimeSlotTemplate, d: Day, sp: SlotPattern)
    requires ':' !in t.id && ':' !in sp.id
    ensures ExplainsBack(MakeSlot(t, d, sp))
    ensures ExplainStableAnchorId(MakeSlot(t, d, sp).id).slotId == Some(sp.id)
  {
    ExplainStableAnchorIdRecovers(t.id, d, sp.id);
  }

  lemma {:induction false} PatternSlotsExplain(t: TimeSlotTemplate, d: Day, sps: seq<SlotPattern>)
    requires ':' !in t.id && forall sp :: sp in sps ==> ':' !in sp.id
    ensures forall s :: s in PatternSlots(t, d, sps) ==> ExplainsBack(s)
    decreases |sps|
  {
    if sps != [] {
      var init, last := sps[..|sps| - 1], sps[|sps| - 1];
      assert forall sp :: sp in init ==> sp in sps;
      PatternSlotsExplain(t, d, init);
      MakeSlotExplains(t, d, last);
      var a, b := PatternSlots(t, d, init), [MakeSlot(t, d, last)];
      assert forall s :: s in a + b ==> s in a || s in b;
    }
  }

  lemma {:induction false} DayPatternsSlotsExplain(t: TimeSlotTemplate, d: Day, dps: seq<DayPattern>)
    requires ':' !in t.id && forall dp :: dp in dps ==> forall sp :: sp in dp.slots ==> ':' !in sp.id
    ensures forall s :: s in DayPatternsSlots(t, d, dps) ==> ExplainsBack(s)
    decreases |dps|
  {
    if dps != [] {
      var init, last := dps[..|dps| - 1], dps[|dps| - 1];
      assert forall dp :: dp in init ==> dp in dps;
      DayPatternsSlotsExplain(t, d, init);
      PatternSlotsExplain(t, d, last.slots);
      var a, b := DayPatternsSlots(t, d, init), PatternSlots(t, d, last.slots);
      assert forall s :: s in a + b ==> s in a || s in b;
    }
  }

  lemma DaySlotsExplain(active: seq<TimeSlotTemplate>, d: Day, thisYear: Day)
    requires forall t :: t in active ==> ColonFreeIds(t)
    ensures forall s :: s in DaySlots(active, d, thisYear) ==> ExplainsBack(s)
  {
    match GoverningIndex(active, d, thisYear)
    case None =>
    case Some(g) =>
      if g < |active| {
        var t := active[g];
        assert ColonFreeIds(t);
        match WeekPatternFor(t, d, thisYear)
        case None =>
        case Some(wp) =>
          var dps := FindApplicableDayPatterns(d, wp);
          FindApplicableSpec(d, wp);
          assert forall dp :: dp in dps ==> dp in wp.days;
          DayPatternsSlotsExplain(t, d, dps);
      }
  }

  lemma {:induction false} SlotsBetweenExplain(active: seq<TimeSlotTemplate>, first: Day, last: Day, thisYear: Day)
    requires forall t :: t in active ==> ColonFreeIds(t)
    ensures forall s :: s in SlotsBetween(active, first, last, thisYear) ==> ExplainsBack(s)
    decreases last - first + 1
  {
    if last >= first {
      SlotsBetweenExplain(active, first, last - 1, thisYear);
      DaySlotsExplain(active, last, thisYear);
      var a, b := SlotsBetween(active, first, last - 1, thisYear), DaySlots(active, last, thisYear);
      assert forall s :: s in a + b ==> s in a || s in b;
    }
  }

  /**
   * With colon-free ids, every generated slot's id is the stable anchor id
   * of its template, date and a slot pattern, and `explainStableAnchorId`
   * reads those back; the slot belongs to the template governing its date.
   */
  lemma GeneratedSlotsExplain(templates: seq<TimeSlotTemplate>, startDate: Day, endDate: Day, thisYear: Day)
    requires forall t :: t in templates ==> ColonFreeIds(t)
    ensures forall s :: s in GeneratedSlots(templates, startDate, endDate, thisYear) ==>
      ExplainsBack(s) && GovernedBy(SortNewestFirst(ActiveOnly(templates)), s, thisYear)
  {
    var active := SortNewestFirst(ActiveOnly(templates));
    assert forall t :: t in active ==> t in multiset(active);
    assert forall t :: t in active ==> t in ActiveOnly(templates);
    SlotsBetweenExplain(active, startDate, endDate, thisYear);
    SlotsGoverned(active, startDate, endDate, thisYear);
  }

  /** The slots of one day of the range are exactly that day's slots, in their order. */
  lemma {:induction false} SlotsOfDay(active: seq<TimeSlotTemplate>, first: Day, last: Day, thisYear: Day, d: Day)
    requires first <= d <= last
    ensures OnDay(SlotsBetween(active, first, last, thisYear), d) == DaySlots(active, d, thisYear)
    decreases last - first + 1
  {
    var a := SlotsBetween(active, first, last - 1, thisYear);
    var b := DaySlots(active, last, thisYear);
    SlotsBetweenStep(active, first, last, thisYear);
    OnDayConcat(a, b, d);
    SlotsBetweenOrdered(active, first, last - 1, thisYear);
    DaySlotsDated(active, last, thisYear);
    if d < last {
      SlotsOfDay(active, first, last - 1, thisYear, d);
      OnDayNone(b, d);
    } else {
      OnDayNone(a, d);
      OnDayAll(b, d);
    }
  }

  /** The slots dated `d`, in order. */
  function OnDay(slots: seq<TimeSlot>, d: Day): (r: seq<TimeSlot>)
  {
    if slots == [] then []
    else
      var rest := OnDay(slots[..|slots| - 1], d);
      if slots[|slots| - 1].date == d then rest + [slots[|slots| - 1]] else rest
  }

  lemma {:induction false} OnDayConcat(a: seq<TimeSlot>, b: seq<TimeSlot>, d: Day)
    ensures OnDay(a + b, d) == OnDay(a, d) + OnDay(b, d)
    decreases |b|
  {
    if b == [] {
      assert a + b == a;
    } else {
      assert (a + b)[..|a + b| - 1] == a + b[..|b| - 1];
      OnDayConcat(a, b[..|b| - 1], d);
      var x := b[|b| - 1];
      AppendAssociative(OnDay(a, d), OnDay(b[..|b| - 1], d), if x.date == d then [x] else []);
    }
  }

  lemma {:induction false} OnDayNone(a: seq<TimeSlot>, d: Day)
    requires forall i :: 0 <= i < |a| ==> a[i].date != d
    ensures OnDay(a, d) == []
    decreases |a|
  {
    if a != [] {
      OnDayNone(a[..|a| - 1], d);
    }
  }

  lemma {:induction false} OnDayAll(a: seq<TimeSlot>, d: Day)
    requires forall i :: 0 <= i < |a| ==> a[i].date == d
    ensures OnDay(a, d) == a
    decreases |a|
  {
    if a != [] {
      OnDayAll(a[..|a| - 1], d);
      assert a[..|a| - 1] + [a[|a| - 1]] == a;
    }
  }

  /** Inside generation the week index is never negative: the day is on or after the anchor Monday. */
  lemma WeekIndexInRange(t: TimeSlotTemplate, d: Day, thisYear: Day)
    requires Governs(t, d, thisYear) && |t.weeks| > 0
    ensures GetWeekIndex(d, WeekAnchor(t, thisYear), |t.weeks|).Some?
    ensures 0 <= GetWeekIndex(d, WeekAnchor(t, thisYear), |t.weeks|).value < |t.weeks|
    ensures WeekPatternFor(t, d, thisYear).Some?
  {
  }

  /** A governing template without week patterns yields no slots, and older templates do not step in. */
  lemma EmptyWeeksBlock(active: seq<TimeSlotTemplate>, d: Day, thisYear: Day, i: nat)
    requires i < |active| && Governs(active[i], d, thisYear) && active[i].weeks == []
    requires forall j :: 0 <= j < i ==> !Governs(active[j], d, thisYear)
    ensures DaySlots(active, d, thisYear) == []
  {
    GoverningIndexIs(active, d, thisYear, i);
  }

  /** A governing template emits, per matching day pattern and slot pattern, in declaration order. */
  lemma DaySlotsOfPattern(active: seq<TimeSlotTemplate>, d: Day, thisYear: Day, i: nat)
    requires i < |active| && Governs(active[i], d, thisYear) && |active[i].weeks| > 0
    requires forall j :: 0 <= j < i ==> !Governs(active[j], d, thisYear)
    ensures var w := GetWeekIndex(d, WeekAnchor(active[i], thisYear), |active[i].weeks|).value;
      0 <= w < |active[i].weeks| &&
      DaySlots(active, d, thisYear) == DayPatternsSlots(active[i], d, FindApplicableDayPatterns(d, active[i].weeks[w]))
  {
    GoverningIndexIs(active, d, thisYear, i);
    WeekIndexInRange(active[i], d, thisYear);
  }

  /** Day patterns contribute their slots one after the other. */
  lemma {:induction false} DayPatternsSlotsConcat(t: TimeSlotTemplate, d: Day, a: seq<DayPattern>, b: seq<DayPattern>)
    ensures DayPatternsSlots(t, d, a + b) == DayPatternsSlots(t, d, a) + DayPatternsSlots(t, d, b)
    decreases |b|
  {
    if b == [] {
      assert a + b == a;
    } else {
      assert (a + b)[..|a + b| - 1] == a + b[..|b| - 1];
      DayPatternsSlotsConcat(t, d, a, b[..|b| - 1]);
      AppendAssociative(DayPatternsSlots(t, d, a), DayPatternsSlots(t, d, b[..|b| - 1]), PatternSlots(t, d, b[|b| - 1].slots));
    }
  }
}
