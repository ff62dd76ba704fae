/**
 * The pure helpers of the template engine: effective date bounds, the
 * cyclic week index, weekday matching of day patterns, the stable slot
 * identity and its decoder, the lossy slot-instance id and the booked-id
 * lookup.
 */
module TemplateUtils {
  import opened Wrappers
  import opened Dates
  import opened Base64
  import opened Schedule

  // ---------------------------------------------------------------------
  // Effective bounds used by slot generation

  /**
   * A template without a start date starts on `thisYear`, the first day of
   * the current year (`DateTime.now().startOf('year')`).
   */
  function EffectiveStartDate(t: TimeSlotTemplate, thisYear: Day): (d: Day)
    ensures t.startDate.Some? ==> d == t.startDate.value
    ensures t.startDate.None? ==> d == thisYear
  {
    match t.startDate
    case Some(s) => s
    case None => thisYear
  }

  /** A template without an end date runs until 2100-12-31. */
  function EffectiveEndDate(t: TimeSlotTemplate): (d: Day)
    ensures t.endDate.Some? ==> d == t.endDate.value
    ensures t.endDate.None? ==> d == Dec31st2100
  {
    match t.endDate
    case Some(e) => e
    case None => Dec31st2100
  }

  /** The defaults are January 1 of the year of `now` and December 31, 2100. */
  lemma EffectiveDefaults(t: TimeSlotTemplate, now: Day)
    ensures t.startDate.Some? ==> EffectiveStartDate(t, StartOfYear(now)) == t.startDate.value
    ensures t.startDate.None? ==> ToCivil(EffectiveStartDate(t, StartOfYear(now))) == Civil(ToCivil(now).year, 1, 1)
    ensures t.endDate.Some? ==> EffectiveEndDate(t) == t.endDate.value
    ensures t.endDate.None? ==> ToCivil(EffectiveEndDate(t)) == Civil(2100, 12, 31)
  {
    if t.startDate.None? {
      CivilRoundTrip(ToCivil(now).year, 1, 1);
    }
    if t.endDate.None? {
      CivilRoundTrip(2100, 12, 31);
    }
  }

  // ---------------------------------------------------------------------
  // Week index

  /** JavaScript's `%` for a positive divisor: the remainder has the sign of the dividend. */
  function JsRemainder(a: int, n: int): (r: int)
    requires n > 0
    ensures a >= 0 ==> r == a % n && 0 <= r < n
    ensures a < 0 ==> r + n > 0 && r <= 0
  {
    if a >= 0 then a % n else -((-a) % n)
  }

  /**
   * `getWeekIndex`: whole weeks (floored) from `templateStart` to `date`,
   * taken with JavaScript's `%`.  `None` is the NaN that `x % 0` gives when
   * the template has no week patterns.
   */
  function GetWeekIndex(date: Day, templateStart: Day, totalWeeks: nat): (r: Option<int>)
    ensures r.None? <==> totalWeeks == 0
    ensures totalWeeks > 0 && date >= templateStart ==> 0 <= r.value < totalWeeks
    ensures totalWeeks > 0 && date < templateStart ==> r.value + totalWeeks > 0 && r.value <= 0
  {
    if totalWeeks == 0 then None
    else Some(JsRemainder((date - templateStart) / 7, totalWeeks))
  }

  /** From the anchor on, the week index repeats with a period of `totalWeeks` weeks. */
  lemma WeekIndexPeriodic(date: Day, templateStart: Day, totalWeeks: nat)
    requires totalWeeks > 0 && date >= templateStart
    ensures GetWeekIndex(date + 7 * totalWeeks, templateStart, totalWeeks) == GetWeekIndex(date, templateStart, totalWeeks)
  {
    var w := (date - templateStart) / 7;
    DivModUnique(date + 7 * totalWeeks - templateStart, 7, w + totalWeeks, (date - templateStart) % 7);
    ModPeriod(w, totalWeeks);
  }

  /** From the anchor on, the index is the number of whole weeks elapsed, modulo the cycle length. */
  lemma WeekIndexCounts(date: Day, templateStart: Day, totalWeeks: nat)
    requires totalWeeks > 0 && date >= templateStart
    ensures GetWeekIndex(date, templateStart, totalWeeks) == Some(((date - templateStart) / 7) % totalWeeks)
    ensures date - templateStart < 7 ==> GetWeekIndex(date, templateStart, totalWeeks) == Some(0)
  {
    var w := (date - templateStart) / 7;
    assert w >= 0;
    if date - templateStart < 7 {
      assert w == 0;
      DivModUnique(0, totalWeeks, 0, 0);
    }
  }

  /** Before the anchor the truncating `%` gives a negative index (or zero), never a cycle position. */
  lemma WeekIndexBeforeAnchor(templateStart: Day, totalWeeks: nat)
    requires totalWeeks >= 2
    ensures GetWeekIndex(templateStart - 1, templateStart, totalWeeks) == Some(-1)
  {
    assert (templateStart - 1 - templateStart) / 7 == -1;
  }

  // ---------------------------------------------------------------------
  // Day patterns

  /** `getDayOfWeek`: the ISO weekday, 1 for Monday. */
  function GetDayOfWeek(d: Day): (w: int)
    ensures 1 <= w <= 7
  {
    Weekday(d)
  }

  /** `getDayName`: Mon, Tue, ..., Sun. */
  function GetDayName(d: Day): (name: string)
    ensures name in WeekdayNames
  {
    DayName(d)
  }

  /** The filter callback of `findApplicableDayPatterns`: a number is compared with the weekday, a string with the name. */
  predicate SelectorMatches(sel: DaySelector, d: Day)
  {
    match sel
    case ByNumber(n) => n == GetDayOfWeek(d)
    case ByName(name) => name == GetDayName(d)
  }

  /** `a` is `b` with some elements left out, order kept. */
  predicate Subsequence<T(==)>(a: seq<T>, b: seq<T>)
    decreases |b|
  {
    if a == [] then true
    else if b == [] then false
    else if a[0] == b[0] then Subsequence(a[1..], b[1..])
    else Subsequence(a, b[1..])
  }

  /** A subsequence stays one when an element is appended to the sequence, or to both. */
  lemma {:induction false} SubsequenceSnoc<T>(a: seq<T>, b: seq<T>, x: T)
    requires Subsequence(a, b)
    ensures Subsequence(a, b + [x]) && Subsequence(a + [x], b + [x])
    decreases |b|
  {
    if b == [] {
      assert a == [];
      assert [x][1..] == [];
      assert a + [x] == [x];
    } else {
      assert (b + [x])[0] == b[0] && (b + [x])[1..] == b[1..] + [x];
      if a == [] {
        SubsequenceSnoc(a, b[1..], x);
        assert a + [x] == [x];
      } else {
        assert (a + [x])[0] == a[0] && (a + [x])[1..] == a[1..] + [x];
        if a[0] == b[0] {
          SubsequenceSnoc(a[1..], b[1..], x);
        } else {
          SubsequenceSnoc(a, b[1..], x);
        }
      }
    }
  }

  /** Concatenation is associative; stated once so that proofs need not rediscover it. */
  lemma AppendAssociative<T>(a: seq<T>, b: seq<T>, c: seq<T>)
    ensures (a + b) + c == a + (b + c)
  {
  }

  /** `findApplicableDayPatterns`: `wp.days.filter(...)` with the selector test. */
  function FindApplicableDayPatterns(d: Day, wp: WeekPattern): (r: seq<DayPattern>)
    ensures |r| <= |wp.days|
    decreases |wp.days|
  {
    if wp.days == [] then []
    else
      var rest := FindApplicableDayPatterns(d, WeekPattern(wp.days[1..]));
      if SelectorMatches(wp.days[0].day, d) then [wp.days[0]] + rest else rest
  }

  /** The applicable day patterns are those of the week whose selector matches `d`, in declaration order. */
  lemma {:induction false} FindApplicableSpec(d: Day, wp: WeekPattern)
    ensures forall p :: p in FindApplicableDayPatterns(d, wp) <==> p in wp.days && SelectorMatches(p.day, d)
    ensures Subsequence(FindApplicableDayPatterns(d, wp), wp.days)
    decreases |wp.days|
  {
    if wp.days != [] {
      var tail := WeekPattern(wp.days[1..]);
      FindApplicableSpec(d, tail);
      var rest := FindApplicableDayPatterns(d, tail);
      assert forall p :: p in wp.days <==> p == wp.days[0] || p in tail.days;
      if SelectorMatches(wp.days[0].day, d) {
        assert ([wp.days[0]] + rest)[1..] == rest;
      }
    }
  }

  /** A numeric selector matches exactly on its ISO weekday, a name exactly on its day name; a string never matches by number. */
  lemma SelectorKinds(d: Day, n: int, name: string)
    ensures SelectorMatches(ByNumber(n), d) <==> n == Weekday(d)
    ensures SelectorMatches(ByName(name), d) <==> name == WeekdayNames[Weekday(d) - 1]
    ensures !SelectorMatches(ByName(Digits(Weekday(d))), d)
  {
    var ds := Digits(Weekday(d));
    assert |ds| == 1;
  }

  /** Declaration order is kept: a day pattern earlier in the week comes earlier in the result. */
  lemma {:induction false} FindApplicablePrefix(d: Day, wp: WeekPattern, k: nat)
    requires k <= |wp.days|
    ensures FindApplicableDayPatterns(d, wp) ==
      FindApplicableDayPatterns(d, WeekPattern(wp.days[..k])) + FindApplicableDayPatterns(d, WeekPattern(wp.days[k..]))
    decreases k
  {
    if k > 0 {
      var tail := WeekPattern(wp.days[1..]);
      FindApplicablePrefix(d, tail, k - 1);
      assert wp.days[..k][1..] == tail.days[..k - 1];
      assert tail.days[k - 1..] == wp.days[k..];
    } else {
      assert wp.days[0..] == wp.days;
    }
  }

  // ---------------------------------------------------------------------
  // Stable slot identity

  /** `templateId:yyyy-MM-dd:slotId`. */
  function AnchorIdParts(templateId: Id, date: Day, slotId: Id): (s: string)
    ensures IsLatin1(s)
  {
    var ds := FormatDate(date);
    assert IsLatin1(ds);
    templateId + ":" + ds + ":" + slotId
  }

  /** The stable id of a generated slot: `btoa` of its parts. */
  function StableAnchorId(templateId: Id, date: Day, slotId: Id): (id: string)
  {
    Btoa(AnchorIdParts(templateId, date, slotId)).value
  }

  /** JavaScript's `split` on a single character. */
  function Split(s: string, sep: char): (parts: seq<string>)
    ensures |parts| >= 1
    decreases |s|
  {
    if s == [] then [""]
    else if s[0] == sep then [""] + Split(s[1..], sep)
    else
      var rest := Split(s[1..], sep);
      [[s[0]] + rest[0]] + rest[1..]
  }

  /** Splitting a string without the separator gives the string itself. */
  lemma {:induction false} SplitNone(s: string, sep: char)
    requires sep !in s
    ensures Split(s, sep) == [s]
    decreases |s|
  {
    if s != [] {
      SplitNone(s[1..], sep);
      assert [s[0]] + s[1..] == s;
    }
  }

  /** A separator-free field followed by the separator splits off as the first part. */
  lemma {:induction false} SplitField(a: string, sep: char, b: string)
    requires sep !in a
    ensures Split(a + [sep] + b, sep) == [a] + Split(b, sep)
    decreases |a|
  {
    var s := a + [sep] + b;
    if a == [] {
      assert s[0] == sep && s[1..] == b;
    } else {
      assert s[0] == a[0] && s[1..] == a[1..] + [sep] + b;
      SplitField(a[1..], sep, b);
      assert [a[0]] + a[1..] == a;
    }
  }

  /** `explainStableAnchorId`'s result, with JavaScript's `undefined` as `None`. */
  datatype AnchorExplanation = AnchorExplanation(templateId: string, date: Option<string>, slotId: Option<string>, pattern: string)

  const InvalidExplanation := AnchorExplanation("Invalid", Some("Invalid"), Some("Invalid"), "Invalid anchorId format")

  /** A template literal renders `undefined` for a missing destructured field. */
  function Shown(o: Option<string>): string
  {
    match o
    case Some(s) => s
    case None => "undefined"
  }

  /** `explainStableAnchorId`: decode, then read the fields of the decoded text. */
  function ExplainStableAnchorId(anchorId: string): (r: AnchorExplanation)
    ensures Atob(anchorId).None? ==> r == InvalidExplanation
    ensures Atob(anchorId).Some? ==> r.templateId == Split(Atob(anchorId).value, ':')[0]
  {
    match Atob(anchorId)
    case None => InvalidExplanation
    case Some(decoded) => ExplainDecoded(decoded)
  }

  /** The fields of a decoded stable id: split on ':' and take the first three parts. */
  function ExplainDecoded(decoded: string): (r: AnchorExplanation)
    ensures r.templateId == Split(decoded, ':')[0]
  {
    var parts := Split(decoded, ':');
    var templateId := parts[0];
    var date := if |parts| > 1 then Some(parts[1]) else None;
    var slotId := if |parts| > 2 then Some(parts[2]) else None;
    AnchorExplanation(templateId, date, slotId,
      "Template " + templateId + ", Date " + Shown(date) + ", Slot " + Shown(slotId))
  }

  /** A stable id decodes to its parts string. */
  lemma ExplainStableId(templateId: Id, date: Day, slotId: Id)
    ensures ExplainStableAnchorId(StableAnchorId(templateId, date, slotId)) == ExplainDecoded(AnchorIdParts(templateId, date, slotId))
  {
    AtobBtoa(AnchorIdParts(templateId, date, slotId));
  }

  /** A formatted date never contains ':'. */
  lemma NoColonInDate(date: Day)
    ensures ':' !in FormatDate(date)
  {
    var ds := FormatDate(date);
    assert forall i :: 0 <= i < |ds| ==> ds[i] != ':';
  }

  /** The triple is split back out of the parts string when neither id contains ':'. */
  lemma SplitParts(templateId: Id, date: Day, slotId: Id)
    requires ':' !in templateId && ':' !in slotId
    ensures Split(AnchorIdParts(templateId, date, slotId), ':') == [templateId, FormatDate(date), slotId]
  {
    var ds := FormatDate(date);
    NoColonInDate(date);
    assert AnchorIdParts(templateId, date, slotId) == templateId + [':'] + (ds + [':'] + slotId);
    SplitField(templateId, ':', ds + [':'] + slotId);
    SplitField(ds, ':', slotId);
    SplitNone(slotId, ':');
  }

  /** Decoding a stable id recovers the template id, the formatted date and the slot id. */
  lemma ExplainStableAnchorIdRecovers(templateId: Id, date: Day, slotId: Id)
    requires ':' !in templateId && ':' !in slotId
    ensures var e := ExplainStableAnchorId(StableAnchorId(templateId, date, slotId));
      e.templateId == templateId && e.date == Some(FormatDate(date)) && e.slotId == Some(slotId) &&
      e.pattern == "Template " + templateId + ", Date " + FormatDate(date) + ", Slot " + slotId
  {
    AtobBtoa(AnchorIdParts(templateId, date, slotId));
    SplitParts(templateId, date, slotId);
  }

  /** Stable ids are collision-free: distinct triples of colon-free ids get distinct ids. */
  lemma StableAnchorIdInjective(t: Id, d: Day, s: Id, t': Id, d': Day, s': Id)
    requires ':' !in t && ':' !in s && ':' !in t' && ':' !in s'
    requires StableAnchorId(t, d, s) == StableAnchorId(t', d', s')
    ensures t == t' && d == d' && s == s'
  {
    ExplainStableAnchorIdRecovers(t, d, s);
    ExplainStableAnchorIdRecovers(t', d', s');
    FormatDateInjective(d, d');
  }

  /** Splitting at a separator splits both sides independently. */
  lemma {:induction false} SplitAround(x: string, sep: char, y: string)
    ensures Split(x + [sep] + y, sep) == Split(x, sep) + Split(y, sep)
    decreases |x|
  {
    var s := x + [sep] + y;
    if x == [] {
      assert s[0] == sep && s[1..] == y;
    } else {
      assert s[0] == x[0] && s[1..] == x[1..] + [sep] + y;
      SplitAround(x[1..], sep, y);
    }
  }

  /**
   * A template id with one ':' shifts the fields: its second half is read
   * as the date and the date as the slot id.
   */
  lemma ColonInTemplateIdMisread(templateId: Id, date: Day, slotId: Id)
    requires |Split(templateId, ':')| == 2 && ':' !in slotId
    ensures var e := ExplainStableAnchorId(StableAnchorId(templateId, date, slotId));
      e.templateId == Split(templateId, ':')[0] && e.date == Some(Split(templateId, ':')[1]) &&
      e.slotId == Some(FormatDate(date))
  {
    var ds := FormatDate(date);
    var parts := AnchorIdParts(templateId, date, slotId);
    SplitAnchorParts(templateId, date, slotId);
    var st := Split(templateId, ':');
    assert st + [ds, slotId] == [st[0], st[1], ds] + [slotId];
    ExplainStableId(templateId, date, slotId);
    ExplainFields(parts, st[0], st[1], ds, [slotId]);
  }

  /** The parts of a stable id split at ':': those of the template id, then the date and the slot id. */
  lemma SplitAnchorParts(templateId: Id, date: Day, slotId: Id)
    requires ':' !in slotId
    ensures Split(AnchorIdParts(templateId, date, slotId), ':') == Split(templateId, ':') + [FormatDate(date), slotId]
  {
    var ds := FormatDate(date);
    NoColonInDate(date);
    assert AnchorIdParts(templateId, date, slotId) == templateId + [':'] + (ds + [':'] + slotId);
    SplitAround(templateId, ':', ds + [':'] + slotId);
    SplitField(ds, ':', slotId);
    SplitNone(slotId, ':');
  }

  /** The three fields `explainStableAnchorId` reports are the first three parts of the decoded text. */
  lemma ExplainFields(decoded: string, p0: string, p1: string, p2: string, rest: seq<string>)
    requires Split(decoded, ':') == [p0, p1, p2] + rest
    ensures var e := ExplainDecoded(decoded);
      e.templateId == p0 && e.date == Some(p1) && e.slotId == Some(p2)
  {
  }

  /** Text that `atob` rejects yields the all-"Invalid" record. */
  lemma ExplainInvalid(anchorId: string)
    requires Atob(anchorId).None?
    ensures ExplainStableAnchorId(anchorId) == InvalidExplanation
  {
  }

  /** For instance, a character outside the base64 alphabet. */
  lemma ExplainRejectsForeignChar(anchorId: string, i: int)
    requires 0 <= i < |anchorId|
    requires !IsAlphabetChar(anchorId[i]) && !IsAsciiWhitespace(anchorId[i]) && anchorId[i] != '='
    ensures ExplainStableAnchorId(anchorId) == InvalidExplanation
  {
    AtobRejectsForeignChar(anchorId, i);
  }

  // ---------------------------------------------------------------------
  // Slot instance ids

  /** An ASCII letter or digit. */
  predicate IsAsciiAlphanumeric(c: char)
  {
    'A' <= c <= 'Z' || 'a' <= c <= 'z' || '0' <= c <= '9'
  }

  /** `s.replace(/[+/=]/g, '')`: every '+', '/' and '=' removed, the rest kept in order. */
  function RemoveSpecials(s: string): (t: string)
    ensures forall i :: 0 <= i < |t| ==> t[i] != '+' && t[i] != '/' && t[i] != '='
    ensures Subsequence(t, s)
    ensures (forall i :: 0 <= i < |s| ==> s[i] != '+' && s[i] != '/' && s[i] != '=') ==> t == s
    decreases |s|
  {
    if s == [] then []
    else
      var rest := RemoveSpecials(s[1..]);
      if s[0] == '+' || s[0] == '/' || s[0] == '=' then
        assert Subsequence(rest, s);
        rest
      else
        assert ([s[0]] + rest)[1..] == rest;
        [s[0]] + rest
  }

  /** Removing characters commutes with concatenation. */
  lemma {:induction false} RemoveSpecialsConcat(s: string, t: string)
    ensures RemoveSpecials(s + t) == RemoveSpecials(s) + RemoveSpecials(t)
    decreases |s|
  {
    if s != [] {
      assert (s + t)[0] == s[0] && (s + t)[1..] == s[1..] + t;
      RemoveSpecialsConcat(s[1..], t);
      AppendAssociative([s[0]], RemoveSpecials(s[1..]), RemoveSpecials(t));
    } else {
      assert s + t == t;
    }
  }

  /** `templateId|anchorId|date.toISODate()`. */
  function InstanceIdParts(templateId: string, anchorId: string, date: Day): (s: string)
  {
    templateId + "|" + anchorId + "|" + IsoDate(date)
  }

  /** The parts string is Latin-1 exactly when both ids are. */
  lemma InstanceIdPartsLatin1(templateId: string, anchorId: string, date: Day)
    ensures IsLatin1(InstanceIdParts(templateId, anchorId, date)) <==> IsLatin1(templateId) && IsLatin1(anchorId)
  {
    var ds := IsoDate(date);
    assert IsLatin1(ds);
    assert IsLatin1("|");
    Latin1Concat(templateId, "|");
    Latin1Concat(templateId + "|", anchorId);
    Latin1Concat(templateId + "|" + anchorId, "|");
    Latin1Concat(templateId + "|" + anchorId + "|", ds);
  }

  /**
   * `generateSlotInstanceId`: `btoa` of the parts with the three non
   * alphanumeric base64 characters removed.  `None` is the exception
   * `btoa` throws on a character above U+00FF.
   */
  function GenerateSlotInstanceId(templateId: string, anchorId: string, date: Day): (r: Option<string>)
    ensures r.Some? <==> IsLatin1(templateId) && IsLatin1(anchorId)
    ensures r.Some? ==> forall i :: 0 <= i < |r.value| ==> IsAsciiAlphanumeric(r.value[i])
  {
    InstanceIdPartsLatin1(templateId, anchorId, date);
    match Btoa(InstanceIdParts(templateId, anchorId, date))
    case None => None
    case Some(e) =>
      BtoaAlphabet(InstanceIdParts(templateId, anchorId, date));
      var t := RemoveSpecials(e);
      assert forall i :: 0 <= i < |t| ==> t[i] in e by {
        SubsequenceMembers(t, e);
      }
      Some(t)
  }

  /** Every element of a subsequence occurs in the sequence. */
  lemma {:induction false} SubsequenceMembers<T>(a: seq<T>, b: seq<T>)
    requires Subsequence(a, b)
    ensures forall i :: 0 <= i < |a| ==> a[i] in b
    decreases |b|
  {
    if a != [] && b != [] {
      if a[0] == b[0] {
        SubsequenceMembers(a[1..], b[1..]);
        assert forall i :: 1 <= i < |a| ==> a[i] == a[1..][i - 1];
      } else {
        SubsequenceMembers(a, b[1..]);
      }
    }
  }

  /**
   * The removal loses information: template ids that differ only in a last
   * character '>' or '?' of a three-byte group give the same instance id,
   * because those characters end the group's encoding in '+' and '/'.
   */
  lemma SlotInstanceIdCollision(anchorId: Id, date: Day)
    ensures GenerateSlotInstanceId("ab>", anchorId, date) == GenerateSlotInstanceId("ab?", anchorId, date)
  {
    var rest := InstanceIdParts("", anchorId, date);
    InstanceIdPartsLatin1("", anchorId, date);
    InstanceIdPartsAfter("ab>", anchorId, date);
    InstanceIdPartsAfter("ab?", anchorId, date);
    GroupEndCollision(rest);
    var p, q := InstanceIdParts("ab>", anchorId, date), InstanceIdParts("ab?", anchorId, date);
    assert GenerateSlotInstanceId("ab>", anchorId, date) == Some(RemoveSpecials(Btoa(p).value));
    assert GenerateSlotInstanceId("ab?", anchorId, date) == Some(RemoveSpecials(Btoa(q).value));
  }

  /** The parts string of a template id is that id ahead of the parts string of an empty one. */
  lemma InstanceIdPartsAfter(templateId: string, anchorId: string, date: Day)
    ensures InstanceIdParts(templateId, anchorId, date) == templateId + InstanceIdParts("", anchorId, date)
  {
    var ds := IsoDate(date);
    assert InstanceIdParts("", anchorId, date) == "|" + anchorId + "|" + ds;
  }

  /** '>' and '?' closing the first three-byte group encode as '+' and '/'; the rest is shared. */
  lemma GroupEndCollision(rest: string)
    requires IsLatin1(rest)
    ensures IsLatin1("ab>" + rest) && IsLatin1("ab?" + rest)
    ensures RemoveSpecials(Btoa("ab>" + rest).value) == RemoveSpecials(Btoa("ab?" + rest).value)
  {
    var tail := Btoa(rest).value;
    GroupCodes();
    BtoaGroupPrefix("ab>", rest);
    BtoaGroupPrefix("ab?", rest);
    assert RemoveSpecials("YWI+" + tail) == RemoveSpecials("YWI/" + tail) by {
      RemoveSpecialsConcat("YWI+", tail);
      RemoveSpecialsConcat("YWI/", tail);
      GroupSpecials();
    }
  }

  /** The encodings of "ab>" and "ab?". */
  lemma GroupCodes()
    ensures EncodeGroup('a' as int, 'b' as int, '>' as int) == "YWI+"
    ensures EncodeGroup('a' as int, 'b' as int, '?' as int) == "YWI/"
  {
  }

  /** The two group encodings agree once '+' and '/' are removed. */
  lemma GroupSpecials()
    ensures RemoveSpecials("YWI+") == "YWI" == RemoveSpecials("YWI/")
  {
    assert RemoveSpecials("+") == [] == RemoveSpecials("/");
    assert "YWI+"[1..] == "WI+" && "WI+"[1..] == "I+" && "I+"[1..] == "+";
    assert "YWI/"[1..] == "WI/" && "WI/"[1..] == "I/" && "I/"[1..] == "/";
  }

  /** Three leading characters are encoded on their own, ahead of the rest. */
  lemma BtoaGroupPrefix(p: string, rest: string)
    requires |p| == 3 && IsLatin1(p) && IsLatin1(rest)
    ensures IsLatin1(p + rest)
    ensures Btoa(p + rest).value == EncodeGroup(p[0] as int, p[1] as int, p[2] as int) + Btoa(rest).value
  {
    ToBytesConcat(p, rest);
    var b := ToBytes(p + rest);
    assert b[3..] == ToBytes(rest);
    EncodeBytesGroup(b);
  }

  /** The same id without the removal. */
  function SlotInstanceIdUnstripped(templateId: string, anchorId: string, date: Day): (r: Option<string>)
    ensures r.Some? <==> IsLatin1(templateId) && IsLatin1(anchorId)
  {
    InstanceIdPartsLatin1(templateId, anchorId, date);
    Btoa(InstanceIdParts(templateId, anchorId, date))
  }

  /** Without the removal the id is unique: distinct triples of '|'-free ids get distinct ids. */
  lemma SlotInstanceIdUnstrippedInjective(t: Id, a: Id, d: Day, t': Id, a': Id, d': Day)
    requires '|' !in t && '|' !in a && '|' !in t' && '|' !in a'
    requires SlotInstanceIdUnstripped(t, a, d) == SlotInstanceIdUnstripped(t', a', d')
    ensures t == t' && a == a' && d == d'
  {
    InstanceIdPartsLatin1(t, a, d);
    InstanceIdPartsLatin1(t', a', d');
    BtoaInjective(InstanceIdParts(t, a, d), InstanceIdParts(t', a', d'));
    InstanceIdSplit(t, a, d);
    InstanceIdSplit(t', a', d');
    IsoDateInjective(d, d');
  }

  /** An ISO date never contains '|'. */
  lemma NoBarInIsoDate(d: Day)
    ensures '|' !in IsoDate(d)
  {
    var ds := IsoDate(d);
    assert forall i :: 0 <= i < |ds| ==> ds[i] != '|';
  }

  /** The parts string splits back into its three fields on '|'. */
  lemma InstanceIdSplit(t: string, a: string, d: Day)
    requires '|' !in t && '|' !in a
    ensures Split(InstanceIdParts(t, a, d), '|') == [t, a, IsoDate(d)]
  {
    var ds := IsoDate(d);
    NoBarInIsoDate(d);
    assert InstanceIdParts(t, a, d) == t + ['|'] + (a + ['|'] + ds);
    SplitField(t, '|', a + ['|'] + ds);
    SplitField(a, '|', ds);
    SplitNone(ds, '|');
  }

  // ---------------------------------------------------------------------
  // Booked-id lookup

  /** `isSlotBooked`: `bookedSlotIds.includes(slotId)`. */
  function IsSlotBooked(slotId: string, bookedSlotIds: seq<string>): (r: bool)
    ensures r <==> exists i :: 0 <= i < |bookedSlotIds| && bookedSlotIds[i] == slotId
  {
    if bookedSlotIds == [] then false
    else bookedSlotIds[0] == slotId || IsSlotBooked(slotId, bookedSlotIds[1..])
  }
}
