# Weekly calendar: time-slot templates, bookings and the week board

This project models the core of a weekly booking calendar. Administrators
describe recurring availability as **time-slot templates**. Each template
has an optional validity window (`startDate`/`endDate`), an `active` flag, a
creation time and a cycle of **week patterns**. A week pattern lists
**day patterns** (a weekday given by ISO number or by short English name)
and each day pattern lists **slot patterns** (`start`/`end` clock times with
an id).

The model covers:

- **Template utilities** (`lib/templateUtils.ts`):
  - the effective start and end dates of a template;
  - resolving overlapping templates, where newer ones override older ones they cover;
  - the cyclic week index, weekday number and name, and day-pattern filtering;
  - generating concrete slots for a date range, day by day;
  - the Base64 stable anchor id and its explanation;
  - the slot instance id;
  - the booked-slot lookup.
- **The backend** (`convex/calendar.ts`):
  - `bookSlot` and `cancelBooking` over a `bookings` table;
  - the `getBookings` and `getAllBookings` queries;
  - grouping a week's `timeSlots` rows by `dayOfWeek`, read back in JavaScript property order.
- **The week board hook** (`hooks/useCalendarBoard.ts`):
  - the seven board days from a configurable first weekday;
  - the today and before-today tests;
  - the Monday-based week bounds;
  - the `today` state moved by the Prev/Next/Today buttons; Prev never moves into a week before the current one.
- **The calendar context** (`contexts/CalendarContext.tsx`): the selected date-time with week navigation, and the week days and today tests derived from it.
- **The tick hook** (`hooks/useTick.ts`): the timer delay for an interval in hours, minutes or seconds.

How values are represented:

- A calendar date is an integer day number. Day 0 is 1970-01-01, a Thursday. Civil dates use the proleptic Gregorian calendar.
- A Luxon date-time is a day number plus the milliseconds since that day's midnight, in one time zone without daylight-saving shifts.
- A date is written in two ways. The anchor id uses Luxon's `toFormat('yyyy-MM-dd')`, whose year is at least four digits with a `-` sign when negative. The instance id uses `toISODate()`, whose year is four digits for 0..9999 and otherwise a sign and at least six digits.
- `btoa` is the Latin-1 Base64 encoder of RFC 4648, section 4. `atob` is the forgiving decoder of the WHATWG HTML standard.
- Imperative code keeps its form:
  - the `while`/`for` loops of `resolveTemplates`, `generateSlotsFromTemplates` and the grouping reduce are methods with loop invariants;
  - each method is proved equal to a recursive specification function, and the properties are proved as lemmas about those functions;
  - the state of the booking table, the board hook and the context is held in classes.

Modules:

- `Wrappers`: Option and Result.
- `Dates`: weekdays, Monday-based weeks, civil conversion and ISO formatting.
- `Base64`.
- `Schedule`: the template data types.
- `TemplateUtils`.
- `TemplateOrder`: the newest-first sort and the active filter.
- `Resolve`.
- `Generation`.
- `Instants`.
- `CalendarBoard`.
- `CalendarContext`.
- `Tick`.
- `CalendarStore`.

## Model

| member | source | states |
|---|---|---|
| Dates.Weekday | lib/templateUtils.ts:112-114 | the ISO weekday of a day is in 1..7; 1970-01-01 is a Thursday (4) |
| Dates.WeekdaySucc | lib/templateUtils.ts:112-114 | the weekday of the next day is one more, wrapping Sunday (7) to Monday (1) |
| Dates.WeekdayPeriodic | lib/templateUtils.ts:112-114 | shifting a day by whole weeks keeps its weekday |
| Dates.DayName | lib/templateUtils.ts:119-121 | the `ccc` name of a day is the three-letter English name of its weekday |
| Dates.DayNameDetermines | lib/templateUtils.ts:119-121 | two days have the same short name exactly when they have the same weekday |
| Dates.StartOfWeek | hooks/useCalendarBoard.ts:57-63 | the start of a day's week is a Monday, at most six days before it |
| Dates.StartOfWeekShift | hooks/useCalendarBoard.ts:67-73 | moving by whole weeks moves the week start by the same amount; the start of a week start is itself |
| Dates.StartOfWeekMonotone | hooks/useCalendarBoard.ts:67-70 | later days have week starts no earlier; distinct week starts are at least seven days apart |
| Dates.InWeekOf | hooks/useCalendarBoard.ts:53-55 | two days are in the same week exactly when the second lies in the seven days from the first's Monday |
| Dates.WeekdayWithinWeek | hooks/useCalendarBoard.ts:31-43 | two days fewer than seven apart with the same weekday are the same day |
| Dates.StartOfYear | lib/templateUtils.ts:18 | Luxon's `startOf('year')`; stated by `Dates.StartOfYearIs` and `TemplateUtils.EffectiveDefaults` |
| Dates.StartOfYearIs | lib/templateUtils.ts:18 | the start of a day's year is January 1 of that year, and is its own start of year |
| Dates.ToCivil | lib/templateUtils.ts:228 | the civil date of a day number has a month in 1..12 and a day in 1..31 and converts back to that day number; `Dates.ToCivilValid` shows the day fits the month |
| Dates.IsLeapYear | lib/templateUtils.ts:228 | the Gregorian leap-year rule: divisible by 4 and not by 100, or divisible by 400 |
| Dates.DaysInMonth | lib/templateUtils.ts:228 | the length of a month, at least its common-year length and at most 31; it is 29 exactly for February of a leap year |
| Dates.LeapYearOfEraIs | lib/templateUtils.ts:228 | the calendar year after a March-based year of an era is leap exactly when that year ends in a leap day |
| Dates.SplitEraLeap | lib/templateUtils.ts:228 | the era split yields day 365 (a leap day) only in a March-based year that ends in one |
| Dates.MonthDayFits | lib/templateUtils.ts:228 | a day of year up to 364 gives a day that fits its common-year month; day 365 is February 29 |
| Dates.CivilOfEraDayValid | lib/templateUtils.ts:228 | the civil date of a day of an era has a day that fits its month |
| Dates.ToCivilValid | lib/templateUtils.ts:228 | the civil date of every day number has a day that fits its month, February 29 only in a leap year |
| Dates.CivilOfEraDay | lib/templateUtils.ts:228 | the civil date of a day within a 400-year era converts back to that day |
| Dates.SplitEra | lib/templateUtils.ts:228 | a day of an era splits into a year of the era and a day of that year |
| Dates.MonthDay | lib/templateUtils.ts:228 | a day of the March-based year splits into a month and a day of the month |
| Dates.ToCivilInjective | lib/templateUtils.ts:228 | distinct day numbers have distinct civil dates |
| Dates.SplitEraUnique | lib/templateUtils.ts:228 | splitting an era day recovers the year and the day of year it was built from, the leap day (day 365) included in a year that has one |
| Dates.MonthDayUnique | lib/templateUtils.ts:228 | splitting a day of year recovers the month and day it was built from, February 29 included; February 29 is day 365 and no other date is |
| Dates.CivilRoundTrip | lib/templateUtils.ts:13-31 | a valid civil date (day within its month, February 29 only in a leap year) converted to a day number and back is unchanged |
| Dates.FixedBounds | lib/templateUtils.ts:30 | the day numbers of 1900-01-01, 2100-01-01 and 2100-12-31 are -25567, 47482 and 47846 |
| Dates.PadStart | lib/templateUtils.ts:228 | zero-padding gives at least the requested width, all digits |
| Dates.PadStartValue | lib/templateUtils.ts:228 | zero-padding keeps the decimal value of the number |
| Dates.FormatYear | lib/templateUtils.ts:228 | a formatted year has at least four characters, digits and a sign |
| Dates.FormatDate | lib/templateUtils.ts:228 | `yyyy-MM-dd` has at least ten characters, all digits or `-` |
| Dates.FormatYearInjective | lib/templateUtils.ts:228 | distinct years format differently |
| Dates.FormatYearRead | lib/templateUtils.ts:228 | the sign and the digits of a formatted year give back the year |
| Dates.FormatDateInjective | lib/templateUtils.ts:228 | distinct days give distinct `yyyy-MM-dd` strings, so the date in an anchor id names one day |
| Dates.IsoYear | lib/templateUtils.ts:43 | the year of `toISODate()` is digits with at most a leading sign: exactly four characters for 0..9999, and at least seven (a sign and six digits) otherwise |
| Dates.IsoYearRead | lib/templateUtils.ts:43 | the first character of an ISO year is `+` exactly above 9999 and `-` exactly below 0, and the digits give back the year |
| Dates.IsoYearInjective | lib/templateUtils.ts:43 | distinct years give distinct ISO years |
| Dates.IsoDate | lib/templateUtils.ts:43 | `toISODate()` has at least ten characters, all digits, `-` or `+` |
| Dates.IsoDateInjective | lib/templateUtils.ts:43 | distinct days give distinct `toISODate()` strings, so the date in an instance id names one day |
| Dates.IsoDateAgrees | lib/templateUtils.ts:43 | `toISODate()` equals `yyyy-MM-dd` for years 0..9999, and differs from it above 9999 and for years -99999..-1 |
| Base64.EncodeUnpadded | lib/templateUtils.ts:230 | the unpadded encoding uses only alphabet characters and has 4 per 3 bytes plus 2 or 3 for a partial group |
| Base64.EncodeBytes | lib/templateUtils.ts:230 | the padded encoding is four characters per started group of three bytes |
| Base64.GroupRoundTrip | lib/templateUtils.ts:230 | decoding an encoded group of three bytes gives the bytes back |
| Base64.UnpaddedRoundTrip | lib/templateUtils.ts:328 | decoding the sextets of an unpadded encoding gives the bytes back |
| Base64.StripEncoded | lib/templateUtils.ts:328 | stripping the `=` padding of an encoding leaves the unpadded encoding |
| Base64.DecodeEncode | lib/templateUtils.ts:328 | the forgiving decoder inverts the encoder on every byte string |
| Base64.Btoa | lib/templateUtils.ts:230 | `btoa` succeeds exactly on strings whose characters are all below 256 |
| Base64.AtobBtoa | lib/templateUtils.ts:328 | `atob(btoa(s)) == s` for every Latin-1 string |
| Base64.BtoaInjective | lib/templateUtils.ts:230 | distinct Latin-1 strings have distinct encodings |
| Base64.BtoaAlphabet | lib/templateUtils.ts:44 | an encoding contains only alphabet characters and `=` |
| Base64.DecodeBytes | lib/templateUtils.ts:328 | the forgiving decode of the bytes; its properties are those of `Base64.DecodeEncode`, `Base64.AtobRejectsForeignChar` and `Base64.AtobRejectsLengthOne` |
| Base64.Atob | lib/templateUtils.ts:328 | `atob` succeeds exactly when the forgiving decode does, and then gives a Latin-1 string of one character per decoded byte |
| Base64.AtobRejectsForeignChar | lib/templateUtils.ts:328 | `atob` fails on any input holding a character that is not alphabet, whitespace or `=` |
| Base64.AtobRejectsLengthOne | lib/templateUtils.ts:328 | `atob` fails on a single non-whitespace character |
| Base64.Latin1Concat | lib/templateUtils.ts:43-44 | a concatenation is Latin-1 exactly when both parts are |
| TemplateUtils.EffectiveStartDate | lib/templateUtils.ts:13-19 | a set start date is used as given; without one the start is January 1st of the current year (see also `TemplateUtils.EffectiveDefaults`) |
| TemplateUtils.EffectiveEndDate | lib/templateUtils.ts:25-31 | a set end date is used as given; without one the end is 2100-12-31 |
| TemplateUtils.EffectiveDefaults | lib/templateUtils.ts:13-31 | a set start or end date is used as given; without one the start is January 1st of the current year and the end is 2100-12-31 |
| TemplateUtils.JsRemainder | lib/templateUtils.ts:105 | JavaScript's `%` agrees with the mathematical remainder on non-negative operands and is in (-n, 0] on negative ones |
| TemplateUtils.GetWeekIndex | lib/templateUtils.ts:97-107 | the week index is NaN (None) exactly when there are no weeks; from the anchor on it is in 0..weeks-1; before the anchor it is in (-weeks, 0] |
| TemplateUtils.WeekIndexPeriodic | lib/templateUtils.ts:97-107 | the week index repeats every `totalWeeks` weeks |
| TemplateUtils.WeekIndexCounts | lib/templateUtils.ts:97-107 | from the anchor the index counts whole weeks elapsed modulo the cycle; the first seven days get week 0 |
| TemplateUtils.WeekIndexBeforeAnchor | lib/templateUtils.ts:102-105 | the day before the anchor gets index -1, which no array element has |
| TemplateUtils.GetDayOfWeek | lib/templateUtils.ts:112-114 | the day of week is in 1..7 |
| TemplateUtils.GetDayName | lib/templateUtils.ts:119-121 | the day name is one of the seven short names |
| TemplateUtils.FindApplicableDayPatterns | lib/templateUtils.ts:126-141 | the filter keeps no more day patterns than there are |
| TemplateUtils.SelectorMatches | lib/templateUtils.ts:134-140 | the filter callback; stated by `TemplateUtils.SelectorKinds` and `TemplateUtils.FindApplicableSpec` |
| TemplateUtils.FindApplicableSpec | lib/templateUtils.ts:126-141 | a day pattern is kept exactly when it is in the week and its selector matches the date; the kept patterns keep their order |
| TemplateUtils.SelectorKinds | lib/templateUtils.ts:134-139 | a numeric selector matches exactly the ISO weekday, a string one exactly the short name; a digit string never matches |
| TemplateUtils.FindApplicablePrefix | lib/templateUtils.ts:134-140 | filtering a split list is filtering each part and joining the results |
| TemplateUtils.AnchorIdParts | lib/templateUtils.ts:228-229 | the `templateId:date:slotId` string is Latin-1, so `btoa` accepts it |
| TemplateUtils.StableAnchorId | lib/templateUtils.ts:227-230 | the Base64 of the parts string; it decodes back (`TemplateUtils.ExplainStableAnchorIdRecovers`) and is injective on colon-free ids (`TemplateUtils.StableAnchorIdInjective`) |
| TemplateUtils.Split | lib/templateUtils.ts:329 | `split` returns at least one field |
| TemplateUtils.SplitField | lib/templateUtils.ts:329 | splitting a separator-free field, the separator and the rest gives that field then the rest's fields |
| TemplateUtils.Shown | lib/templateUtils.ts:335 | how the template literal renders a field: its text, or `undefined` when missing; stated by `TemplateUtils.ExplainStableAnchorIdRecovers` and `TemplateUtils.ExplainInvalid` |
| TemplateUtils.ExplainDecoded | lib/templateUtils.ts:329-336 | the explained template id is the first `:`-separated field |
| TemplateUtils.ExplainStableAnchorId | lib/templateUtils.ts:318-345 | an undecodable anchor id gives the `Invalid` explanation; a decodable one is explained by its first `:` field as template id (round trip in `TemplateUtils.ExplainStableAnchorIdRecovers`) |
| TemplateUtils.ExplainStableId | lib/templateUtils.ts:318-336 | explaining an anchor id explains the decoded parts string |
| TemplateUtils.SplitParts | lib/templateUtils.ts:229 | a parts string splits back into its template id, date and slot id when neither id has a `:` |
| TemplateUtils.ExplainStableAnchorIdRecovers | lib/templateUtils.ts:318-345 | explaining a stable anchor id gives back its template id, `yyyy-MM-dd` date and slot id and the matching pattern text |
| TemplateUtils.StableAnchorIdInjective | lib/templateUtils.ts:227-230 | distinct (template, date, slot) triples without `:` in the ids get distinct anchor ids |
| TemplateUtils.SplitAround | lib/templateUtils.ts:329 | splitting at one separator joins the fields of both sides |
| TemplateUtils.ColonInTemplateIdMisread | lib/templateUtils.ts:229 | a template id with one `:` is explained as its first half, with its second half as the date and the real date as the slot |
| TemplateUtils.SplitAnchorParts | lib/templateUtils.ts:229 | a parts string splits into the template id's fields, the date and the slot id |
| TemplateUtils.ExplainFields | lib/templateUtils.ts:329-336 | the first three fields of the decoded text become template id, date and slot id |
| TemplateUtils.ExplainInvalid | lib/templateUtils.ts:337-344 | an undecodable anchor id gives the `Invalid` explanation |
| TemplateUtils.ExplainRejectsForeignChar | lib/templateUtils.ts:327-344 | an anchor id with a character outside Base64 and whitespace gives the `Invalid` explanation |
| TemplateUtils.RemoveSpecials | lib/templateUtils.ts:44 | removing `+`, `/` and `=` leaves none of them, keeps the other characters in order, and changes nothing when none occur |
| TemplateUtils.RemoveSpecialsConcat | lib/templateUtils.ts:44 | the global replace works piecewise over a concatenation |
| TemplateUtils.InstanceIdParts | lib/templateUtils.ts:42-44 | the `templateId|anchorId|toISODate()` literal; stated by `TemplateUtils.InstanceIdPartsLatin1`, `TemplateUtils.InstanceIdSplit` and `TemplateUtils.InstanceIdPartsAfter` |
| TemplateUtils.InstanceIdPartsLatin1 | lib/templateUtils.ts:43 | the `templateId|anchorId|toISODate()` string is Latin-1 exactly when both ids are |
| TemplateUtils.GenerateSlotInstanceId | lib/templateUtils.ts:37-45 | an instance id exists exactly when both ids are Latin-1 (otherwise `btoa` throws); it is purely ASCII letters and digits |
| TemplateUtils.SlotInstanceIdCollision | lib/templateUtils.ts:44 | template ids `ab>` and `ab?` get the same instance id for every anchor and date |
| TemplateUtils.GroupEndCollision | lib/templateUtils.ts:44 | any common suffix after `ab>` or `ab?` keeps the collision |
| TemplateUtils.InstanceIdPartsAfter | lib/templateUtils.ts:43 | the instance parts string is the template id followed by the parts string of an empty template id |
| TemplateUtils.GroupCodes | lib/templateUtils.ts:44 | `ab>` and `ab?` encode to `YWI+` and `YWI/` |
| TemplateUtils.BtoaGroupPrefix | lib/templateUtils.ts:44 | three leading characters encode to one group followed by the encoding of the rest |
| TemplateUtils.SlotInstanceIdUnstripped | lib/templateUtils.ts:37-45 | the corrected id, Base64 without stripping, exists exactly when both ids are Latin-1 |
| TemplateUtils.SlotInstanceIdUnstrippedInjective | lib/templateUtils.ts:37-45 | distinct (template, anchor, date) triples without `|` in the ids get distinct corrected ids |
| TemplateUtils.NoBarInIsoDate | lib/templateUtils.ts:43 | `toISODate()` holds no `|` |
| TemplateUtils.InstanceIdSplit | lib/templateUtils.ts:43 | the instance parts string splits at `|` back into template id, anchor id and `toISODate()` when neither id has a `|` |
| TemplateUtils.IsSlotBooked | lib/templateUtils.ts:252-257 | a slot is booked exactly when its id occurs in the booked list |
| TemplateOrder.CreatedAt | lib/templateUtils.ts:55-57 | filtering by creation time keeps exactly the templates with that time |
| TemplateOrder.InsertByAge | lib/templateUtils.ts:55-57 | inserting into the sorted list adds exactly that template |
| TemplateOrder.InsertByAgeSorted | lib/templateUtils.ts:55-57 | inserting keeps the list newest first |
| TemplateOrder.SortNewestFirst | lib/templateUtils.ts:55-57 | the sort is a permutation and orders templates by decreasing creation time |
| TemplateOrder.InsertByAgeStable | lib/templateUtils.ts:55-57 | an inserted template goes after the ones created at the same time |
| TemplateOrder.SortStable | lib/templateUtils.ts:55-57 | templates with equal creation times keep their input order (the sort is stable) |
| TemplateOrder.ActiveOnly | lib/templateUtils.ts:152-157 | the filter keeps exactly the active templates, in order |
| Resolve.ResolveStart | lib/templateUtils.ts:69-80 | a template without a start date starts at 1900-01-01 for overriding |
| Resolve.ResolveEnd | lib/templateUtils.ts:69-80 | a template without an end date ends at 2100-01-01 for overriding |
| Resolve.CoversPreorder | lib/templateUtils.ts:82 | covering is reflexive exactly on active templates and is transitive |
| Resolve.Covers | lib/templateUtils.ts:82 | an active kept template whose window contains the other's; its properties are stated by `Resolve.CoversPreorder`, `Resolve.IsOverridden` and `Resolve.ResolvedCovers` |
| Resolve.IsOverridden | lib/templateUtils.ts:65-83 | a template is overridden exactly when some kept template covers its window |
| Resolve.Resolved | lib/templateUtils.ts:59-90 | kept templates are active inputs, in input order (a subsequence), and no kept template covers a later-kept one |
| Resolve.KeptStaysKept | lib/templateUtils.ts:82-86 | a template kept or covered by the list so far stays kept or covered as the list grows |
| Resolve.ResolvedPrefix | lib/templateUtils.ts:61-88 | the templates kept from a prefix are a prefix of those kept from the whole |
| Resolve.ResolvedCovers | lib/templateUtils.ts:61-88 | every active template is kept or covered by a kept one |
| Resolve.ResolvedNewestFirst | lib/templateUtils.ts:61-88 | the kept templates stay newest first |
| Resolve.ResolvedHead | lib/templateUtils.ts:61-88 | the first active template (the newest) is always kept, first |
| Resolve.ResolvedNone | lib/templateUtils.ts:61-88 | without active templates nothing is kept |
| Resolve.ResolveTemplates | lib/templateUtils.ts:51-91 | the loop keeps active templates that no earlier kept one covers; the result is newest first, overlap-free, and accounts for every active template; the result is a subsequence of the sorted templates, so templates created at the same time keep their input order (with `TemplateOrder.SortStable`) |
| Generation.Governs | lib/templateUtils.ts:169-176 | the window test, both ends inclusive; stated by `Generation.GoverningIndexSpec` and `Generation.SlotsGoverned` |
| Generation.GoverningIndex | lib/templateUtils.ts:166-185 | the index of the template that governs a day; stated by `Generation.GoverningIndexSpec`, `Generation.GoverningIndexIs` and `Generation.GoverningIndexNone` |
| Generation.GoverningIndexSpec | lib/templateUtils.ts:168-180 | the search finds the first active template whose window holds the day, or none when no window does |
| Generation.GoverningIndexIs | lib/templateUtils.ts:168-180 | the first template whose window holds the day is the one found |
| Generation.GoverningIndexNone | lib/templateUtils.ts:182-185 | when no window holds the day nothing is found |
| Generation.WeekAnchor | lib/templateUtils.ts:188-197 | the week anchor is the Monday of the template's effective start week |
| Generation.WeekPatternFor | lib/templateUtils.ts:200-204 | the week pattern chosen for a day is one of the template's weeks |
| Generation.MakeSlot | lib/templateUtils.ts:212-239 | a generated slot has the stable anchor id of its template, date and slot pattern, carries the template id and the date, is unbooked, and starts and ends at the pattern's clock times on that day |
| Generation.PatternSlots | lib/templateUtils.ts:211-240 | one slot per slot pattern |
| Generation.PatternSlotsOf | lib/templateUtils.ts:211-240 | the slots of a day pattern all belong to the template and the day |
| Generation.DayPatternsSlots | lib/templateUtils.ts:210-241 | the slots of the applicable day patterns, each pattern's in turn; stated by `Generation.DayPatternsSlotsOf`, `Generation.DayPatternsSlotsConcat`, `Generation.DayPatternsSlotsExplain` and `Generation.EmitDaySlots` |
| Generation.DayPatternsSlotsOf | lib/templateUtils.ts:210-241 | the slots of a day's patterns all belong to the template and the day |
| Generation.DaySlots | lib/templateUtils.ts:164-244 | the slots of one day; stated by `Generation.DaySlotsFacts`, `Generation.DaySlotsOfPattern`, `Generation.DaySlotsWithWeek` and `Generation.DaySlotsWithoutWeek` |
| Generation.SlotsBetween | lib/templateUtils.ts:164-244 | the slots of a range of days; stated by `Generation.SlotsBetweenOrdered`, `Generation.SlotsGoverned` and `Generation.SlotsOfDay` |
| Generation.GeneratedSlots | lib/templateUtils.ts:146-247 | the specification of generation; `Generation.GenerateSlotsFromTemplates` computes it, and `Generation.GeneratedSlotsExplain` states its slots' ids |
| Generation.DaySlotsFacts | lib/templateUtils.ts:164-244 | a day with slots has a governing template and all its slots come from it |
| Generation.GenerateSlotsFromTemplates | lib/templateUtils.ts:146-247 | the result is the day-by-day slots of the active templates, newest first, over the range; all unbooked, in date order, inside the range |
| Generation.GenerateDays | lib/templateUtils.ts:164-244 | the day loop appends each day's slots from the start date to the end date |
| Generation.GenerateDay | lib/templateUtils.ts:166-241 | the loop body gives the slots of the governing template's applicable patterns for the day |
| Generation.FindApplicableTemplate | lib/templateUtils.ts:166-180 | the search loop returns the first active template whose window holds the day |
| Generation.EmitDaySlots | lib/templateUtils.ts:210-241 | the outer pattern loop emits the slots of every applicable day pattern in order |
| Generation.EmitPatternSlots | lib/templateUtils.ts:211-240 | the inner loop appends one slot per slot pattern in order |
| Generation.SlotsBetweenStep | lib/templateUtils.ts:164-244 | the slots of a range are those of the range without its last day followed by the last day's |
| Generation.DaySlotsWithoutWeek | lib/templateUtils.ts:193-204 | a day whose week index hits no week pattern gets no slots |
| Generation.DaySlotsWithWeek | lib/templateUtils.ts:200-241 | a day whose week index hits a pattern gets that pattern's applicable slots |
| Generation.SlotsBetweenOrdered | lib/templateUtils.ts:146-247 | generated slots are unbooked, dated inside the range, and in non-decreasing date order |
| Generation.NoActiveNoSlots | lib/templateUtils.ts:159 | with no active templates no slots are generated |
| Generation.SlotsGoverned | lib/templateUtils.ts:164-244 | every generated slot comes from the template governing its date |
| Generation.SlotsOfDay | lib/templateUtils.ts:164-244 | the slots generated for one day of the range are exactly that day's slots |
| Generation.OnDayConcat | lib/templateUtils.ts:164-244 | selecting a day's slots works piecewise over a concatenation |
| Generation.WeekIndexInRange | lib/templateUtils.ts:193-204 | for a governed day of a template with weeks, the index is a valid week and a pattern is chosen |
| Generation.EmptyWeeksBlock | lib/templateUtils.ts:193-204 | a governing template without weeks gives the day no slots, and older templates are not consulted |
| Generation.DaySlotsOfPattern | lib/templateUtils.ts:193-241 | a governed day gets the slots of the day patterns matching it in its cyclic week |
| Generation.ColonFreeIds | lib/templateUtils.ts:229 | a template whose id and slot-pattern ids hold no `:` |
| Generation.ExplainsBack | lib/templateUtils.ts:318-345 | a slot whose id explains back to its template id, its date and a colon-free Latin-1 slot id that rebuild the id |
| Generation.MakeSlotExplains | lib/templateUtils.ts:212-239 | with colon-free ids, a made slot's id explains back to its template, date and slot pattern id |
| Generation.PatternSlotsExplain | lib/templateUtils.ts:211-240 | the ids of a slot-pattern list's slots all explain back |
| Generation.DayPatternsSlotsExplain | lib/templateUtils.ts:210-241 | the ids of a day-pattern list's slots all explain back |
| Generation.DaySlotsExplain | lib/templateUtils.ts:164-244 | with colon-free templates, the ids of one day's slots all explain back |
| Generation.SlotsBetweenExplain | lib/templateUtils.ts:164-244 | with colon-free templates, the ids of a range's slots all explain back |
| Generation.GeneratedSlotsExplain | lib/templateUtils.ts:146-247 | with colon-free templates, every generated slot's id explains back to its template id, date and slot id, and the slot comes from its day's governing template |
| Generation.DayPatternsSlotsConcat | lib/templateUtils.ts:210-241 | the slots of joined day-pattern lists are the joined slots |
| Instants.PlusDays | hooks/useCalendarBoard.ts:42 | adding days moves the day and keeps the time of day |
| Instants.StartOfDayOf | contexts/CalendarContext.tsx:46-48 | `startOf('day')` is midnight of the same day |
| Instants.StartOfWeekOf | hooks/useCalendarBoard.ts:57-63 | `startOf('week')` is a Monday midnight in the same week |
| Instants.EndOfWeekOf | hooks/useCalendarBoard.ts:57-63 | `endOf('week')` is the last millisecond of the Sunday of the same week |
| Instants.Before | hooks/useCalendarBoard.ts:50 | Luxon's `<` on date-times; stated by `Instants.BeforeOrder` and `Instants.BeforeOtherDay` |
| Instants.SameDay | hooks/useCalendarBoard.ts:45-47 | `hasSame(…, 'day')`; stated by `CalendarBoard.IsBeforeTodayDays` |
| Instants.SameWeekAs | hooks/useCalendarBoard.ts:53-55 | `hasSame(…, 'week')` with Monday weeks; stated by `Dates.InWeekOf` and `CalendarBoard.NextWeekStays` |
| Instants.BeforeOrder | hooks/useCalendarBoard.ts:49-51 | date-times are ordered by day, then by time of day |
| Instants.BeforeOtherDay | hooks/useCalendarBoard.ts:49-51 | on different days, earlier means an earlier day |
| Instants.WeekBracket | hooks/useCalendarBoard.ts:57-63 | the week start and end bracket the date-time, six days apart |
| CalendarBoard.WeekStartValue | hooks/useCalendarBoard.ts:21-29 | the enum values are 1..7 |
| CalendarBoard.LuxonStart | hooks/useCalendarBoard.ts:37 | mapping Sunday to 7 keeps every enum value |
| CalendarBoard.GetWeekDays | hooks/useCalendarBoard.ts:31-43 | seven consecutive days starting on the configured weekday, holding the given date, all at its time of day |
| CalendarBoard.WeekDaysStart | hooks/useCalendarBoard.ts:31-43 | the first board day is the only day with the configured weekday in the seven days ending at the date |
| CalendarBoard.MondayWeekDays | hooks/useCalendarBoard.ts:31-43 | a Monday board starts at the date's week start |
| CalendarBoard.IsToday | hooks/useCalendarBoard.ts:45-47 | same day as the clock; stated by `CalendarBoard.IsBeforeTodayDays` |
| CalendarBoard.IsBeforeToday | hooks/useCalendarBoard.ts:49-51 | not today and earlier than the clock; stated by `CalendarBoard.IsBeforeTodayDays` |
| CalendarBoard.IsBeforeTodayDays | hooks/useCalendarBoard.ts:45-51 | a date is before today exactly when it lies on an earlier day; a date is never both today and before today |
| CalendarBoard.IsSameWeek | hooks/useCalendarBoard.ts:53-55 | in the clock's Monday-based week; stated by `Dates.InWeekOf`, `CalendarBoard.PrevWeekStays` and `CalendarBoard.NextWeekStays` |
| CalendarBoard.GetMonthsFromWeek | hooks/useCalendarBoard.ts:57-63 | the bounds are Monday midnight and the Sunday last millisecond of the date's week, bracketing the date |
| CalendarBoard.WeekBoundsMatchMondayBoard | hooks/useCalendarBoard.ts:31-63 | the week bounds start on the first day of a Monday board |
| CalendarBoard.PrevWeek | hooks/useCalendarBoard.ts:67-70 | the Prev button's new `today`; stated by `CalendarBoard.PrevWeekStays` and `CalendarBoard.PrevUndoesNext` |
| CalendarBoard.NextWeek | hooks/useCalendarBoard.ts:71-73 | the Next button's new `today`; stated by `CalendarBoard.NextWeekStays` and `CalendarBoard.PrevUndoesNext` |
| CalendarBoard.PrevWeekStays | hooks/useCalendarBoard.ts:67-70 | Prev never moves `today` into a week before the current one |
| CalendarBoard.NextWeekStays | hooks/useCalendarBoard.ts:71-73 | Next keeps `today` in or after the current week, and always leaves the current week |
| CalendarBoard.PrevUndoesNext | hooks/useCalendarBoard.ts:67-73 | from the current week or later, Prev after Next returns to the same date-time |
| CalendarBoard.PressStays | hooks/useCalendarBoard.ts:66-77 | from the current week or later, no sequence of button presses reaches an earlier week |
| CalendarBoard.Board.constructor | hooks/useCalendarBoard.ts:66 | the state starts at the given date |
| CalendarBoard.Board.SetWeekStart | hooks/useCalendarBoard.ts:65 | a new `weekStart` prop replaces the first weekday and keeps `today` |
| CalendarBoard.Board.HandlePrevWeek | hooks/useCalendarBoard.ts:67-70 | inside the current week `today` stays; otherwise it moves back a week; not being before the current week is preserved |
| CalendarBoard.Board.HandleNextWeek | hooks/useCalendarBoard.ts:71-73 | `today` moves on a week, and not being before the current week is preserved |
| CalendarBoard.Board.HandleToday | hooks/useCalendarBoard.ts:75-77 | `today` becomes the clock, which is in the current week |
| CalendarBoard.Board.WeekDays | hooks/useCalendarBoard.ts:87 | seven board days holding `today`, starting on the configured weekday |
| CalendarBoard.Board.StartOfEndOfWeek | hooks/useCalendarBoard.ts:88 | the Monday-based bounds bracket `today` |
| CalendarContext.Context.constructor | contexts/CalendarContext.tsx:46-48 | the selection starts at midnight of the current day |
| CalendarContext.Context.SetCurrentDateTime | contexts/CalendarContext.tsx:37-45 | a new clock prop leaves the selection alone |
| CalendarContext.Context.StartOfEndOfWeek | contexts/CalendarContext.tsx:50-53 | the bounds start on a Monday midnight and bracket the selection |
| CalendarContext.Context.WeekDays | contexts/CalendarContext.tsx:55-57 | seven consecutive midnights from the selection's Monday, one on the selected day |
| CalendarContext.Context.IsCurrentWeek | contexts/CalendarContext.tsx:59-61 | the selection is in the clock's week; `CalendarContext.Context.GoToToday` makes it hold |
| CalendarContext.Context.IsToday | contexts/CalendarContext.tsx:63-65 | same day as the clock; `CalendarContext.Context.IsBeforeToday` excludes it |
| CalendarContext.Context.IsBeforeToday | contexts/CalendarContext.tsx:67-70 | a date-time is before today exactly when its day precedes the clock's day; such a date-time is never today |
| CalendarContext.Context.GoToNextWeek | contexts/CalendarContext.tsx:72-74 | the selection moves on seven days; the clock is unchanged |
| CalendarContext.Context.GoToPreviousWeek | contexts/CalendarContext.tsx:76-78 | the selection moves back seven days; the clock is unchanged |
| CalendarContext.Context.GoToToday | contexts/CalendarContext.tsx:80-82 | the selection becomes the clock, so the current week is shown |
| CalendarContext.NextThenPrevious | contexts/CalendarContext.tsx:72-78 | next week then previous week restores the selection |
| CalendarContext.WeekDaysAsBoard | contexts/CalendarContext.tsx:55-57 | the context's week days fall on the same days as a Monday board's |
| Tick.GetDelay | hooks/useTick.ts:10-20 | the delay is the interval times 3,600,000, 60,000 or 1000 ms for hours, minutes or seconds |
| Tick.DelayRatios | hooks/useTick.ts:10-20 | an hour's delay is 60 minutes' and a minute's is 60 seconds' |
| Tick.DelayMonotone | hooks/useTick.ts:10-20 | longer intervals give delays no shorter |
| CalendarStore.Matches | convex/calendar.ts:102-103 | the `slotId` and `userId` filters of the book and cancel lookups (also at convex/calendar.ts:131-133); stated by `CalendarStore.FirstMatch` and `CalendarStore.CancelFrees` |
| CalendarStore.FirstMatch | convex/calendar.ts:100-104 | the lookup finds the first row with that slot and user, or none exactly when no row matches |
| CalendarStore.FirstMatchAt | convex/calendar.ts:100-104 | the first matching row is the one found |
| CalendarStore.DeleteId | convex/calendar.ts:140 | deleting a document keeps exactly the rows with other ids |
| CalendarStore.DeleteIdAbsent | convex/calendar.ts:140 | deleting an absent id changes nothing |
| CalendarStore.DeleteIdAt | convex/calendar.ts:140 | with distinct ids, deleting a row's id removes exactly that row |
| CalendarStore.RemoveAtKeeps | convex/calendar.ts:140 | removing a row keeps ids distinct and at most one booking per slot and user |
| CalendarStore.AppendKeepsOne | convex/calendar.ts:106-117 | inserting only when no booking exists keeps at most one per slot and user |
| CalendarStore.CancelFrees | convex/calendar.ts:124-143 | after a cancellation the slot and user have no booking |
| CalendarStore.CancelUndoesBook | convex/calendar.ts:91-143 | cancelling a booking just made finds it and restores the previous table |
| CalendarStore.UserBookings | convex/calendar.ts:74-77 | the user filter keeps exactly the user's rows, in table order |
| CalendarStore.UserBookingsConcat | convex/calendar.ts:74-77 | filtering works piecewise over a concatenation of rows |
| CalendarStore.UserBookingsOne | convex/calendar.ts:74-77 | a single row is kept exactly when it is the user's |
| CalendarStore.AllBookingsByUser | convex/calendar.ts:217-231 | every booking appears among its user's bookings |
| CalendarStore.BookingTable.constructor | convex/calendar.ts:91-121 | the table starts empty |
| CalendarStore.BookingTable.BookSlot | convex/calendar.ts:91-121 | an existing booking for the slot and user raises "Slot is already booked" and changes nothing; otherwise one row is appended and its new id returned |
| CalendarStore.BookingTable.CancelBooking | convex/calendar.ts:124-143 | a missing booking raises "Booking not found" and changes nothing; otherwise the first match is removed and `true` returned |
| CalendarStore.BookingTable.GetBookings | convex/calendar.ts:71-88 | returns exactly the user's bookings, in table order, and changes nothing |
| CalendarStore.BookingTable.GetAllBookings | convex/calendar.ts:217-231 | returns every booking of the table, in order, each also returned for its user; changes nothing |
| CalendarStore.KeysInOrder | convex/calendar.ts:172-189 | the keys created by the reduce are distinct and are exactly the days that occur |
| CalendarStore.KeysOfKind | convex/calendar.ts:203-206 | splitting keys into array indices and other keys keeps exactly those of each kind |
| CalendarStore.InsertAscending | convex/calendar.ts:203-206 | inserting into an ascending list keeps it ascending with one more key |
| CalendarStore.SortAscending | convex/calendar.ts:203-206 | sorting distinct keys gives them ascending |
| CalendarStore.PropertyOrder | convex/calendar.ts:203-206 | `Object.entries` lists each key once, array-index keys first and ascending |
| CalendarStore.SlotsOn | convex/calendar.ts:174-184 | the bucket of one day key; stated by `CalendarStore.SlotsOnStep`, `CalendarStore.SlotsOnConcat` and `CalendarStore.EveryRowOnce` |
| CalendarStore.SlotsOnStep | convex/calendar.ts:172-185 | one more row adds its entry to its own day's bucket only |
| CalendarStore.KeysInOrderStep | convex/calendar.ts:174-177 | a row creates a key exactly when its day has none yet |
| CalendarStore.GroupByDay | convex/calendar.ts:172-189 | the reduce loop followed by `Object.entries` gives the day groups in property order, each with its rows in order |
| CalendarStore.GroupedDays | convex/calendar.ts:172-206 | the day groups in property order; stated by `CalendarStore.GroupByDay`, `CalendarStore.GroupedDaysKeys` and `CalendarStore.EveryRowOnce` |
| CalendarStore.GroupedDaysKeys | convex/calendar.ts:172-206 | the groups have distinct days, one for each day that occurs, array-index days first and ascending |
| CalendarStore.EveryRowOnce | convex/calendar.ts:172-206 | every row is in the group of its day, and no other group has that day |
| CalendarStore.SlotsOnConcat | convex/calendar.ts:172-189 | grouping works piecewise over a concatenation of rows |

## Left out

- Parsing is not modelled. `HH:mm` strings (`split(':').map(Number)`) and ISO `startDate`/`endDate`/`createdAt` strings arrive already parsed as clock times, day numbers and integer timestamps. An invalid string (Luxon's invalid `DateTime`, a `NaN` comparator in the sort) is not modelled.
- Time zones and daylight saving are not modelled. Luxon's zone handling and week numbering (`weekNumber`) are left out. A date-time is a day plus milliseconds in one fixed zone.
- The clock is a parameter. `DateTime.now()` becomes `now`, or `thisYear` (the start of the current year) in the template utilities. The two clock reads in generation are taken as one value.
- Persistence is not modelled: the Convex `ctx.db` queries, `Promise.all`, `_creationTime` and `new Date().toISOString()`. A booking's `bookedAt` is a parameter and a document id is a fresh counter value. The queries read the table in insertion order.
- `getTemplates` (`convex/calendar.ts:5-68`) performs the same reduce as `getAllTemplates`. It is modelled once, by `CalendarStore.GroupByDay`. The surrounding per-template and per-week queries are left out, because they only read the database.
- CalendarStore.GroupByDay: `dayOfWeek` is an integer. Non-integer numbers, and keys of 10^21 or more that `parseInt` would misread, are not modelled.
- `createTemplateFromJSON`, `createDefaultTemplate` and `createTemporaryTemplate` are not modelled. They only build records from constant or caller data, and their ids and timestamps come from the clock.
- Template ids and slot-pattern ids are Latin-1 by their type (`Schedule.Id`). So the exception `btoa` would raise inside generation on other ids is not modelled. `Base64.Btoa` and `TemplateUtils.GenerateSlotInstanceId` do model that failure, as `None`.
- Generation.PatternSlots: its own contract states only one slot per pattern. That slot `i` is `MakeSlot` of pattern `i` is not stated pointwise; the slots' template, date, booking state and ids are stated by `Generation.PatternSlotsOf` and `Generation.PatternSlotsExplain`.
- The body of the generation loop is split into methods: `FindApplicableTemplate`, `GenerateDay`, `EmitDaySlots` and `EmitPatternSlots`. Each keeps the source's loop.
- Tick.GetDelay: JavaScript numbers are unbounded integers here (no floating point and no fractional intervals). The fallback `return interval` cannot be reached, because the match over the three ticks is exhaustive.
- The timer in `useTick` (`useEffect`, `setTimeout`/`setInterval`) and React rendering are left out. This includes the components, `getSlotStyle` and the demo data.
- The `currentDateTime` prop of the context provider is the field `currentDateTime`. A new prop value is `SetCurrentDateTime`.
- The `weekStart` prop of the board hook is the field `weekStart`. A re-render with a new value is `SetWeekStart`.

## Findings

| source | as written | input that shows it | evidently intended | confidence | as-written member | corrected member |
|---|---|---|---|---|---|---|
| lib/templateUtils.ts:44 | the instance id is the Base64 of `templateId\|anchorId\|date` with `+`, `/` and `=` deleted, which merges distinct encodings | template ids `ab>` and `ab?` with any anchor id and date: their groups `YWI+` and `YWI/` both become `YWI` | distinct slots get distinct instance ids | not executed | TemplateUtils.SlotInstanceIdCollision | TemplateUtils.SlotInstanceIdUnstrippedInjective |
