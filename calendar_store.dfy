/**
 * The booking mutations and queries of the calendar backend over an
 * in-memory `bookings` table, and the grouping of a week's `timeSlots`
 * rows by their `dayOfWeek` that the template queries perform.
 *
 * The table holds its rows in insertion order, the order in which the
 * backend's queries return them; a document id is a fresh number.
 */
module CalendarStore {
  import opened Wrappers
  import opened TemplateUtils

  type BookingId = nat

  /** A row of the `bookings` table with its document id. */
  datatype Booking = Booking(id: BookingId, templateId: string, slotId: string, date: string, userId: string, bookedAt: string)

  /** The two query filters on `slotId` and `userId`. */
  predicate Matches(b: Booking, slotId: string, userId: string)
  {
    b.slotId == slotId && b.userId == userId
  }

  /** `.filter(slotId).filter(userId).first()`: the position of the first matching row, in table order. */
  function FirstMatch(rows: seq<Booking>, slotId: string, userId: string): (r: Option<nat>)
    ensures r.None? <==> forall j :: 0 <= j < |rows| ==> !Matches(rows[j], slotId, userId)
    ensures r.Some? ==> r.value < |rows| && Matches(rows[r.value], slotId, userId)
    ensures r.Some? ==> forall j :: 0 <= j < r.value ==> !Matches(rows[j], slotId, userId)
    decreases |rows|
  {
    if rows == [] then None
    else if Matches(rows[0], slotId, userId) then Some(0)
    else
      assert forall j :: 1 <= j < |rows| ==> rows[j] == rows[1..][j - 1];
      match FirstMatch(rows[1..], slotId, userId)
      case None => None
      case Some(k) => Some(k + 1)
  }

  /** Document ids are pairwise distinct. */
  predicate DistinctIds(rows: seq<Booking>)
  {
    forall i, j :: 0 <= i < j < |rows| ==> rows[i].id != rows[j].id
  }

  /** At most one booking per slot and user. */
  predicate OnePerSlotAndUser(rows: seq<Booking>)
  {
    forall i, j :: 0 <= i < j < |rows| ==> !Matches(rows[j], rows[i].slotId, rows[i].userId)
  }

  /** `ctx.db.delete(id)`: the table without the document `id`. */
  function DeleteId(rows: seq<Booking>, id: BookingId): (r: seq<Booking>)
    ensures forall b :: b in r <==> b in rows && b.id != id
    decreases |rows|
  {
    if rows == [] then []
    else
      assert forall b :: b in rows <==> b == rows[0] || b in rows[1..];
      (if rows[0].id == id then [] else [rows[0]]) + DeleteId(rows[1..], id)
  }

  /** Deleting an id no row carries changes nothing. */
  lemma {:induction false} DeleteIdAbsent(rows: seq<Booking>, id: BookingId)
    requires forall j :: 0 <= j < |rows| ==> rows[j].id != id
    ensures DeleteId(rows, id) == rows
    decreases |rows|
  {
    if rows != [] {
      DeleteIdAbsent(rows[1..], id);
    }
  }

  /** With distinct ids, deleting the id of row `k` removes exactly that row. */
  lemma {:induction false} DeleteIdAt(rows: seq<Booking>, k: nat)
    requires DistinctIds(rows) && k < |rows|
    ensures DeleteId(rows, rows[k].id) == rows[..k] + rows[k + 1..]
    decreases |rows|
  {
    var id := rows[k].id;
    if k == 0 {
      DeleteIdAbsent(rows[1..], id);
    } else {
      var tail := rows[1..];
      assert tail[k - 1] == rows[k];
      DeleteIdAt(tail, k - 1);
      assert rows[..k] == [rows[0]] + tail[..k - 1];
      assert rows[k + 1..] == tail[k..];
    }
  }

  /** Removing one row keeps the ids distinct, one booking per slot and user, and every remaining row. */
  lemma RemoveAtKeeps(rows: seq<Booking>, k: nat)
    requires k < |rows|
    ensures var rest := rows[..k] + rows[k + 1..];
      (DistinctIds(rows) ==> DistinctIds(rest)) &&
      (OnePerSlotAndUser(rows) ==> OnePerSlotAndUser(rest)) &&
      (forall b :: b in rest ==> b in rows)
  {
    var rest := rows[..k] + rows[k + 1..];
    assert forall i :: 0 <= i < |rest| ==> rest[i] == if i < k then rows[i] else rows[i + 1];
  }

  /** Appending a booking whose slot and user have none keeps one booking per slot and user. */
  lemma AppendKeepsOne(rows: seq<Booking>, b: Booking)
    requires OnePerSlotAndUser(rows) && FirstMatch(rows, b.slotId, b.userId).None?
    ensures OnePerSlotAndUser(rows + [b])
  {
    var r := rows + [b];
    forall i, j | 0 <= i < j < |r| ensures !Matches(r[j], r[i].slotId, r[i].userId) {
      if j == |rows| {
        assert !Matches(rows[i], b.slotId, b.userId);
      }
    }
  }

  /** With one booking per slot and user, cancelling the match leaves none for that slot and user. */
  lemma CancelFrees(rows: seq<Booking>, slotId: string, userId: string)
    requires OnePerSlotAndUser(rows) && FirstMatch(rows, slotId, userId).Some?
    ensures FirstMatch(rows[..FirstMatch(rows, slotId, userId).value] +
                       rows[FirstMatch(rows, slotId, userId).value + 1..], slotId, userId).None?
  {
    var k := FirstMatch(rows, slotId, userId).value;
    var rest := rows[..k] + rows[k + 1..];
    forall j | 0 <= j < |rest| ensures !Matches(rest[j], slotId, userId) {
      if j >= k {
        assert rest[j] == rows[j + 1];
        assert !Matches(rows[j + 1], rows[k].slotId, rows[k].userId);
      }
    }
  }

  /** A booking just made is the one a cancellation for the same slot and user removes, restoring the table. */
  lemma CancelUndoesBook(rows: seq<Booking>, b: Booking)
    requires FirstMatch(rows, b.slotId, b.userId).None?
    ensures FirstMatch(rows + [b], b.slotId, b.userId) == Some(|rows|)
    ensures (rows + [b])[..|rows|] + (rows + [b])[|rows| + 1..] == rows
  {
    var r := rows + [b];
    assert forall j :: 0 <= j < |rows| ==> r[j] == rows[j];
    FirstMatchAt(r, b.slotId, b.userId, |rows|);
    assert r[..|rows|] == rows;
    assert r[|rows| + 1..] == [];
  }

  /** The first match is determined by its two defining properties. */
  lemma FirstMatchAt(rows: seq<Booking>, slotId: string, userId: string, k: nat)
    requires k < |rows| && Matches(rows[k], slotId, userId)
    requires forall j :: 0 <= j < k ==> !Matches(rows[j], slotId, userId)
    ensures FirstMatch(rows, slotId, userId) == Some(k)
  {
    var m := FirstMatch(rows, slotId, userId);
    assert m.Some?;
    assert !(m.value < k);
    assert !(k < m.value);
  }

  /** `getBookings`: the bookings whose `userId` is the argument, in table order, fields unchanged. */
  function UserBookings(rows: seq<Booking>, userId: string): (r: seq<Booking>)
    ensures forall b :: b in r <==> b in rows && b.userId == userId
    ensures Subsequence(r, rows)
    decreases |rows|
  {
    if rows == [] then []
    else
      var rest := UserBookings(rows[1..], userId);
      assert forall b :: b in rows <==> b == rows[0] || b in rows[1..];
      if rows[0].userId == userId then
        assert ([rows[0]] + rest)[1..] == rest;
        [rows[0]] + rest
      else rest
  }

  /** The user filter works row by row: filtering joined tables joins the filtered parts. */
  lemma {:induction false} UserBookingsConcat(a: seq<Booking>, b: seq<Booking>, userId: string)
    ensures UserBookings(a + b, userId) == UserBookings(a, userId) + UserBookings(b, userId)
    decreases |a|
  {
    if a == [] {
      assert a + b == b;
    } else {
      assert (a + b)[0] == a[0] && (a + b)[1..] == a[1..] + b;
      UserBookingsConcat(a[1..], b, userId);
    }
  }

  /** A single row is kept exactly when it is the user's. */
  lemma UserBookingsOne(b: Booking, userId: string)
    ensures UserBookings([b], userId) == if b.userId == userId then [b] else []
  {
    assert [b][1..] == [];
  }

  /** Every booking of the table is among the bookings of its user. */
  lemma AllBookingsByUser(rows: seq<Booking>, b: Booking)
    requires b in rows
    ensures b in UserBookings(rows, b.userId)
  {
  }

  /** The `bookings` table. */
  class BookingTable {
    var rows: seq<Booking>
    var nextId: BookingId

    ghost predicate Valid()
      reads this
    {
      DistinctIds(rows) && forall i :: 0 <= i < |rows| ==> rows[i].id < nextId
    }

    constructor ()
      ensures Valid() && rows == [] && nextId == 0
    {
      rows := [];
      nextId := 0;
    }

    /**
     * `bookSlot`: fails when the user already booked the slot, and
     * otherwise inserts one booking stamped `bookedAt` (the clock's ISO
     * string) and returns its id.
     */
    method BookSlot(templateId: string, slotId: string, date: string, userId: string, bookedAt: string)
      returns (r: Result<BookingId, string>)
      requires Valid()
      modifies this
      ensures Valid()
      ensures FirstMatch(old(rows), slotId, userId).Some? ==>
        r == Err("Slot is already booked") && rows == old(rows) && nextId == old(nextId)
      ensures FirstMatch(old(rows), slotId, userId).None? ==>
        r == Ok(old(nextId)) && nextId == old(nextId) + 1 &&
        rows == old(rows) + [Booking(old(nextId), templateId, slotId, date, userId, bookedAt)]
      ensures OnePerSlotAndUser(old(rows)) ==> OnePerSlotAndUser(rows)
    {
      var existingBooking := FirstMatch(rows, slotId, userId);
      if existingBooking.Some? {
        return Err("Slot is already booked");
      }
      var bookingId := nextId;
      var booking := Booking(bookingId, templateId, slotId, date, userId, bookedAt);
      if OnePerSlotAndUser(rows) {
        AppendKeepsOne(rows, booking);
      }
      rows := rows + [booking];
      nextId := nextId + 1;
      return Ok(bookingId);
    }

    /**
     * `cancelBooking`: fails when the user has no booking of the slot, and
     * otherwise deletes the first such booking by its id (`{ success: true }`
     * is `Ok(true)`).
     */
    method CancelBooking(slotId: string, userId: string) returns (r: Result<bool, string>)
      requires Valid()
      modifies this
      ensures Valid() && nextId == old(nextId)
      ensures FirstMatch(old(rows), slotId, userId).None? ==>
        r == Err("Booking not found") && rows == old(rows)
      ensures FirstMatch(old(rows), slotId, userId).Some? ==>
        var k := FirstMatch(old(rows), slotId, userId).value;
        r == Ok(true) && rows == old(rows)[..k] + old(rows)[k + 1..]
      ensures OnePerSlotAndUser(old(rows)) ==> OnePerSlotAndUser(rows) && FirstMatch(rows, slotId, userId).None?
    {
      var booking := FirstMatch(rows, slotId, userId);
      if booking.None? {
        return Err("Booking not found");
      }
      var k := booking.value;
      DeleteIdAt(rows, k);
      RemoveAtKeeps(rows, k);
      if OnePerSlotAndUser(rows) {
        CancelFrees(rows, slotId, userId);
      }
      rows := DeleteId(rows, rows[k].id);
      return Ok(true);
    }

    /** `getBookings`. */
    function GetBookings(userId: string): (r: seq<Booking>)
      reads this
      ensures forall b :: b in r <==> b in rows && b.userId == userId
      ensures Subsequence(r, rows)
    {
      UserBookings(rows, userId)
    }

    /** `getAllBookings`: every row, in table order. */
    function GetAllBookings(): (r: seq<Booking>)
      reads this
      ensures |r| == |rows| && forall i :: 0 <= i < |r| ==> r[i] == rows[i]
      ensures forall b :: b in r ==> b in GetBookings(b.userId)
    {
      rows
    }
  }

  // ---------------------------------------------------------------------
  // Grouping a week's time slots by day

  /** A `timeSlots` row. */
  datatype TimeSlotRow = TimeSlotRow(id: string, weekId: string, dayOfWeek: int, startTime: string, endTime: string)

  /** The `{ id, start, end }` record pushed for a row. */
  datatype SlotEntry = SlotEntry(id: string, start: string, end: string)

  /** A `{ day, slots }` entry of the result. */
  datatype DayEntry = DayEntry(day: int, slots: seq<SlotEntry>)

  function EntryOf(row: TimeSlotRow): SlotEntry
  {
    SlotEntry(row.id, row.startTime, row.endTime)
  }

  /** The entries of the rows on day key `k`, in row order. */
  function SlotsOn(rows: seq<TimeSlotRow>, k: int): seq<SlotEntry>
    decreases |rows|
  {
    if rows == [] then []
    else
      var last := rows[|rows| - 1];
      SlotsOn(rows[..|rows| - 1], k) + (if last.dayOfWeek == k then [EntryOf(last)] else [])
  }

  /** The day keys of the rows. */
  function Days(rows: seq<TimeSlotRow>): set<int>
  {
    set r | r in rows :: r.dayOfWeek
  }

  predicate Distinct(ks: seq<int>)
  {
    forall i, j :: 0 <= i < j < |ks| ==> ks[i] != ks[j]
  }

  /** The accumulator's keys in the order they were first created: each day key at its first row. */
  function KeysInOrder(rows: seq<TimeSlotRow>): (ks: seq<int>)
    ensures Distinct(ks)
    ensures forall k :: k in ks <==> k in Days(rows)
    decreases |rows|
  {
    if rows == [] then []
    else
      var init := rows[..|rows| - 1];
      var ks := KeysInOrder(init);
      var k := rows[|rows| - 1].dayOfWeek;
      assert rows == init + [rows[|rows| - 1]];
      assert Days(rows) == Days(init) + {k};
      if k in ks then ks else ks + [k]
  }

  /** A property key that is an array index: an integer from 0 to 2^32 - 2. */
  predicate IsArrayIndex(k: int)
  {
    0 <= k < 0xFFFF_FFFF
  }

  /** The keys that are (`index`) or are not (`!index`) array indices, in order. */
  function KeysOfKind(ks: seq<int>, index: bool): (r: seq<int>)
    ensures forall k :: k in r <==> k in ks && IsArrayIndex(k) == index
    ensures Distinct(ks) ==> Distinct(r)
    decreases |ks|
  {
    if ks == [] then []
    else
      var rest := KeysOfKind(ks[1..], index);
      assert forall k :: k in ks <==> k == ks[0] || k in ks[1..];
      if IsArrayIndex(ks[0]) == index then [ks[0]] + rest else rest
  }

  predicate StrictlyAscending(ks: seq<int>)
  {
    forall i, j :: 0 <= i < j < |ks| ==> ks[i] < ks[j]
  }

  function InsertAscending(x: int, ks: seq<int>): (r: seq<int>)
    requires StrictlyAscending(ks) && x !in ks
    ensures StrictlyAscending(r)
    ensures forall k :: k in r <==> k == x || k in ks
    decreases |ks|
  {
    if ks == [] then [x]
    else if x < ks[0] then
      [x] + ks
    else
      var rest := InsertAscending(x, ks[1..]);
      assert forall k :: k in ks <==> k == ks[0] || k in ks[1..];
      assert forall j :: 0 <= j < |rest| ==> ks[0] < rest[j] by {
        assert forall j :: 0 <= j < |rest| ==> rest[j] in rest;
        assert forall j :: 1 <= j < |ks| ==> ks[0] < ks[j];
      }
      var r := [ks[0]] + rest;
      assert forall j :: 1 <= j < |r| ==> r[j] == rest[j - 1];
      r
  }

  function SortAscending(ks: seq<int>): (r: seq<int>)
    requires Distinct(ks)
    ensures StrictlyAscending(r)
    ensures forall k :: k in r <==> k in ks
    decreases |ks|
  {
    if ks == [] then []
    else
      var rest := SortAscending(ks[1..]);
      assert forall k :: k in ks <==> k == ks[0] || k in ks[1..];
      InsertAscending(ks[0], rest)
  }

  /**
   * The order `Object.entries` lists an object's own keys in: array
   * indices ascending, then the other keys in creation order.
   */
  function PropertyOrder(ks: seq<int>): (r: seq<int>)
    requires Distinct(ks)
    ensures Distinct(r)
    ensures forall k :: k in r <==> k in ks
    ensures forall i, j :: 0 <= i < j < |r| && IsArrayIndex(r[j]) ==> IsArrayIndex(r[i]) && r[i] < r[j]
  {
    var indices, others := SortAscending(KeysOfKind(ks, true)), KeysOfKind(ks, false);
    var r := indices + others;
    assert forall i :: 0 <= i < |r| ==> r[i] == if i < |indices| then indices[i] else others[i - |indices|];
    assert forall i :: 0 <= i < |indices| ==> IsArrayIndex(indices[i]) by {
      assert forall i :: 0 <= i < |indices| ==> indices[i] in indices;
    }
    assert forall i :: 0 <= i < |others| ==> !IsArrayIndex(others[i]) by {
      assert forall i :: 0 <= i < |others| ==> others[i] in others;
    }
    r
  }

  /** What the grouping returns: one entry per day key, in property order, holding that day's rows in order. */
  function GroupedDays(rows: seq<TimeSlotRow>): seq<DayEntry>
  {
    var order := PropertyOrder(KeysInOrder(rows));
    seq(|order|, j requires 0 <= j < |order| => DayEntry(order[j], SlotsOn(rows, order[j])))
  }

  lemma SlotsOnStep(rows: seq<TimeSlotRow>, i: nat, k: int)
    requires i < |rows|
    ensures SlotsOn(rows[..i + 1], k) == SlotsOn(rows[..i], k) + (if rows[i].dayOfWeek == k then [EntryOf(rows[i])] else [])
  {
    assert rows[..i + 1][..i] == rows[..i];
  }

  lemma KeysInOrderStep(rows: seq<TimeSlotRow>, i: nat)
    requires i < |rows|
    ensures KeysInOrder(rows[..i + 1]) ==
      if rows[i].dayOfWeek in KeysInOrder(rows[..i]) then KeysInOrder(rows[..i]) else KeysInOrder(rows[..i]) + [rows[i].dayOfWeek]
  {
    assert rows[..i + 1][..i] == rows[..i];
  }

  /** A day key no row has collects nothing. */
  lemma {:induction false} SlotsOnAbsent(rows: seq<TimeSlotRow>, k: int)
    requires k !in Days(rows)
    ensures SlotsOn(rows, k) == []
    decreases |rows|
  {
    if rows != [] {
      var init := rows[..|rows| - 1];
      assert rows == init + [rows[|rows| - 1]];
      assert Days(init) <= Days(rows);
      SlotsOnAbsent(init, k);
    }
  }

  /** The accumulator after the first `i` rows: its keys in creation order, and each key's slots. */
  ghost predicate Accumulated(rows: seq<TimeSlotRow>, i: nat, acc: map<int, seq<SlotEntry>>, keys: seq<int>)
    requires i <= |rows|
  {
    keys == KeysInOrder(rows[..i]) &&
    (forall k :: k in acc <==> k in keys) &&
    (forall k :: k in acc ==> acc[k] == SlotsOn(rows[..i], k))
  }

  /** One step of the `reduce`: create the row's key when missing, then push its entry. */
  lemma AccumulateStep(rows: seq<TimeSlotRow>, i: nat, acc: map<int, seq<SlotEntry>>, keys: seq<int>)
    requires i < |rows| && Accumulated(rows, i, acc, keys)
    ensures var k := rows[i].dayOfWeek;
      Accumulated(rows, i + 1, acc[k := (if k in acc then acc[k] else []) + [EntryOf(rows[i])]],
        if k in acc then keys else keys + [k])
  {
    var k, e := rows[i].dayOfWeek, EntryOf(rows[i]);
    var acc' := acc[k := (if k in acc then acc[k] else []) + [e]];
    var keys' := if k in acc then keys else keys + [k];
    KeysInOrderStep(rows, i);
    assert keys' == KeysInOrder(rows[..i + 1]);
    assert forall k' :: k' in acc' <==> k' in keys';
    forall k' | k' in acc' ensures acc'[k'] == SlotsOn(rows[..i + 1], k') {
      SlotsOnStep(rows, i, k');
      if k' == k && k !in acc {
        SlotsOnAbsent(rows[..i], k);
      }
    }
  }

  /**
   * The `reduce` into a `Record<number, ...>` accumulator, then
   * `Object.entries(...).map(([day, slots]) => ({ day: parseInt(day), slots }))`.
   * The accumulator is a map and the list of its keys in creation order.
   */
  method GroupByDay(timeSlots: seq<TimeSlotRow>) returns (days: seq<DayEntry>)
    ensures days == GroupedDays(timeSlots)
  {
    var acc: map<int, seq<SlotEntry>> := map[];
    var keys: seq<int> := [];
    for i := 0 to |timeSlots|
      invariant Accumulated(timeSlots, i, acc, keys)
    {
      var slot := timeSlots[i];
      var dayKey := slot.dayOfWeek;
      AccumulateStep(timeSlots, i, acc, keys);
      var bucket := if dayKey in acc then acc[dayKey] else [];
      if dayKey !in acc {
        keys := keys + [dayKey];
      }
      acc := acc[dayKey := bucket + [EntryOf(slot)]];
    }
    assert timeSlots[..|timeSlots|] == timeSlots;
    var order := PropertyOrder(keys);
    days := seq(|order|, j requires 0 <= j < |order| => DayEntry(order[j], acc[order[j]]));
    assert forall j :: 0 <= j < |days| ==> days[j] == GroupedDays(timeSlots)[j];
  }

  // ---------------------------------------------------------------------
  // Properties of the grouping

  /** The entries' days are distinct and are exactly the rows' day keys; array-index days come first, ascending. */
  lemma GroupedDaysKeys(rows: seq<TimeSlotRow>)
    ensures var r := GroupedDays(rows);
      (forall i, j :: 0 <= i < j < |r| ==> r[i].day != r[j].day) &&
      (forall k :: k in Days(rows) <==> exists i :: 0 <= i < |r| && r[i].day == k) &&
      (forall i, j :: 0 <= i < j < |r| && IsArrayIndex(r[j].day) ==> IsArrayIndex(r[i].day) && r[i].day < r[j].day)
  {
    var order := PropertyOrder(KeysInOrder(rows));
    var r := GroupedDays(rows);
    forall k | k in Days(rows) ensures exists i :: 0 <= i < |r| && r[i].day == k {
      var i :| 0 <= i < |order| && order[i] == k;
      assert r[i].day == k;
    }
  }

  /** A row's entry lies among its day's slots. */
  lemma {:induction false} SlotsOnHas(rows: seq<TimeSlotRow>, n: nat)
    requires n < |rows|
    ensures EntryOf(rows[n]) in SlotsOn(rows, rows[n].dayOfWeek)
    decreases |rows|
  {
    if n < |rows| - 1 {
      SlotsOnHas(rows[..|rows| - 1], n);
    }
  }

  /** Every row lands in exactly one entry: the one whose day is its `dayOfWeek`. */
  lemma EveryRowOnce(rows: seq<TimeSlotRow>, n: nat)
    requires n < |rows|
    ensures var r := GroupedDays(rows);
      exists i :: 0 <= i < |r| && r[i].day == rows[n].dayOfWeek && EntryOf(rows[n]) in r[i].slots &&
        forall j :: 0 <= j < |r| && j != i ==> r[j].day != rows[n].dayOfWeek
  {
    GroupedDaysKeys(rows);
    var r := GroupedDays(rows);
    assert rows[n].dayOfWeek in Days(rows);
    var i :| 0 <= i < |r| && r[i].day == rows[n].dayOfWeek;
    SlotsOnHas(rows, n);
    assert EntryOf(rows[n]) in r[i].slots;
  }

  /** The grouping keeps row order inside a day: the slots of a concatenation are the slots of each part in turn. */
  lemma {:induction false} SlotsOnConcat(a: seq<TimeSlotRow>, b: seq<TimeSlotRow>, k: int)
    ensures SlotsOn(a + b, k) == SlotsOn(a, k) + SlotsOn(b, k)
    decreases |b|
  {
    if b == [] {
      assert a + b == a;
    } else {
      var init := b[..|b| - 1];
      SlotsOnConcat(a, init, k);
      assert (a + b)[..|a + b| - 1] == a + init;
      AppendAssociative(SlotsOn(a, k), SlotsOn(init, k),
        if b[|b| - 1].dayOfWeek == k then [EntryOf(b[|b| - 1])] else []);
    }
  }
}
