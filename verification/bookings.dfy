/** Boutique bookings: the booking-number format, the retry loop that makes
    it unique, creation defaults, the admin listing, status changes,
    deletion and the status counts. */
module Bookings {
  import opened Wrappers
  import opened Text
  import opened Sorting
  import opened Rows
  import Paging

  /** A calendar date as `datetime.now()` yields it. */
  datatype Date = Date(year: int, month: int, day: int)

  predicate ValidDate(d: Date) {
    1 <= d.year <= 9999 && 1 <= d.month <= 12 && 1 <= d.day <= 31
  }

  type Digit = x: int | 0 <= x <= 9

  /** The four draws of `random.choices(string.digits, k=4)`. */
  type Draw = s: seq<Digit> | |s| == 4 witness [0, 0, 0, 0]

  const NumberPrefix: string := "BK"
  const NumberLength: nat := 14

  function DrawText(draw: Draw): (r: string)
    ensures |r| == 4 && AllDigits(r)
  {
    [DigitChar(draw[0]), DigitChar(draw[1]), DigitChar(draw[2]), DigitChar(draw[3])]
  }

  /** `generate_booking_number`: "BK", then `%Y%m%d`, then the four digits. */
  function BookingNumber(today: Date, draw: Draw): (r: string)
    requires ValidDate(today)
    ensures |r| == NumberLength
    ensures r[..2] == NumberPrefix && AllDigits(r[2..])
  {
    var y, m, d := PadDigits(today.year, 4), PadDigits(today.month, 2), PadDigits(today.day, 2);
    DigitsAppend(y, m);
    DigitsAppend(y + m, d);
    DigitsAppend(y + m + d, DrawText(draw));
    var tail := y + m + d + DrawText(draw);
    var r := NumberPrefix + tail;
    assert r[..2] == NumberPrefix && r[2..] == tail;
    r
  }

  /** The number spells out the date and the draw, so it determines both. */
  lemma BookingNumberFields(today: Date, draw: Draw)
    requires ValidDate(today)
    ensures var r := BookingNumber(today, draw);
      && ParseDigits(r[2..6]) == today.year
      && ParseDigits(r[6..8]) == today.month
      && ParseDigits(r[8..10]) == today.day
      && r[10..] == DrawText(draw)
  {
    var y, m, d := PadDigits(today.year, 4), PadDigits(today.month, 2), PadDigits(today.day, 2);
    assert BookingNumber(today, draw) == NumberPrefix + (y + m + d + DrawText(draw));
    FieldSlices(NumberPrefix, y, m, d, DrawText(draw));
    PadDigitsRoundTrip(today.year, 4, Pow10(4));
    PadDigitsRoundTrip(today.month, 2, Pow10(2));
    PadDigitsRoundTrip(today.day, 2, Pow10(2));
  }

  /** Where each field sits in the number. */
  lemma FieldSlices(p: string, y: string, m: string, d: string, t: string)
    requires |p| == 2 && |y| == 4 && |m| == 2 && |d| == 2
    ensures var r := p + (y + m + d + t);
      r[2..6] == y && r[6..8] == m && r[8..10] == d && r[10..] == t
  {
    var r := p + (y + m + d + t);
    assert r[2..] == y + m + d + t;
    assert (y + m + d + t)[..4] == y;
    assert (y + m + d + t)[4..] == m + d + t;
    assert (m + d + t)[..2] == m;
    assert (m + d + t)[2..] == d + t;
    assert (d + t)[..2] == d && (d + t)[2..] == t;
  }

  lemma DrawTextInjective(a: Draw, b: Draw)
    requires DrawText(a) == DrawText(b)
    ensures a == b
  {
    assert forall i :: 0 <= i < 4 ==> DigitValue(DrawText(a)[i]) == DigitValue(DrawText(b)[i]);
    DigitRoundTrip(a[0]); DigitRoundTrip(a[1]); DigitRoundTrip(a[2]); DigitRoundTrip(a[3]);
    DigitRoundTrip(b[0]); DigitRoundTrip(b[1]); DigitRoundTrip(b[2]); DigitRoundTrip(b[3]);
  }

  /** Equal numbers come from the same day and the same draw. */
  lemma BookingNumberInjective(d1: Date, a: Draw, d2: Date, b: Draw)
    requires ValidDate(d1) && ValidDate(d2) && BookingNumber(d1, a) == BookingNumber(d2, b)
    ensures d1 == d2 && a == b
  {
    BookingNumberFields(d1, a);
    BookingNumberFields(d2, b);
    DrawTextInjective(a, b);
  }

  /** A row of the bookings table, with the columns the routes use. */
  datatype Booking = Booking(
    id: nat,
    bookingNumber: string,
    name: string,
    phone: string,
    email: Option<string>,
    date: string,
    time: string,
    message: Option<string>,
    boutique: string,
    status: string,
    createdAt: int,
    updatedAt: Option<int>)

  /** The body of `POST /bookings`. */
  datatype BookingCreate = BookingCreate(
    name: string,
    phone: string,
    email: Option<string>,
    date: string,
    time: string,
    message: Option<string>,
    boutique: Option<string>)

  const DefaultBoutique: string := "Orient Ташкент"
  const InitialStatus: string := "pending"

  type Store = seq<Booking>

  /** Ids are distinct, and so are booking numbers. */
  predicate Wf(store: Store) {
    && (forall i, j :: 0 <= i < j < |store| ==> store[i].id != store[j].id)
    && (forall i, j :: 0 <= i < j < |store| ==> store[i].bookingNumber != store[j].bookingNumber)
  }

  predicate NumberTaken(store: Store, number: string) {
    exists i :: 0 <= i < |store| && store[i].bookingNumber == number
  }

  /** The first number among the successive draws that no booking holds:
      the loop's outcome, or `None` if the draws run out. */
  function FirstFreeNumber(store: Store, today: Date, draws: seq<Draw>): (r: Option<string>)
    requires ValidDate(today)
    ensures r.Some? ==> !NumberTaken(store, r.value)
  {
    if |draws| == 0 then None
    else if !NumberTaken(store, BookingNumber(today, draws[0])) then Some(BookingNumber(today, draws[0]))
    else FirstFreeNumber(store, today, draws[1..])
  }

  function NextId(store: Store): (r: nat)
    ensures r >= 1 && forall b :: b in store ==> b.id < r
  {
    NextKey(store, (b: Booking) => b.id)
  }

  /** `booking.boutique or "Orient Ташкент"`. */
  function BoutiqueOf(req: BookingCreate): (r: string)
    ensures req.boutique.Some? && req.boutique.value != "" ==> r == req.boutique.value
    ensures req.boutique.None? || req.boutique == Some("") ==> r == DefaultBoutique
  {
    if req.boutique.Some? && req.boutique.value != "" then req.boutique.value else DefaultBoutique
  }

  /** `create_booking`, with today's date, the successive random draws and
      the clock as inputs.  The route redraws while the number is taken; it
      is modelled over a finite supply of draws and yields `None` when every
      draw gave a taken number. */
  method CreateBooking(store: Store, req: BookingCreate, today: Date, draws: seq<Draw>, now: int)
    returns (r: Option<(Store, Booking)>)
    requires Wf(store) && ValidDate(today)
    ensures r.None? <==> forall k :: 0 <= k < |draws| ==> NumberTaken(store, BookingNumber(today, draws[k]))
    ensures r.Some? ==> Some(r.value.1.bookingNumber) == FirstFreeNumber(store, today, draws)
    ensures r.Some? ==> !NumberTaken(store, r.value.1.bookingNumber)
    ensures r.Some? ==> r.value.0 == store + [r.value.1] && Wf(r.value.0)
    ensures r.Some? ==>
      && r.value.1.status == InitialStatus
      && r.value.1.boutique == BoutiqueOf(req)
      && r.value.1.name == req.name && r.value.1.phone == req.phone
      && r.value.1.date == req.date && r.value.1.time == req.time
      && r.value.1.email == req.email && r.value.1.message == req.message
      && r.value.1.createdAt == now
      && r.value.1.id == NextId(store)
  {
    var k := 0;
    while k < |draws| && NumberTaken(store, BookingNumber(today, draws[k]))
      invariant 0 <= k <= |draws|
      invariant forall j :: 0 <= j < k ==> NumberTaken(store, BookingNumber(today, draws[j]))
      invariant FirstFreeNumber(store, today, draws) == FirstFreeNumber(store, today, draws[k..])
    {
      assert draws[k..][1..] == draws[k + 1..];
      k := k + 1;
    }
    if k == |draws| {
      return None;
    }
    var number := BookingNumber(today, draws[k]);
    var booking := Booking(NextId(store), number, req.name, req.phone, req.email, req.date, req.time,
                           req.message, BoutiqueOf(req), InitialStatus, now, None);
    AppendWf(store, booking);
    r := Some((store + [booking], booking));
  }

  /** `ORDER BY created_at DESC` as an ascending sort on the negated time. */
  function NewestFirst(b: Booking): int {
    -b.createdAt
  }

  /** `get_bookings`: optional status filter, newest first, then SQLite's
      OFFSET/LIMIT (no validation: a negative limit means no limit). */
  function ListBookings(store: Store, skip: int, limit: int, status: Option<string>): (r: seq<Booking>)
    ensures limit >= 0 ==> |r| <= limit
    ensures forall b :: b in r ==> b in store
    ensures Given(status) ==> forall b :: b in r ==> b.status == status.value
    ensures forall i, j :: 0 <= i < j < |r| ==> r[i].createdAt >= r[j].createdAt
  {
    var filtered := if Given(status) then Where(store, (b: Booking) => b.status == status.value) else store;
    var ordered := SortBy(filtered, NewestFirst);
    var r := Paging.Window(ordered, skip, limit);
    forall b | b in r
      ensures b in filtered
    {
      SortByMembers(filtered, NewestFirst, b);
    }
    r
  }

  /** With no filter and no paging limits every booking is listed once. */
  lemma ListAll(store: Store)
    ensures multiset(ListBookings(store, 0, -1, None)) == multiset(store)
  {
    var ordered := SortBy(store, NewestFirst);
    assert Paging.Window(ordered, 0, -1) == ordered;
  }

  function Find(store: Store, id: int): (r: Option<nat>)
    ensures r.None? <==> forall i :: 0 <= i < |store| ==> store[i].id != id
    ensures r.Some? ==> r.value < |store| && store[r.value].id == id
  {
    IndexOf(store, (x: Booking) => x.id, id)
  }

  /** `get_booking`. */
  function GetBooking(store: Store, id: int): (r: Result<Booking>)
    ensures r.Err? <==> forall b :: b in store ==> b.id != id
    ensures r.Err? ==> r.status == NotFound
    ensures r.Ok? ==> r.value in store && r.value.id == id
  {
    match Find(store, id)
    case None => Err(NotFound)
    case Some(i) => assert store[i] in store; Ok(store[i])
  }

  /** `update_booking_status`: any status string is accepted, with no check
      of the transition; the update time is stamped. */
  function UpdateStatus(store: Store, id: int, status: string, now: int): (r: (Store, Result<Booking>))
    requires Wf(store)
    ensures Wf(r.0)
    ensures r.1.Err? <==> forall b :: b in store ==> b.id != id
    ensures r.1.Err? ==> r.1.status == NotFound && r.0 == store
    ensures r.1.Ok? ==> r.1.value.status == status && r.1.value.id == id && r.1.value.updatedAt == Some(now)
    ensures r.1.Ok? ==> |r.0| == |store| && forall i :: 0 <= i < |store| ==>
      if store[i].id == id then r.0[i] == r.1.value && r.0[i] == store[i].(status := status, updatedAt := Some(now))
      else r.0[i] == store[i]
  {
    match Find(store, id)
    case None => (store, Err(NotFound))
    case Some(i) =>
      assert store[i] in store;
      var b := store[i].(status := status, updatedAt := Some(now));
      (store[i := b], Ok(b))
  }

  /** `delete_booking`. */
  function DeleteBooking(store: Store, id: int): (r: (Store, Result<string>))
    requires Wf(store)
    ensures Wf(r.0)
    ensures r.1.Err? <==> forall b :: b in store ==> b.id != id
    ensures r.1.Err? ==> r.1.status == NotFound && r.0 == store
    ensures r.1.Ok? ==> |r.0| == |store| - 1
    ensures forall b :: b in r.0 <==> b in store && b.id != id
  {
    match Find(store, id)
    case None => (store, Err(NotFound))
    case Some(i) =>
      RemoveAt(store, i);
      (store[..i] + store[i + 1..], Ok("Booking deleted successfully"))
  }

  lemma RemoveAt(store: Store, i: nat)
    requires Wf(store) && i < |store|
    ensures Wf(store[..i] + store[i + 1..])
    ensures forall b :: b in store[..i] + store[i + 1..] <==> b in store && b.id != store[i].id
  {
    RemoveAtKeys(store, (b: Booking) => b.id, i);
    RemoveAtKeys(store, (b: Booking) => b.bookingNumber, i);
  }

  /** Appending a booking under a fresh id and a free number keeps the
      store well formed. */
  lemma AppendWf(store: Store, b: Booking)
    requires Wf(store) && !NumberTaken(store, b.bookingNumber)
    requires forall x :: x in store ==> x.id < b.id
    ensures Wf(store + [b])
  {
    var s' := store + [b];
    assert forall i :: 0 <= i < |store| ==> s'[i] == store[i] && store[i] in store;
    assert s'[|store|] == b;
  }

  /** The answer of the stats route. */
  datatype Stats = Stats(total: nat, pending: nat, confirmed: nat, completed: nat, cancelled: nat)

  function StatusCount(store: Store, status: string): (n: nat)
    ensures n <= |store|
    ensures n == 0 <==> forall i :: 0 <= i < |store| ==> store[i].status != status
  {
    var rows := Where(store, (b: Booking) => b.status == status);
    assert |rows| > 0 ==> rows[0] in rows;
    assert forall i :: 0 <= i < |store| && store[i].status == status ==> store[i] in store && store[i] in rows;
    |rows|
  }

  /** `get_bookings_stats`. */
  function GetStats(store: Store): (r: Stats)
    ensures r.total == |store|
    ensures r.pending == StatusCount(store, "pending") && r.confirmed == StatusCount(store, "confirmed")
    ensures r.completed == StatusCount(store, "completed") && r.cancelled == StatusCount(store, "cancelled")
    ensures r.pending + r.confirmed + r.completed + r.cancelled <= r.total
  {
    StatusCountsBounded(store);
    Stats(|store|, StatusCount(store, "pending"), StatusCount(store, "confirmed"),
          StatusCount(store, "completed"), StatusCount(store, "cancelled"))
  }

  /** The status column, booking by booking. */
  function Statuses(store: Store): (r: seq<string>)
    ensures |r| == |store|
    ensures forall i :: 0 <= i < |store| ==> r[i] == store[i].status
  {
    if |store| == 0 then [] else [store[0].status] + Statuses(store[1..])
  }

  /** A status count is the number of bookings holding that status: its
      multiplicity among the stored statuses. */
  lemma {:induction false} StatusCountIsMultiplicity(store: Store, s: string)
    ensures StatusCount(store, s) == multiset(Statuses(store))[s]
  {
    if |store| > 0 {
      StatusCountIsMultiplicity(store[1..], s);
      assert Statuses(store) == [store[0].status] + Statuses(store[1..]);
      assert multiset(Statuses(store)) == multiset{store[0].status} + multiset(Statuses(store[1..]));
    }
  }

  /** The four counts never exceed the total: a booking has one status. */
  lemma {:induction false} StatusCountsBounded(store: Store)
    ensures StatusCount(store, "pending") + StatusCount(store, "confirmed")
          + StatusCount(store, "completed") + StatusCount(store, "cancelled") <= |store|
  {
    if |store| > 0 {
      StatusCountsBounded(store[1..]);
    }
  }

  /** Each count is the number of bookings with that status: a status
      change moves one booking from its old count to its new one. */
  lemma {:induction false} StatusCountAfterChange(store: Store, i: nat, status: string, s: string)
    requires i < |store|
    ensures StatusCount(store[i := store[i].(status := status)], s)
      == StatusCount(store, s) - (if store[i].status == s then 1 else 0) + (if status == s then 1 else 0)
  {
    if i > 0 {
      StatusCountAfterChange(store[1..], i - 1, status, s);
      assert store[i := store[i].(status := status)][1..] == store[1..][i - 1 := store[i].(status := status)];
    } else {
      assert store[i := store[i].(status := status)][1..] == store[1..];
    }
  }

  /** A new booking is counted as pending. */
  lemma CreateCountsPending(store: Store, b: Booking)
    requires b.status == InitialStatus
    ensures StatusCount(store + [b], "pending") == StatusCount(store, "pending") + 1
    ensures GetStats(store + [b]).total == GetStats(store).total + 1
  {
    WhereAppend(store, b, (x: Booking) => x.status == "pending");
  }
}
