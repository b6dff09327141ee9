/**
  The three list lookups of the widget: the reservation covering a day
  (isDayHighlighted), the price record of a day (getPricePerDay) and the
  closest reservation start from a date on (findClosestDate).

  Each is written as the left-to-right scan the widget performs, and each is
  proved equal to an index-based description of the record it picks.
 */
module Lookup {
  import opened Records

  // ---------------------------------------------------------------------------
  // isDayHighlighted

  /** The per-record test of isDayHighlighted: a reservation reserved on the day, the end day excluded. */
  predicate Blocks(r: Record, day: Day) {
    IsReservation(r) && IsDayReserved(Some(day), r.start, r.end) && day != r.end
  }

  /** `items[i]` blocks `day` and no later record does. */
  predicate IsLastBlocking(items: seq<Record>, day: Day, i: int) {
    && 0 <= i < |items|
    && Blocks(items[i], day)
    && forall j | i < j < |items| :: !Blocks(items[j], day)
  }

  /** The forEach of isDayHighlighted: every blocking record overwrites the accumulator. */
  function HighlightScan(items: seq<Record>, day: Day, acc: Option<Record>): Option<Record>
    decreases |items|
  {
    if items == [] then acc
    else HighlightScan(items[1..], day, if Blocks(items[0], day) then Some(items[0]) else acc)
  }

  lemma {:induction false} HighlightScanIsLast(items: seq<Record>, day: Day, acc: Option<Record>)
    ensures (forall i | 0 <= i < |items| :: !Blocks(items[i], day)) ==> HighlightScan(items, day, acc) == acc
    ensures (exists i | 0 <= i < |items| :: Blocks(items[i], day)) ==> exists i :: IsLastBlocking(items, day, i)
    ensures forall i | IsLastBlocking(items, day, i) :: HighlightScan(items, day, acc) == Some(items[i])
    decreases |items|
  {
    if items != [] {
      var rest := items[1..];
      var acc' := if Blocks(items[0], day) then Some(items[0]) else acc;
      HighlightScanIsLast(rest, day, acc');
      assert forall j | 0 <= j < |rest| :: rest[j] == items[j + 1];
      if exists i | 0 <= i < |rest| :: Blocks(rest[i], day) {
        var k :| IsLastBlocking(rest, day, k);
        assert IsLastBlocking(items, day, k + 1);
      } else if Blocks(items[0], day) {
        assert IsLastBlocking(items, day, 0);
      }
      forall i | IsLastBlocking(items, day, i)
        ensures HighlightScan(items, day, acc) == Some(items[i])
      {
        if i > 0 {
          assert IsLastBlocking(rest, day, i - 1);
        }
      }
    }
  }

  /**
    isDayHighlighted: the LAST reservation in list order with start <= day < end,
    or nothing. The end day of a reservation is excluded although isDayReserved
    is inclusive, so a check-out day can start a new booking.
   */
  function IsDayHighlighted(items: seq<Record>, day: Day): (r: Option<Record>)
    ensures r.None? <==> forall i | 0 <= i < |items| :: !Blocks(items[i], day)
    ensures r.Some? ==> r.value in items && IsReservation(r.value) && r.value.start <= day < r.value.end
    ensures forall i | IsLastBlocking(items, day, i) :: r == Some(items[i])
  {
    HighlightScanIsLast(items, day, None);
    HighlightScan(items, day, None)
  }

  /** The calendar's isDayHighlighted callback: the covering record carries an `id`. */
  function IsHighlightedInCalendar(items: seq<Record>, day: Day): (b: bool)
    ensures b <==> exists i :: IsLastBlocking(items, day, i) && items[i].id.Some?
  {
    var r := IsDayHighlighted(items, day);
    HighlightScanIsLast(items, day, None);
    r.Some? && r.value.id.Some?
  }

  /** A reservation's end day is reserved (inclusive test) yet never highlighted by that reservation. */
  lemma EndDayReservedButNotBlocked(r: Record, day: Day)
    requires IsReservation(r) && r.start <= r.end && day == r.end
    ensures IsDayReserved(Some(day), r.start, r.end)
    ensures !Blocks(r, day)
    ensures IsDayHighlighted([r], day).None?
  {
  }

  // ---------------------------------------------------------------------------
  // getPricePerDay

  /** The per-record test of getPricePerDay: a price record reserved (inclusively) on the day. */
  predicate PriceCovers(r: Record, day: Option<Day>) {
    IsPrice(r) && IsDayReserved(day, r.start, r.end)
  }

  /** `items[i]` is the first price record covering `day`. */
  predicate IsFirstPrice(items: seq<Record>, day: Option<Day>, i: int) {
    && 0 <= i < |items|
    && PriceCovers(items[i], day)
    && forall j | 0 <= j < i :: !PriceCovers(items[j], day)
  }

  /** The forEach of getPricePerDay: a covering price record is taken only while none is held. */
  function PriceScan(items: seq<Record>, day: Option<Day>, acc: Option<Record>): Option<Record>
    decreases |items|
  {
    if items == [] then acc
    else PriceScan(items[1..], day, if PriceCovers(items[0], day) && acc.None? then Some(items[0]) else acc)
  }

  lemma {:induction false} PriceScanIsFirst(items: seq<Record>, day: Option<Day>, acc: Option<Record>)
    ensures acc.Some? ==> PriceScan(items, day, acc) == acc
    ensures acc.None? ==> (PriceScan(items, day, acc).None? <==> forall i | 0 <= i < |items| :: !PriceCovers(items[i], day))
    ensures acc.None? ==> forall i | IsFirstPrice(items, day, i) :: PriceScan(items, day, acc) == Some(items[i])
    decreases |items|
  {
    if items != [] {
      var rest := items[1..];
      var acc' := if PriceCovers(items[0], day) && acc.None? then Some(items[0]) else acc;
      PriceScanIsFirst(rest, day, acc');
      assert forall j | 0 <= j < |rest| :: rest[j] == items[j + 1];
      if acc.None? {
        forall i | IsFirstPrice(items, day, i)
          ensures PriceScan(items, day, acc) == Some(items[i])
        {
          if i > 0 {
            assert IsFirstPrice(rest, day, i - 1);
          }
        }
      }
    }
  }

  /**
    getPricePerDay: the FIRST price record in list order whose inclusive
    interval holds the day; nothing for an absent day or when none matches.
    It never returns a reservation.
   */
  function GetPricePerDay(items: seq<Record>, day: Option<Day>): (r: Option<Record>)
    ensures r.None? <==> forall i | 0 <= i < |items| :: !PriceCovers(items[i], day)
    ensures day.None? ==> r.None?
    ensures r.Some? ==> r.value in items && IsPrice(r.value) && r.value.start <= day.value <= r.value.end
    ensures forall i | IsFirstPrice(items, day, i) :: r == Some(items[i])
  {
    PriceScanIsFirst(items, day, None);
    var r := PriceScan(items, day, None);
    if r.Some? then
      assert exists i :: IsFirstPrice(items, day, i) by {
        FirstPriceExists(items, day);
      }
      r
    else r
  }

  /** Some price record covers the day, so a first one does. */
  lemma {:induction false} FirstPriceExists(items: seq<Record>, day: Option<Day>)
    requires exists i | 0 <= i < |items| :: PriceCovers(items[i], day)
    ensures exists i :: IsFirstPrice(items, day, i)
    decreases |items|
  {
    if PriceCovers(items[0], day) {
      assert IsFirstPrice(items, day, 0);
    } else {
      var rest := items[1..];
      var i :| 0 <= i < |items| && PriceCovers(items[i], day);
      assert PriceCovers(rest[i - 1], day);
      FirstPriceExists(rest, day);
      var k :| IsFirstPrice(rest, day, k);
      assert IsFirstPrice(items, day, k + 1);
    }
  }

  // ---------------------------------------------------------------------------
  // findClosestDate

  /**
    The `closest` variable of findClosestDate. `Unchanged` is the state in
    which it is still the very date object passed in (`closest === date`);
    `Found(d)` holds a record's start.
   */
  datatype Closest = Unchanged | Found(day: Day)

  function ClosestValue(c: Closest, date: Day): Day {
    match c
    case Unchanged => date
    case Found(d) => d
  }

  /** One iteration of findClosestDate for a reservation starting on `s`. */
  function ClosestStep(c: Closest, s: Day, date: Day): Closest {
    if s == date then Found(s)
    else if s > date && s < ClosestValue(c, date) then Found(s)
    else if s > date && c.Unchanged? then Found(s)
    else c
  }

  function ClosestScan(items: seq<Record>, date: Day, c: Closest): Closest
    decreases |items|
  {
    if items == [] then c
    else ClosestScan(items[1..], date, if IsReservation(items[0]) then ClosestStep(c, items[0].start, date) else c)
  }

  /** `s` is the start of a reservation on or after `date`. */
  predicate StartsFrom(r: Record, date: Day) {
    IsReservation(r) && date <= r.start
  }

  lemma {:induction false} ClosestScanIsMin(items: seq<Record>, date: Day, c: Closest)
    requires c.Found? ==> date <= c.day
    ensures var r := ClosestScan(items, date, c);
      && (r.Unchanged? <==> c.Unchanged? && forall i | 0 <= i < |items| :: !StartsFrom(items[i], date))
      && (r.Found? ==> date <= r.day)
      && (r.Found? ==> r == c || exists i | 0 <= i < |items| :: StartsFrom(items[i], date) && items[i].start == r.day)
      && (r.Found? && c.Found? ==> r.day <= c.day)
      && (r.Found? ==> forall i | 0 <= i < |items| && StartsFrom(items[i], date) :: r.day <= items[i].start)
    decreases |items|
  {
    if items != [] {
      var rest := items[1..];
      var c' := if IsReservation(items[0]) then ClosestStep(c, items[0].start, date) else c;
      ClosestScanIsMin(rest, date, c');
      assert forall j | 0 <= j < |rest| :: rest[j] == items[j + 1];
      var r := ClosestScan(items, date, c);
      if r.Found? && r != c && r == c' {
        assert StartsFrom(items[0], date) && items[0].start == r.day;
      }
    }
  }

  /**
    findClosestDate: the earliest start, on or after `date`, of a reservation
    (the same day counts), or nothing when every reservation starts earlier.
   */
  function FindClosestDate(items: seq<Record>, date: Day): (r: Option<Day>)
    ensures r.None? <==> forall i | 0 <= i < |items| :: !StartsFrom(items[i], date)
    ensures r.Some? ==> exists i | 0 <= i < |items| :: StartsFrom(items[i], date) && items[i].start == r.value
    ensures r.Some? ==> forall i | 0 <= i < |items| && StartsFrom(items[i], date) :: r.value <= items[i].start
  {
    ClosestScanIsMin(items, date, Unchanged);
    match ClosestScan(items, date, Unchanged)
    case Unchanged => None
    case Found(d) => Some(d)
  }
}
