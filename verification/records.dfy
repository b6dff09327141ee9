/**
  Booking records as the widget receives them from the remote source.

  Every timestamp of a record is taken to fall at midnight, so a calendar day
  is an integer day number and two dates compare as integers.
 */
module Records {

  /** A calendar day, counted in days (see Window.DayNumber for the calendar). */
  type Day = int

  datatype Option<+T> = None | Some(value: T)

  /**
    One element of the loaded list. `id` is absent for some records; a record
    whose `id` is the price sentinel is a price record, every other record is a
    reservation (or block). The display colour is opaque to the logic and left out.
   */
  datatype Record = Record(start: Day, end: Day, id: Option<string>, totalPrice: int, paidPrice: int)

  /** The `id` value that marks a per-day price record. */
  const PriceId: string := "price"

  predicate IsPrice(r: Record) {
    r.id == Some(PriceId)
  }

  /** Records that take part in occupancy: everything that is not a price record. */
  predicate IsReservation(r: Record) {
    !IsPrice(r)
  }

  /**
    isDayReserved: an absent day is never reserved; a present one is when it
    is neither before the start nor after the end (both bounds included).
   */
  function IsDayReserved(day: Option<Day>, start: Day, end: Day): (r: bool)
    ensures r ==> day.Some?
    ensures day.Some? ==> (r <==> start <= day.value && day.value <= end)
    ensures day.Some? && start <= end && (day.value == start || day.value == end) ==> r
  {
    match day
    case None => false
    case Some(d) => !(d < start) && !(d > end)
  }

  /** Every reservation carries an `id`, the shape the host is expected to send. */
  predicate WellTagged(items: seq<Record>) {
    forall r | r in items :: IsReservation(r) ==> r.id.Some?
  }
}
