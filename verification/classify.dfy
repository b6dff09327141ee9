/**
  Per-day status classification (checkClsDayStartOrEndDate), with the
  rendered fragment reduced to a descriptor of the classes it shows.
 */
module Classify {
  import opened Records

  /** The three status classes: "paid", "partially-reserved", "reserved". */
  datatype Status = Paid | PartiallyReserved | Reserved

  /**
    What a day cell shows: two diagonal halves (the start half from a record
    beginning on the day, the end half from one ending on it), one half, a flat
    status, or nothing.
   */
  datatype Descriptor =
    | Split(startCls: Status, endCls: Status)
    | StartOnly(startCls: Status)
    | EndOnly(endCls: Status)
    | Flat(cls: Status)
    | Empty

  /**
    The status of a reservation; the first matching rule wins: a non-zero total
    fully paid, then a non-zero total with nothing paid, then a non-zero total
    above the amount paid. Any other record has no class.
   */
  function StatusOf(r: Record): (c: Option<Status>)
    ensures c == Some(Paid) <==> r.totalPrice != 0 && r.totalPrice == r.paidPrice
    ensures c == Some(PartiallyReserved) <==> r.totalPrice != 0 && r.paidPrice == 0
    ensures c == Some(Reserved) <==> r.totalPrice != 0 && r.paidPrice != 0 && r.paidPrice < r.totalPrice
    ensures c.None? <==> r.totalPrice == 0 || (r.paidPrice != 0 && r.totalPrice < r.paidPrice)
  {
    if r.totalPrice != 0 && r.totalPrice == r.paidPrice then Some(Paid)
    else if r.totalPrice != 0 && r.paidPrice == 0 then Some(PartiallyReserved)
    else if r.totalPrice != 0 && r.totalPrice > r.paidPrice then Some(Reserved)
    else None
  }

  /** The three per-day slots: the flat class, the start-half class and the end-half class. */
  datatype Slot = Body | StartEdge | EndEdge

  datatype Slots = Slots(cls: Option<Status>, clsStart: Option<Status>, clsEnd: Option<Status>) {
    function Get(k: Slot): Option<Status> {
      match k
      case Body => cls
      case StartEdge => clsStart
      case EndEdge => clsEnd
    }
  }

  /** A reservation whose inclusive interval holds the day. */
  predicate Covers(r: Record, day: Day) {
    IsReservation(r) && IsDayReserved(Some(day), r.start, r.end)
  }

  /** The value record `r` offers for slot `k` on `day`: its status, the edge slots only on its own start or end day. */
  function SlotValue(r: Record, day: Day, k: Slot): Option<Status> {
    if !Covers(r, day) then None
    else match k
      case Body => StatusOf(r)
      case StartEdge => if day == r.start then StatusOf(r) else None
      case EndEdge => if day == r.end then StatusOf(r) else None
  }

  /** One iteration of the forEach: each slot still empty takes the record's value. */
  function Fill(acc: Slots, r: Record, day: Day): Slots {
    if !Covers(r, day) then acc
    else
      var cls := SlotValue(r, day, Body);
      var clsStart := SlotValue(r, day, StartEdge);
      var clsEnd := SlotValue(r, day, EndEdge);
      Slots(
        if cls.Some? && acc.cls.None? then cls else acc.cls,
        if clsStart.Some? && acc.clsStart.None? then clsStart else acc.clsStart,
        if clsEnd.Some? && acc.clsEnd.None? then clsEnd else acc.clsEnd)
  }

  function SlotScan(items: seq<Record>, day: Day, acc: Slots): Slots
    decreases |items|
  {
    if items == [] then acc
    else SlotScan(items[1..], day, Fill(acc, items[0], day))
  }

  /** `items[i]` is the first record offering a value for slot `k`. */
  predicate IsFirstFilled(items: seq<Record>, day: Day, k: Slot, i: int) {
    && 0 <= i < |items|
    && SlotValue(items[i], day, k).Some?
    && forall j | 0 <= j < i :: SlotValue(items[j], day, k).None?
  }

  /** No record offers a value for slot `k`. */
  predicate NoneFilled(items: seq<Record>, day: Day, k: Slot) {
    forall i | 0 <= i < |items| :: SlotValue(items[i], day, k).None?
  }

  lemma FillSlot(acc: Slots, r: Record, day: Day, k: Slot)
    ensures Fill(acc, r, day).Get(k) == if acc.Get(k).Some? then acc.Get(k) else SlotValue(r, day, k)
  {
  }

  lemma {:induction false} SlotScanIsFirst(items: seq<Record>, day: Day, acc: Slots, k: Slot)
    ensures acc.Get(k).Some? ==> SlotScan(items, day, acc).Get(k) == acc.Get(k)
    ensures acc.Get(k).None? ==> (SlotScan(items, day, acc).Get(k).None? <==> NoneFilled(items, day, k))
    ensures acc.Get(k).None? ==> forall i | IsFirstFilled(items, day, k, i) :: SlotScan(items, day, acc).Get(k) == SlotValue(items[i], day, k)
    decreases |items|
  {
    if items != [] {
      var rest := items[1..];
      var acc' := Fill(acc, items[0], day);
      FillSlot(acc, items[0], day, k);
      SlotScanIsFirst(rest, day, acc', k);
      assert forall j | 0 <= j < |rest| :: rest[j] == items[j + 1];
      if acc.Get(k).None? {
        forall i | IsFirstFilled(items, day, k, i)
          ensures SlotScan(items, day, acc).Get(k) == SlotValue(items[i], day, k)
        {
          if i > 0 {
            assert IsFirstFilled(rest, day, k, i - 1);
          }
        }
        if !NoneFilled(items, day, k) && SlotValue(items[0], day, k).None? {
          var i :| 0 <= i < |items| && SlotValue(items[i], day, k).Some?;
          assert SlotValue(rest[i - 1], day, k).Some?;
        }
      }
    }
  }

  /** The slots of a day after the scan: each holds the value of the first record offering one. */
  function DaySlots(items: seq<Record>, day: Day): (s: Slots)
    ensures forall k: Slot :: s.Get(k).None? <==> NoneFilled(items, day, k)
    ensures forall k: Slot, i | IsFirstFilled(items, day, k, i) :: s.Get(k) == SlotValue(items[i], day, k)
  {
    var empty := Slots(None, None, None);
    SlotScanIsFirst(items, day, empty, Body);
    SlotScanIsFirst(items, day, empty, StartEdge);
    SlotScanIsFirst(items, day, empty, EndEdge);
    SlotScan(items, day, empty)
  }

  /** The branch chain that picks the fragment to render. */
  function Describe(s: Slots): Descriptor {
    if s.clsStart.Some? && s.clsEnd.Some? then Split(s.clsStart.value, s.clsEnd.value)
    else if s.clsStart.Some? then StartOnly(s.clsStart.value)
    else if s.clsEnd.Some? then EndOnly(s.clsEnd.value)
    else if s.cls.Some? then Flat(s.cls.value)
    else Empty
  }

  /** An edge value is the record's status, so a record filling an edge slot fills the flat slot too. */
  lemma EdgeImpliesBody(r: Record, day: Day, k: Slot)
    requires SlotValue(r, day, k).Some?
    ensures SlotValue(r, day, Body) == SlotValue(r, day, k)
  {
  }

  /** When no record offers a flat class, none offers an edge class either. */
  lemma NoBodyNoEdges(items: seq<Record>, day: Day)
    ensures NoneFilled(items, day, Body) ==> NoneFilled(items, day, StartEdge) && NoneFilled(items, day, EndEdge)
  {
    forall i | 0 <= i < |items| && SlotValue(items[i], day, Body).None?
      ensures SlotValue(items[i], day, StartEdge).None? && SlotValue(items[i], day, EndEdge).None?
    {
      if SlotValue(items[i], day, StartEdge).Some? {
        EdgeImpliesBody(items[i], day, StartEdge);
      }
      if SlotValue(items[i], day, EndEdge).Some? {
        EdgeImpliesBody(items[i], day, EndEdge);
      }
    }
  }

  /**
    checkClsDayStartOrEndDate: the descriptor of a day. Split exactly when some
    reservation starts on the day and some reservation ends on it (each with a
    status); otherwise the start half, then the end half, then the flat status,
    then nothing; every class is that of the first record offering one.
   */
  function ClassifyDay(items: seq<Record>, day: Day): (d: Descriptor)
    ensures d.Split? <==> !NoneFilled(items, day, StartEdge) && !NoneFilled(items, day, EndEdge)
    ensures d.StartOnly? <==> !NoneFilled(items, day, StartEdge) && NoneFilled(items, day, EndEdge)
    ensures d.EndOnly? <==> NoneFilled(items, day, StartEdge) && !NoneFilled(items, day, EndEdge)
    ensures d.Empty? <==> NoneFilled(items, day, Body)
    ensures forall i | IsFirstFilled(items, day, StartEdge, i) ::
      (d.Split? || d.StartOnly?) && Some(d.startCls) == SlotValue(items[i], day, StartEdge)
    ensures forall i | IsFirstFilled(items, day, EndEdge, i) ::
      (d.Split? || d.EndOnly?) && Some(d.endCls) == SlotValue(items[i], day, EndEdge)
    ensures forall i | IsFirstFilled(items, day, Body, i) ::
      d.Flat? ==> Some(d.cls) == SlotValue(items[i], day, Body)
  {
    NoBodyNoEdges(items, day);
    Describe(DaySlots(items, day))
  }

  /**
    A day that is one reservation's end and another's start (both with a status)
    renders the split descriptor, never a flat status.
   */
  lemma AdjacentBookingsSplit(items: seq<Record>, a: Record, b: Record, day: Day)
    requires a in items && b in items
    requires IsReservation(a) && a.start <= a.end == day && StatusOf(a).Some?
    requires IsReservation(b) && day == b.start <= b.end && StatusOf(b).Some?
    ensures ClassifyDay(items, day).Split?
  {
    var i :| 0 <= i < |items| && items[i] == b;
    var j :| 0 <= j < |items| && items[j] == a;
    assert SlotValue(items[i], day, StartEdge).Some?;
    assert SlotValue(items[j], day, EndEdge).Some?;
  }

  /**
    The split of two adjacent bookings combines their statuses: the start half
    is the status of the booking that begins on the day, the end half that of
    the booking that ends on it.
   */
  lemma AdjacentPairSplit(a: Record, b: Record, day: Day)
    requires IsReservation(a) && a.start < a.end == day && StatusOf(a).Some?
    requires IsReservation(b) && day == b.start <= b.end && StatusOf(b).Some?
    ensures ClassifyDay([a, b], day) == Split(StatusOf(b).value, StatusOf(a).value)
  {
    assert IsFirstFilled([a, b], day, StartEdge, 1);
    assert IsFirstFilled([a, b], day, EndEdge, 0);
  }

  /** The status precedence on the three example shapes of a fully, partly and not yet paid booking. */
  lemma StatusExamples(s: Day, e: Day)
    ensures StatusOf(Record(s, e, Some("a"), 100, 100)) == Some(Paid)
    ensures StatusOf(Record(s, e, Some("b"), 100, 0)) == Some(PartiallyReserved)
    ensures StatusOf(Record(s, e, Some("c"), 100, 40)) == Some(Reserved)
    ensures StatusOf(Record(s, e, Some("d"), 100, 140)) == None
    ensures StatusOf(Record(s, e, Some("e"), 0, 0)) == None
  {
  }
}
