/**
  The two-click range selection: which days can be picked (isOutsideRange),
  the state step taken on every date change (changeDate), and the confirm,
  clear and focus actions. Host callbacks are returned as emitted events.
 */
module Selection {
  import opened Records
  import opened Lookup

  /** The endpoint the next click fills. */
  datatype Focus = StartDate | EndDate

  /** The widget's selection: a nullable start and end and the focused endpoint. */
  datatype Selection = Selection(start: Option<Day>, end: Option<Day>, focus: Focus)

  /** A call into the host configuration. */
  datatype Event =
    | OnClickItem(item: Record)
    | SetDateRange(startDay: Option<Day>, endDay: Option<Day>, price: Option<Record>)
    | OnSetDateRange(rangeStart: Day, rangeEnd: Day)
    | OnSetDateRangeFailed(message: string)

  /** The new selection after a date change and the callbacks it made, in order. */
  datatype Step = Step(next: Selection, events: seq<Event>)

  /** The message reported when confirming without a complete range. */
  const RangeMissingMessage: string := "please select date range!"

  /** An end is never set while the start is absent. */
  predicate WellFormed(s: Selection) {
    s.end.Some? ==> s.start.Some?
  }

  /** The state the widget starts in and returns to on clear. */
  function Reset(): (s: Selection)
    ensures WellFormed(s)
    ensures s.start.None? && s.end.None? && s.focus == StartDate
  {
    Selection(None, None, StartDate)
  }

  /** onFocusChange: the calendar's focus, or the start endpoint when it reports none; the range is untouched. */
  function OnFocusChange(s: Selection, focused: Option<Focus>): (r: Selection)
    ensures r.start == s.start && r.end == s.end
    ensures focused.Some? ==> r.focus == focused.value
    ensures focused.None? ==> r.focus == StartDate
  {
    Selection(s.start, s.end, match focused case Some(f) => f case None => StartDate)
  }

  /**
    isOutsideRange: a day before today is never selectable. While a start is
    chosen and no end yet, a day is also outside when some reservation starts
    between the chosen start and that day, both included, so a range cannot run
    over a booking. In every other state the days from today on are selectable.
   */
  function IsOutsideRange(today: Day, s: Selection, items: seq<Record>, day: Day): (r: bool)
    ensures r <==> (day < today ||
      (s.start.Some? && s.end.None? &&
       exists i | 0 <= i < |items| :: IsReservation(items[i]) && s.start.value <= items[i].start <= day))
  {
    if today > day then true
    else if s.start.Some? && s.end.None? then
      match FindClosestDate(items, s.start.value)
      case None => false
      case Some(closest) => day >= closest
    else false
  }

  /**
    The record that makes changeDate refuse a clicked day: the reservation
    isDayHighlighted finds on it, when that record carries an `id`.
   */
  function Refusal(items: seq<Record>, day: Option<Day>): (r: Option<Record>)
    ensures r.Some? ==> day.Some? && r.value.id.Some? && IsDayHighlighted(items, day.value) == r
    ensures r.None? ==> day.None? || IsDayHighlighted(items, day.value).None? || IsDayHighlighted(items, day.value).value.id.None?
  {
    match day
    case None => None
    case Some(d) =>
      var elem := IsDayHighlighted(items, d);
      if elem.Some? && elem.value.id.Some? then elem else None
  }

  /**
    changeDate: a click on a day refused for its start, or else for its end,
    changes nothing and reports the refusing record only when no start is
    chosen yet. Otherwise a complete range restarts at the new start with the
    end focused, an incomplete one takes the new pair, and the host is told the
    new pair with the price record of the new start.
   */
  function ChangeDate(s: Selection, items: seq<Record>, startNew: Option<Day>, endNew: Option<Day>): (r: Step)
    ensures |r.events| <= 1
    ensures r.events == [] ==> r.next == s
    ensures forall e | e in r.events && e.OnClickItem? ::
      && r.next == s && s.start.None? && e.item in items && e.item.id.Some?
      && ((startNew.Some? && Blocks(e.item, startNew.value)) || (endNew.Some? && Blocks(e.item, endNew.value)))
    ensures forall e | e in r.events && e.SetDateRange? ::
      && e == SetDateRange(startNew, endNew, GetPricePerDay(items, startNew))
      && r.next.start == startNew
      && (r.next.end == endNew || (r.next.end.None? && r.next.focus == EndDate))
    ensures r.events == [] || r.events[0].OnClickItem? || r.events[0].SetDateRange?
    ensures (Refusal(items, startNew).None? && Refusal(items, endNew).None?) <==>
      r.events == [SetDateRange(startNew, endNew, GetPricePerDay(items, startNew))]
    ensures s.start.None? && Refusal(items, startNew).Some? ==>
      r.events == [OnClickItem(Refusal(items, startNew).value)]
    ensures s.start.None? && Refusal(items, startNew).None? && Refusal(items, endNew).Some? ==>
      r.events == [OnClickItem(Refusal(items, endNew).value)]
    ensures r.events != [] && r.events[0].SetDateRange? ==>
      r.next == (if s.start.Some? && s.end.Some? then Selection(startNew, None, EndDate)
                 else Selection(startNew, endNew, s.focus))
  {
    var refusedStart := Refusal(items, startNew);
    if refusedStart.Some? then
      Step(s, if s.start.None? then [OnClickItem(refusedStart.value)] else [])
    else
      var refusedEnd := Refusal(items, endNew);
      if refusedEnd.Some? then
        Step(s, if s.start.None? then [OnClickItem(refusedEnd.value)] else [])
      else
        var next :=
          if s.start.Some? && s.end.Some? then Selection(startNew, None, EndDate)
          else Selection(startNew, endNew, s.focus);
        Step(next, [SetDateRange(startNew, endNew, GetPricePerDay(items, startNew))])
  }

  /** The confirm action: the complete range, or the failure message. */
  function Confirm(s: Selection): (e: Event)
    ensures e.OnSetDateRange? <==> s.start.Some? && s.end.Some?
    ensures e.OnSetDateRange? ==> e.rangeStart == s.start.value && e.rangeEnd == s.end.value
    ensures e.OnSetDateRangeFailed? ==> e.message == RangeMissingMessage
    ensures e.OnSetDateRange? || e.OnSetDateRangeFailed?
  {
    if s.start.Some? && s.end.Some? then OnSetDateRange(s.start.value, s.end.value)
    else OnSetDateRangeFailed(RangeMissingMessage)
  }

  // ---------------------------------------------------------------------------
  // Properties of the selection step

  /** A refused click leaves the whole selection as it was and emits no setDateRange. */
  lemma RefusedClick(s: Selection, items: seq<Record>, startNew: Option<Day>, endNew: Option<Day>)
    requires Refusal(items, startNew).Some? || Refusal(items, endNew).Some?
    ensures var r := ChangeDate(s, items, startNew, endNew);
      && r.next == s
      && (forall e | e in r.events :: !e.SetDateRange?)
      && (s.start.None? <==> r.events != [])
      && (s.start.None? && Refusal(items, startNew).Some? ==> r.events == [OnClickItem(Refusal(items, startNew).value)])
      && (s.start.None? && Refusal(items, startNew).None? ==> r.events == [OnClickItem(Refusal(items, endNew).value)])
  {
  }

  /** An accepted click: a complete range restarts, otherwise the new pair is taken with the focus kept. */
  lemma AcceptedClick(s: Selection, items: seq<Record>, startNew: Option<Day>, endNew: Option<Day>)
    requires Refusal(items, startNew).None? && Refusal(items, endNew).None?
    ensures var r := ChangeDate(s, items, startNew, endNew);
      && r.events == [SetDateRange(startNew, endNew, GetPricePerDay(items, startNew))]
      && (s.start.Some? && s.end.Some? ==> r.next == Selection(startNew, None, EndDate))
      && (s.start.None? || s.end.None? ==> r.next == Selection(startNew, endNew, s.focus))
  {
  }

  /** A click is accepted exactly when it emits setDateRange, and then it emits nothing else. */
  lemma AcceptedIffSetDateRange(s: Selection, items: seq<Record>, startNew: Option<Day>, endNew: Option<Day>)
    ensures var r := ChangeDate(s, items, startNew, endNew);
      (Refusal(items, startNew).None? && Refusal(items, endNew).None?) <==> (|r.events| == 1 && r.events[0].SetDateRange?)
  {
  }

  /** The selection never holds an end without a start, provided the calendar never reports one. */
  lemma ChangeDateKeepsWellFormed(s: Selection, items: seq<Record>, startNew: Option<Day>, endNew: Option<Day>)
    requires WellFormed(s)
    requires endNew.Some? ==> startNew.Some?
    ensures WellFormed(ChangeDate(s, items, startNew, endNew).next)
  {
  }

  /**
    The step itself does not keep an end away from an absent start: a change
    reporting only an end, from the cleared state, stores that end alone.
   */
  lemma EndWithoutStartIsStored(items: seq<Record>, d: Day)
    requires Refusal(items, Some(d)).None?
    ensures ChangeDate(Reset(), items, None, Some(d)).next == Selection(None, Some(d), StartDate)
    ensures !WellFormed(ChangeDate(Reset(), items, None, Some(d)).next)
  {
  }

  /**
    A later reservation without an `id` hides an earlier booked one from the
    refusal test, so a click inside that booking is accepted.
   */
  lemma IdlessReservationHidesBooking()
    ensures var items := [Record(1, 5, Some("a"), 1, 1), Record(1, 5, None, 1, 1)];
      && Blocks(items[0], 3)
      && Refusal(items, Some(3)).None?
      && ChangeDate(Reset(), items, Some(3), None).next == Selection(Some(3), None, StartDate)
  {
    var items := [Record(1, 5, Some("a"), 1, 1), Record(1, 5, None, 1, 1)];
    assert IsLastBlocking(items, 3, 1);
  }

  /** After a clear, a click on a booked day reports that booking to the host. */
  lemma ClickAfterResetReportsItem(items: seq<Record>, day: Day, endNew: Option<Day>)
    requires Refusal(items, Some(day)).Some?
    ensures ChangeDate(Reset(), items, Some(day), endNew) == Step(Reset(), [OnClickItem(IsDayHighlighted(items, day).value)])
  {
  }

  /** Restarting a complete range drops its end, so confirming right after reports the failure message. */
  lemma ConfirmAfterRestartFails(s: Selection, items: seq<Record>, startNew: Option<Day>, endNew: Option<Day>)
    requires s.start.Some? && s.end.Some?
    ensures Confirm(ChangeDate(s, items, startNew, endNew).next) ==
      if Refusal(items, startNew).None? && Refusal(items, endNew).None?
      then OnSetDateRangeFailed(RangeMissingMessage)
      else OnSetDateRange(s.start.value, s.end.value)
  {
  }

  /**
    When every reservation carries an `id`, an accepted click lands on no
    reservation's [start, end) interval, neither with its start nor its end.
   */
  lemma AcceptedEndpointsAreFree(items: seq<Record>, startNew: Option<Day>, endNew: Option<Day>)
    requires WellTagged(items)
    requires Refusal(items, startNew).None? && Refusal(items, endNew).None?
    ensures startNew.Some? ==> forall i | 0 <= i < |items| :: !Blocks(items[i], startNew.value)
    ensures endNew.Some? ==> forall i | 0 <= i < |items| :: !Blocks(items[i], endNew.value)
  {
    if startNew.Some? {
      HighlightFree(items, startNew.value);
    }
    if endNew.Some? {
      HighlightFree(items, endNew.value);
    }
  }

  lemma HighlightFree(items: seq<Record>, day: Day)
    requires WellTagged(items)
    requires Refusal(items, Some(day)).None?
    ensures forall i | 0 <= i < |items| :: !Blocks(items[i], day)
  {
  }

  /**
    A range completed through the widget overlaps no booking: with a start
    chosen, an end picked among the selectable days and the click accepted,
    no reservation's [start, end) interval meets the selected days, when every
    reservation carries an `id`.
   */
  lemma CompletedRangeAvoidsBookings(today: Day, items: seq<Record>, s: Selection, endDay: Day)
    requires WellTagged(items)
    requires s.start.Some? && s.end.None? && s.start.value <= endDay
    requires !IsOutsideRange(today, s, items, endDay)
    requires ChangeDate(s, items, s.start, Some(endDay)).next.end == Some(endDay)
    ensures forall i, d | 0 <= i < |items| && s.start.value <= d <= endDay :: !Blocks(items[i], d)
  {
    var first := s.start.value;
    AcceptedIffSetDateRange(s, items, s.start, Some(endDay));
    AcceptedEndpointsAreFree(items, s.start, Some(endDay));
    forall i, d | 0 <= i < |items| && first <= d <= endDay
      ensures !Blocks(items[i], d)
    {
      if items[i].start < first {
        assert !Blocks(items[i], first);
      } else {
        assert !(IsReservation(items[i]) && first <= items[i].start <= endDay);
      }
    }
  }
}
