# Date-range controller: availability and selection logic in Dafny

This project models the logic behind a booking calendar widget that lets a user
pick a date range. It covers the following parts:

- which reservation covers a day (`isDayHighlighted`);
- which price record applies to a day (`getPricePerDay`);
- the earliest reservation start from a date on (`findClosestDate`);
- which days can be picked (`isOutsideRange`);
- the two-click selection step (`changeDate`), together with the confirm,
  clear and focus actions;
- the status descriptor drawn in each day cell (`checkClsDayStartOrEndDate`);
- the window of dates `loadItems` fetches, and the year list `getYears`.

Modelling choices:

- **Days.** A calendar day is an integer day number (`Records.Day`). Every record
  timestamp is taken to fall at midnight, so dates compare as integers. The fetch
  window works on civil dates (`Window.Date`) in the proleptic Gregorian calendar.
  `Window.DayNumber` maps a civil date to a day number by summing month lengths
  from January of year 0, with leap years handled.
- **Records.** A record is `Record(start, end, id, totalPrice, paidPrice)`. The
  source checks whether an `id` field is present, so `id` is an `Option<string>`.
  A record is a price record exactly when its `id` is `"price"`. Every other record
  is a reservation.
- **Scans.** Each `forEach` over the record list is written as the left-to-right
  fold the source performs. Each fold is proved equal to an index-based reference
  description: the last blocking record, the first price record, the least start,
  or the first record that fills a slot.
- **Callbacks.** Calls to the host are returned as `Selection.Event` values.
- **Clock.** Today's date (`today`) and the current year are parameters.

Modules:

- `Records`: the record type, the price/reservation split and the inclusive
  coverage test.
- `Lookup`: the three list lookups.
- `Classify`: the status classes and the day descriptor.
- `Selection`: the selection state machine.
- `Window`: the calendar arithmetic, the fetch window and `getYears`.

Points where the code's behaviour is easy to misread:

- A day cell's three classes (flat, start half, end half) each take the first
  non-empty value offered by a covering reservation. This is not always the first
  covering reservation: a record with a zero total offers no class, and the next
  record's class is taken instead.
- With a start chosen, the closest blocking start is itself outside the range
  (`day >= closest`), not only the days after it.
- The lookup used by `changeDate` and by the calendar highlight excludes a
  reservation's end day. The status classification includes it.
- A click is refused only when the last reservation with start <= day < end
  carries an `id`. A later reservation without an `id` therefore hides an earlier booked one,
  and the click is accepted (`Selection.IdlessReservationHidesBooking`).
- `changeDate` stores the end it is given even when the start it is given is
  absent, so the selection can hold an end without a start
  (`Selection.EndWithoutStartIsStored`).

## Model

| member | source | states |
|---|---|---|
| `Records.IsDayReserved` | src/App.js:180-182 | An absent day is never reserved. A present day is reserved exactly when it lies between the start and the end, both included, so both bounds of a non-empty interval are reserved. |
| `Lookup.IsDayHighlighted` | src/App.js:130-154 | Returns nothing exactly when no reservation has start <= day < end. Otherwise it returns a reservation from the list with start <= day < end, and that is the last such record in list order. |
| `Lookup.HighlightScanIsLast` | src/App.js:134-151 | The overwrite-on-match `forEach` ends holding the last blocking record, or keeps its initial value when none blocks. A last blocking record exists whenever any record blocks. |
| `Lookup.IsHighlightedInCalendar` | src/App.js:446-449 | The calendar highlights a day exactly when its last blocking reservation carries an `id`. |
| `Lookup.EndDayReservedButNotBlocked` | src/App.js:180-182 | A reservation's end day passes the inclusive coverage test but is not blocked by that reservation, so a one-record list highlights nothing on it. |
| `Lookup.GetPricePerDay` | src/App.js:156-178 | Returns nothing exactly when no price record's inclusive interval holds the day, which includes the case of an absent day. Otherwise it returns a price record from the list covering the day, and that is the first such record. It never returns a reservation. |
| `Lookup.PriceScanIsFirst` | src/App.js:159-175 | The take-if-empty `forEach` keeps a record once it holds one. Starting empty, it ends with the first covering price record, or with nothing when none covers. |
| `Lookup.FindClosestDate` | src/App.js:104-128 | Returns nothing exactly when every reservation starts before the date. Otherwise it returns the start of a reservation on or after the date, and no reservation starting on or after the date starts earlier. A start on the same day counts. |
| `Lookup.ClosestScanIsMin` | src/App.js:105-126 | The identity-based `closest` update acts as a running minimum over the reservation starts on or after the date. It stays the original date object only when no such start exists. |
| `Classify.StatusOf` | src/App.js:291-303 | A non-zero total that is fully paid gives "paid". A non-zero total with nothing paid gives "partially-reserved". A non-zero total above a non-zero payment gives "reserved". Otherwise there is no class: the total is zero, or the payment exceeds it. |
| `Classify.StatusExamples` | src/App.js:291-303 | Totals of 100 with 100, 0 and 40 paid give paid, partially-reserved and reserved. 140 paid of 100, or a zero total, gives no class. |
| `Classify.SlotScanIsFirst` | src/App.js:340-358 | Filling a slot only while it is empty leaves it holding the first value any covering reservation offers for it. The slot stays empty exactly when no reservation offers a value. |
| `Classify.DaySlots` | src/App.js:275-362 | For each of the flat, start and end slots: the slot is empty exactly when no covering reservation offers a value, and otherwise it holds the first value offered. |
| `Classify.ClassifyDay` | src/App.js:364-404 | The descriptor is Split exactly when some reservation starts on the day and some reservation ends on it, each with a status. Otherwise it is StartOnly, then EndOnly, then Flat, then Empty. It is Empty exactly when no covering reservation has a status. Each class shown is the first one offered. |
| `Classify.NoBodyNoEdges` | src/App.js:305-338 | The start and end classes are the record's own status, so a day with no flat class has no half classes either. |
| `Classify.AdjacentBookingsSplit` | src/App.js:365-374 | A day that is one reservation's end and another's start, both with a status, renders the split descriptor. |
| `Classify.AdjacentPairSplit` | src/App.js:340-374 | For a booking ending on the day (and starting earlier) followed by one starting on it, both with a status, the split shows the second booking's status in the start half and the first booking's in the end half. |
| `Selection.Reset` | src/App.js:184-188 | Clearing gives the well-formed empty selection with the start endpoint focused. |
| `Selection.OnFocusChange` | src/App.js:190-192 | The focus becomes the reported endpoint, or the start endpoint when none is reported. The range is unchanged. |
| `Selection.IsOutsideRange` | src/App.js:88-102 | A day is outside exactly when it is before today, or when a start is chosen, no end is chosen, and some reservation starts between the chosen start and the day, both included. |
| `Selection.Refusal` | src/App.js:33-59 | A clicked day is refused by the record the highlight lookup finds on it, when that record carries an `id`. A day is not refused when it is absent, when nothing covers it, or when the covering record has no `id`. |
| `Selection.ChangeDate` | src/App.js:29-78 | A date change emits at most one event, and a change that emits nothing changes nothing. It emits exactly `setDateRange(new start, new end, price record of the new start)` when neither the new start nor the new end is refused. An accepted change restarts a range whose start and end were both set, as (new start, none, end focused); otherwise it takes the new pair and keeps the focus. An item click leaves the selection as it was; it is reported only with no start chosen, and it names an id-carrying reservation that blocks the new start or the new end. With no start chosen, a refused new start reports its refusing record, and otherwise a refused new end reports its own. |
| `Selection.RefusedClick` | src/App.js:33-59 | A refused click keeps start, end and focus and emits no `setDateRange`. It emits the item click exactly when no start is chosen: for the start's refusing record, or else for the end's. |
| `Selection.AcceptedClick` | src/App.js:61-78 | An accepted click emits exactly one `setDateRange` with the new pair and the start's price. A complete range restarts as (new start, none, end focused). Otherwise the state becomes the new pair, with the focus kept. |
| `Selection.AcceptedIffSetDateRange` | src/App.js:29-78 | A click emits `setDateRange` (and nothing else) exactly when neither endpoint is refused. |
| `Selection.ChangeDateKeepsWellFormed` | src/App.js:61-69 | When the calendar never reports an end without a start, the selection never holds an end without a start. |
| `Selection.EndWithoutStartIsStored` | src/App.js:66-68 | From the cleared state, an unrefused change that reports an end but no start stores that end alone, leaving a selection with an end and no start. |
| `Selection.IdlessReservationHidesBooking` | src/App.js:147-148 | With a booking followed by an id-less reservation over the same days, the booking blocks the day, yet the day is not refused and a click on it starts a range. |
| `Selection.ClickAfterResetReportsItem` | src/App.js:37-43 | After a clear, a click on a booked day keeps the cleared state and reports that booking. |
| `Selection.ConfirmAfterRestartFails` | src/App.js:61-65 | An accepted click on a complete range drops its end, so a confirm right after it fails with the message. A refused click keeps the range, and confirming reports that range. |
| `Selection.Confirm` | src/App.js:80-86 | Confirming reports the range exactly when both ends are set. Otherwise it reports the failure message "please select date range!". |
| `Selection.AcceptedEndpointsAreFree` | src/App.js:33-59 | When every reservation carries an `id`, neither endpoint of an accepted click lies in a reservation's [start, end) interval. Without that assumption the promise fails (see `Selection.IdlessReservationHidesBooking`). |
| `Selection.CompletedRangeAvoidsBookings` | src/App.js:88-102 | When every reservation carries an `id`, a range completed by picking a selectable end and having the click accepted meets no reservation's [start, end) interval on any of its days. |
| `Window.DaysInMonth` | src/App.js:204-208 | A month has 28 to 31 days, and February has 29 exactly in leap years. |
| `Window.YearLength` | src/App.js:204-208 | The month lengths add up to 366 days in a leap year and 365 days otherwise. |
| `Window.WindowDates` | src/App.js:199-208 | The window runs from the first day of the month two months before the reference to the last day of the month two months after it. Both bounds are valid dates. |
| `Window.FetchWindow` | src/App.js:197-211 | A valid date is at or below the upper bound exactly when its month is at most two months after the reference month. With no start selected, it is at or above the lower bound exactly when its month is at least two months before. With a start selected, the lower bound is that start. |
| `Window.WindowHoldsReference` | src/App.js:197-208 | With no start selected, the window holds the reference day. |
| `Window.WindowOfMidYear` | src/App.js:199-208 | 15 June 2024 gives the window from 1 April to 31 August 2024. |
| `Window.WindowWrapsBack` | src/App.js:199-203 | 31 January 2024 gives a window starting on 1 November 2023. |
| `Window.WindowWrapsForward` | src/App.js:204-208 | 5 December 2023 gives a window ending on 29 February 2024. |
| `Window.LoadItems` | src/App.js:194-214 | The reference is the date passed in, or else the current date. It becomes the new current date, and the window is centred on it. |
| `Window.GetYears` | src/App.js:247-257 | The list holds the eleven consecutive years from five before the current year to five after it, in order. |

## Left out

- Selection.ChangeDateKeepsWellFormed: promises "no end without a start" only
  for changes that never report an end without a start. src/App.js:66-68 stores
  whatever pair it is given, and `Selection.EndWithoutStartIsStored` shows the
  state that results otherwise. Whether the calendar component ever reports such
  a pair is not part of this model.

- The remote fetch, the JSON decoding, the `isLoaded` and `error` state, and the
  order in which fetches complete (src/App.js:213-229): these are I/O and asynchronous
  behaviour. `Window.LoadItems` stops at the window to request. Formatting the
  window as `YYYY-MM-DD` text in the URL is also left out.
- All rendering: the JSX fragments, `renderCalendarInfo`, the month and year
  `<select>` elements, the loading overlay, the mobile month count and the locale
  setting. `Classify.ClassifyDay` returns a descriptor in place of the fragment.
- The CSS-in-JS templates of src/styled.js, which have no behaviour.
- Moment's parsing and time of day. Record timestamps are taken to be at midnight
  and days are whole day numbers. The in-place `startOf("day")` mutation of the
  argument in `isOutsideRange` and `findClosestDate` is not modelled.
- JavaScript coercions: `parseInt` of prices, the strict `paidPrice === 0` test on
  a string price, and falsy values other than null. Prices are integers, and absent
  values are `None`.
- Exceptions thrown by host callbacks. `changeDate` catches and logs them
  (src/App.js:36-42, 50-56, 73-77). The confirm callbacks `onSetDateRange` and
  `onSetDateRangeFailed` (src/App.js:82, 84) are not wrapped, so their exceptions,
  and the error raised when the host did not configure them, propagate out of the
  button handler (src/App.js:515-518). Every callback is an emitted event, including
  one the host did not configure.
- The previous/next-month handlers (src/App.js:232-241) and the month/year select
  handlers (src/App.js:259-269). They only pass a new reference date to `loadItems`,
  which `Window.LoadItems` models with `passed`; the refresh action is
  `Window.LoadItems` with no date passed.
- The per-record display colour, which the logic never reads.
- A coarse interval-rejection validator (rejecting a whole range that contains a
  booking boundary). No such function is in src/App.js.
