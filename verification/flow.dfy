/** The two actions together: a slot listed by `getAvailableSlots` is accepted by
    `bookAppointment` when booked against the same store snapshot. */
module BookingFlow {
  import opened Wrappers
  import opened BookingConfig
  import opened Intervals
  import opened Clock
  import opened Store
  import opened Slots
  import opened Booking

  /** A listed label names a listed start of that day: it parses back to the start's
      offset from the day's midnight. */
  lemma ListedLabelNamesListedStart(w: Window, day: int, busy: seq<Interval>, c: SchedulingConfig, now: int, text: string)
    returns (s: int)
    requires c.Valid()
    requires DayStart(day) <= w.open && w.close < DayStart(day) + MinutesPerDay
    requires text in Labels(OfferableStarts(w, busy, c, now))
    ensures s in OfferableStarts(w, busy, c, now)
    ensures Label(s) == text
    ensures ParseHHmm(text) == Some(s - DayStart(day))
  {
    var starts := OfferableStarts(w, busy, c, now);
    var n :| 0 <= n < |starts| && Labels(starts)[n] == text;
    s := starts[n];
    OfferableStartsOrdered(w, busy, c, now);
    LabelWithinDay(day, s);
  }

  /** A free start is not refused by the booking pre-check run against the same rows. */
  lemma FreeStartHasNoConflict(store: seq<Appointment>, c: SchedulingConfig, now: int, s: int)
    requires Free(Spans(store), c, now, s)
    ensures !HasConflict(store, Interval(s, s + c.duration))
  {
  }

  /** Booking a listed label for the same day against the store the listing was computed
      from books exactly the listed slot `[s, s + duration)`. */
  lemma ListedSlotIsBookable(
    settings: seq<AvailabilitySetting>, day: int, store: seq<Appointment>,
    c: SchedulingConfig, now: int, form: BookingForm)
    requires c.Valid()
    requires AvailableSlots(true, settings, day, Spans(store), c, now).Success?
    requires form.time.Some? && form.time.value in AvailableSlots(true, settings, day, Spans(store), c, now).value
    requires Present(form.name) && Present(form.email) && Present(form.date)
    ensures var r := BookAppointment(true, form, day, c, store, Inserted);
      && r.result.Success?
      && exists s ::
           && r.store[|store|].span == Interval(s, s + c.duration)
           && Label(s) == form.time.value
           && s in OfferableStarts(WindowOf(day, ActiveSetting(settings, Weekday(day)).value), Spans(store), c, now)
  {
    var w := WindowOf(day, ActiveSetting(settings, Weekday(day)).value);
    var s := ListedLabelNamesListedStart(w, day, Spans(store), c, now, form.time.value);
    OfferableStartsExactly(w, Spans(store), c, now, s);
    FreeStartHasNoConflict(store, c, now, s);
    assert RequestedSpan(day, s - DayStart(day), c) == Interval(s, s + c.duration);
  }
}
