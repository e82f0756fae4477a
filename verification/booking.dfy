/** The commit path of `bookAppointment`: field check, server-side end time, conflict
    pre-check and the guarded insert, as one sequential transition of the appointment store. */
module Booking {
  import opened Wrappers
  import opened BookingConfig
  import opened Intervals
  import opened Clock
  import opened Store

  /** A stored appointment row; `span` is `[start_time, end_time)`. */
  datatype Appointment = Appointment(name: string, email: string, message: Option<string>, span: Interval)

  /** The submitted form; `None` is a field the form did not carry. */
  datatype BookingForm = BookingForm(
    name: Option<string>, email: Option<string>, message: Option<string>,
    date: Option<string>, time: Option<string>)

  /** `InvalidTimeValue` and `InsertThrew` are exceptions escaping the action; the others are
      returned as `{ error }`. */
  datatype BookingError =
    | ConfigurationError
    | MissingFields
    | InvalidTimeValue
    | SlotTaken
    | InsertFailed(message: string)
    | InsertThrew

  /** The action's reply and the store after it. */
  datatype Commit = Commit(result: Result<(), BookingError>, store: seq<Appointment>)

  /** The `error` text of a returned failure; `None` when the action throws instead. */
  function ErrorText(e: BookingError): Option<string> {
    match e
    case ConfigurationError => Some("Configuration Error: Missing Supabase keys")
    case MissingFields => Some("Missing required fields")
    case SlotTaken => Some("Slot already taken. Please choose another.")
    case InsertFailed(m) => Some(m)
    case InvalidTimeValue => None
    case InsertThrew => None
  }

  /** A form value that is truthy: submitted and not empty. */
  predicate Present(f: Option<string>) {
    f.Some? && |f.value| > 0
  }

  predicate RequiredPresent(form: BookingForm) {
    Present(form.name) && Present(form.email) && Present(form.date) && Present(form.time)
  }

  /** The interval the server books for time of day `tod` on `day`: the end is always
      recomputed from the configured duration. */
  function RequestedSpan(day: int, tod: MinuteOfDay, c: SchedulingConfig): (span: Interval)
    ensures span.start - DayStart(day) == tod
    ensures span.end - span.start == c.duration
  {
    Interval(DayStart(day) + tod, DayStart(day) + tod + c.duration)
  }

  /** The busy intervals the store holds. */
  function Spans(store: seq<Appointment>): (r: seq<Interval>)
    ensures |r| == |store| && forall i :: 0 <= i < |store| ==> r[i] == store[i].span
  {
    seq(|store|, i requires 0 <= i < |store| => store[i].span)
  }

  /** Some stored appointment overlaps `span` (`start_time < end && end_time > start`). */
  predicate HasConflict(store: seq<Appointment>, span: Interval) {
    exists i :: 0 <= i < |store| && Overlaps(store[i].span, span)
  }

  /** The system invariant: no two stored appointments overlap. */
  predicate NoDoubleBooking(store: seq<Appointment>) {
    forall i, j :: 0 <= i < j < |store| ==> !Overlaps(store[i].span, store[j].span)
  }

  /** `bookAppointment(formData)` for a form whose date denotes local day `day`, against the
      appointment store `store`; `configured` and `reply` are the store client's answers. */
  function BookAppointment(
    configured: bool, form: BookingForm, day: int, c: SchedulingConfig,
    store: seq<Appointment>, reply: InsertReply): (r: Commit)
    ensures !configured ==> r == Commit(Failure(ConfigurationError), store)
    ensures r.result == Failure(ConfigurationError) <==> !configured
    ensures configured && !RequiredPresent(form) ==> r == Commit(Failure(MissingFields), store)
    ensures r.result == Failure(MissingFields) <==> configured && !RequiredPresent(form)
    ensures configured && RequiredPresent(form) && ParseHHmm(form.time.value).None? ==>
      r == Commit(Failure(InvalidTimeValue), store)
    ensures r.result.Failure? ==> r.store == store
    ensures r.result == Failure(SlotTaken) <==>
      configured && RequiredPresent(form) && ParseHHmm(form.time.value).Some?
      && HasConflict(store, RequestedSpan(day, ParseHHmm(form.time.value).value, c))
    ensures r.result.Success? <==>
      configured && RequiredPresent(form) && ParseHHmm(form.time.value).Some?
      && !HasConflict(store, RequestedSpan(day, ParseHHmm(form.time.value).value, c))
      && reply == Inserted
    ensures (configured && RequiredPresent(form) && ParseHHmm(form.time.value).Some?
             && !HasConflict(store, RequestedSpan(day, ParseHHmm(form.time.value).value, c))) ==>
      && (forall m :: reply == Rejected(m) ==> r.result == Failure(InsertFailed(m)))
      && (reply == Threw ==> r.result == Failure(InsertThrew))
    ensures r.result.Success? ==>
      && |r.store| == |store| + 1
      && r.store[..|store|] == store
      && r.store[|store|] == Appointment(form.name.value, form.email.value, form.message,
                                         RequestedSpan(day, ParseHHmm(form.time.value).value, c))
  {
    if !configured then Commit(Failure(ConfigurationError), store)
    else if !RequiredPresent(form) then Commit(Failure(MissingFields), store)
    else match ParseHHmm(form.time.value)
      case None => Commit(Failure(InvalidTimeValue), store)
      case Some(tod) =>
        var span := RequestedSpan(day, tod, c);
        if HasConflict(store, span) then Commit(Failure(SlotTaken), store)
        else match reply
          case Inserted =>
            var added := store + [Appointment(form.name.value, form.email.value, form.message, span)];
            assert added[..|store|] == store;
            Commit(Success(()), added)
          case Rejected(m) => Commit(Failure(InsertFailed(m)), store)
          case Threw => Commit(Failure(InsertThrew), store)
  }

  /** A successful booking never creates an overlap: the invariant holds after every commit. */
  lemma BookingKeepsNoDoubleBooking(
    configured: bool, form: BookingForm, day: int, c: SchedulingConfig,
    store: seq<Appointment>, reply: InsertReply)
    requires NoDoubleBooking(store)
    ensures NoDoubleBooking(BookAppointment(configured, form, day, c, store, reply).store)
  {
    var r := BookAppointment(configured, form, day, c, store, reply);
    if r.result.Success? {
      var a := r.store[|store|];
      forall i, j | 0 <= i < j < |r.store|
        ensures !Overlaps(r.store[i].span, r.store[j].span)
      {
        assert r.store[i] == store[i];
        if j < |store| {
          assert r.store[j] == store[j];
        } else {
          assert !Overlaps(store[i].span, a.span);
        }
      }
    }
  }

  /** Submitting the same form twice in a row: the second attempt finds the first booking
      and is refused with "Slot already taken", leaving the store as the first left it. */
  lemma RepeatedBookingIsRefused(
    form: BookingForm, day: int, c: SchedulingConfig,
    store: seq<Appointment>, first: InsertReply, second: InsertReply)
    requires c.duration > 0
    requires BookAppointment(true, form, day, c, store, first).result.Success?
    ensures var after := BookAppointment(true, form, day, c, store, first).store;
      && BookAppointment(true, form, day, c, after, second) == Commit(Failure(SlotTaken), after)
      && ErrorText(BookAppointment(true, form, day, c, after, second).result.error)
         == Some("Slot already taken. Please choose another.")
  {
    var after := BookAppointment(true, form, day, c, store, first).store;
    var span := RequestedSpan(day, ParseHHmm(form.time.value).value, c);
    assert after[|store|].span == span;
    assert Overlaps(after[|store|].span, span);
  }

  // ---------------------------------------------------------------------------------
  // The pre-check as the source writes it

  /** Indices of the stored appointments overlapping `span`. */
  function OverlappingRows(store: seq<Appointment>, span: Interval): (ix: seq<int>)
    ensures forall n :: 0 <= n < |ix| ==> 0 <= ix[n] < |store| && Overlaps(store[ix[n]].span, span)
    ensures forall i :: 0 <= i < |store| && Overlaps(store[i].span, span) ==> i in ix
    ensures forall n, m :: 0 <= n < m < |ix| ==> ix[n] < ix[m]
    decreases |store|
  {
    if |store| == 0 then []
    else
      var rest := OverlappingRows(store[..|store| - 1], span);
      if Overlaps(store[|store| - 1].span, span) then rest + [|store| - 1] else rest
  }

  /** Exactly one stored appointment, the one at index `i`, overlaps `span`. */
  predicate UniqueOverlapAt(store: seq<Appointment>, span: Interval, i: int) {
    && 0 <= i < |store|
    && Overlaps(store[i].span, span)
    && forall j :: 0 <= j < |store| && Overlaps(store[j].span, span) ==> j == i
  }

  /** One overlapping index means a unique overlap; two or more mean none is unique. */
  lemma OverlappingRowsUnique(store: seq<Appointment>, span: Interval)
    ensures var ix := OverlappingRows(store, span);
      (|ix| == 1 ==> UniqueOverlapAt(store, span, ix[0]))
      && (|ix| != 1 ==> forall i :: !UniqueOverlapAt(store, span, i))
  {
    var ix := OverlappingRows(store, span);
    if |ix| >= 2 {
      assert ix[0] < ix[1];
      assert Overlaps(store[ix[0]].span, span) && Overlaps(store[ix[1]].span, span);
    }
  }

  /** The source's pre-check: the overlap query ends in `.single()`, which yields data only
      when exactly one row matches, so `conflict` is null both for no overlap and for two
      or more. */
  function SingleRowConflict(store: seq<Appointment>, span: Interval): (r: Option<Appointment>)
    ensures r.Some? <==> exists i :: UniqueOverlapAt(store, span, i)
    ensures forall i :: UniqueOverlapAt(store, span, i) ==> r == Some(store[i])
    ensures !HasConflict(store, span) ==> r.None?
  {
    var ix := OverlappingRows(store, span);
    OverlappingRowsUnique(store, span);
    if |ix| == 1 then Some(store[ix[0]]) else None
  }

  /** Two back-to-back bookings 09:45-10:15 and 10:15-10:45 both overlap a request for
      10:00; `.single()` then reports no conflict, and inserting the request double-books. */
  lemma SingleRowPreCheckAdmitsDoubleBooking()
    ensures var store := [Appointment("a", "a@x.io", None, Interval(585, 615)),
                          Appointment("b", "b@x.io", None, Interval(615, 645))];
      var span := Interval(600, 630);
      && NoDoubleBooking(store)
      && SingleRowConflict(store, span).None?
      && !NoDoubleBooking(store + [Appointment("c", "c@x.io", None, span)])
      && HasConflict(store, span)
  {
    var store := [Appointment("a", "a@x.io", None, Interval(585, 615)),
                  Appointment("b", "b@x.io", None, Interval(615, 645))];
    var span := Interval(600, 630);
    var ix := OverlappingRows(store, span);
    assert 0 in ix && 1 in ix;
    assert |ix| != 1;
    var after := store + [Appointment("c", "c@x.io", None, span)];
    assert Overlaps(after[0].span, after[2].span);
    assert Overlaps(store[0].span, span);
  }
}
