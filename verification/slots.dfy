/** The slot engine of `getAvailableSlots`: one day's availability window expanded into the
    `HH:mm` starts a visitor may book.

    The loop of the source is `GetAvailableSlots`; `AvailableSlots` is an independent,
    closed-form statement of its result (the grid points that fit in the window, filtered
    by "not in the past and free"), and the lemmas below characterise that result. */
module Slots {
  import opened Wrappers
  import opened BookingConfig
  import opened Intervals
  import opened Clock

  /** One row of the availability settings table. */
  datatype AvailabilitySetting = AvailabilitySetting(
    dayOfWeek: int, isActive: bool, startTime: MinuteOfDay, endTime: MinuteOfDay)

  /** The instants at which a day's availability opens and closes. */
  datatype Window = Window(open: int, close: int)

  datatype SlotError = ConfigurationError | NoAvailability

  function SlotErrorText(e: SlotError): string {
    match e
    case ConfigurationError => "Configuration Error: Missing Supabase keys"
    case NoAvailability => "No availability for this day"
  }

  // ---------------------------------------------------------------------------------
  // Settings lookup: `.eq('day_of_week', d).eq('is_active', true).single()`

  predicate RowMatches(row: AvailabilitySetting, weekday: int) {
    row.dayOfWeek == weekday && row.isActive
  }

  /** Exactly one row, the one at index `i`, matches the query. */
  predicate UniqueMatchAt(settings: seq<AvailabilitySetting>, weekday: int, i: int) {
    && 0 <= i < |settings|
    && RowMatches(settings[i], weekday)
    && forall j :: 0 <= j < |settings| && RowMatches(settings[j], weekday) ==> j == i
  }

  /** Indices of the rows matching the query, in table order. */
  function MatchingIndices(settings: seq<AvailabilitySetting>, weekday: int): (ix: seq<int>)
    ensures forall n :: 0 <= n < |ix| ==> 0 <= ix[n] < |settings| && RowMatches(settings[ix[n]], weekday)
    ensures forall j :: 0 <= j < |settings| && RowMatches(settings[j], weekday) ==> j in ix
    ensures forall n, m :: 0 <= n < m < |ix| ==> ix[n] < ix[m]
    decreases |settings|
  {
    if |settings| == 0 then []
    else
      var rest := MatchingIndices(settings[..|settings| - 1], weekday);
      if RowMatches(settings[|settings| - 1], weekday) then rest + [|settings| - 1] else rest
  }

  /** One matching index means a unique match; two or more mean none is unique. */
  lemma MatchingIndicesUnique(settings: seq<AvailabilitySetting>, weekday: int)
    ensures var ix := MatchingIndices(settings, weekday);
      (|ix| == 1 ==> UniqueMatchAt(settings, weekday, ix[0]))
      && (|ix| != 1 ==> forall i :: !UniqueMatchAt(settings, weekday, i))
  {
    var ix := MatchingIndices(settings, weekday);
    if |ix| >= 2 {
      assert ix[0] < ix[1];
      assert RowMatches(settings[ix[0]], weekday) && RowMatches(settings[ix[1]], weekday);
    }
  }

  /** `.single()`: the row when exactly one row matches, otherwise no data. */
  function ActiveSetting(settings: seq<AvailabilitySetting>, weekday: int): (r: Option<AvailabilitySetting>)
    ensures r.Some? <==> exists i :: UniqueMatchAt(settings, weekday, i)
    ensures forall i :: UniqueMatchAt(settings, weekday, i) ==> r == Some(settings[i])
  {
    var ix := MatchingIndices(settings, weekday);
    MatchingIndicesUnique(settings, weekday);
    if |ix| == 1 then Some(settings[ix[0]]) else None
  }

  /** The window of `day` described by a settings row. */
  function WindowOf(day: int, row: AvailabilitySetting): Window {
    Window(DayStart(day) + row.startTime, DayStart(day) + row.endTime)
  }

  // ---------------------------------------------------------------------------------
  // The candidate grid

  /** The `k`-th candidate start: the cursor after `k` advances by `duration + buffer`. */
  function GridPoint(w: Window, c: SchedulingConfig, k: int): int
    requires c.Valid()
  {
    w.open + k * c.Step()
  }

  ghost predicate OnGrid(w: Window, c: SchedulingConfig, s: int)
    requires c.Valid()
  {
    exists k: nat :: s == GridPoint(w, c, k)
  }

  /** A slot starting at `s` ends no later than the window closes. */
  predicate Fits(w: Window, c: SchedulingConfig, s: int) {
    s + c.duration <= w.close
  }

  /** Number of grid points whose slot fits in the window. */
  function GridCount(w: Window, c: SchedulingConfig): nat
    requires c.Valid()
  {
    if w.close - w.open < c.duration then 0
    else (w.close - w.open - c.duration) / c.Step() + 1
  }

  lemma MulMonotone(a: int, b: int, m: int)
    requires a <= b && m >= 0
    ensures a * m <= b * m
  {
    assert b * m - a * m == (b - a) * m;
  }

  /** `GridCount` is exactly the number of grid points that fit: point `k` fits iff `k < GridCount`. */
  lemma GridCountExact(w: Window, c: SchedulingConfig, k: nat)
    requires c.Valid()
    ensures k < GridCount(w, c) <==> Fits(w, c, GridPoint(w, c, k))
  {
    var st := c.Step();
    var len := w.close - w.open - c.duration;
    MulMonotone(0, k, st);
    if len >= 0 {
      var q := len / st;
      assert q * st <= len < (q + 1) * st;
      if k <= q {
        MulMonotone(k, q, st);
      } else {
        MulMonotone(q + 1, k, st);
      }
    }
  }

  /** Consecutive grid points are `Step()` apart, so later points lie at least a step later. */
  lemma GridPointsSpaced(w: Window, c: SchedulingConfig, i: int, j: int)
    requires c.Valid() && i < j
    ensures GridPoint(w, c, i) + c.Step() <= GridPoint(w, c, j)
  {
    MulMonotone(i + 1, j, c.Step());
  }

  /** The grid points whose slot fits, in cursor order. */
  function Candidates(w: Window, c: SchedulingConfig): seq<int>
    requires c.Valid()
  {
    seq(GridCount(w, c), (k: int) requires c.Valid() => GridPoint(w, c, k))
  }

  // ---------------------------------------------------------------------------------
  // Filtering the grid

  /** A start is offered when it is not in the past and its slot overlaps no busy interval. */
  predicate Free(busy: seq<Interval>, c: SchedulingConfig, now: int, s: int) {
    now <= s && !Conflicts(Interval(s, s + c.duration), busy)
  }

  /** The candidates that are free, in their original order. */
  function KeepFree(cands: seq<int>, busy: seq<Interval>, c: SchedulingConfig, now: int): (r: seq<int>)
    ensures forall x :: x in r <==> x in cands && Free(busy, c, now, x)
    ensures |r| <= |cands|
    decreases |cands|
  {
    if |cands| == 0 then []
    else
      var rest := KeepFree(cands[..|cands| - 1], busy, c, now);
      var x := cands[|cands| - 1];
      assert cands == cands[..|cands| - 1] + [x];
      if Free(busy, c, now, x) then rest + [x] else rest
  }

  /** The starts the engine offers in window `w`. */
  function OfferableStarts(w: Window, busy: seq<Interval>, c: SchedulingConfig, now: int): seq<int>
    requires c.Valid()
  {
    KeepFree(Candidates(w, c), busy, c, now)
  }

  function Labels(starts: seq<int>): seq<string> {
    seq(|starts|, i requires 0 <= i < |starts| => Label(starts[i]))
  }

  /** What `getAvailableSlots` returns, stated without its loop. */
  function AvailableSlots(
    configured: bool, settings: seq<AvailabilitySetting>, day: int,
    busy: seq<Interval>, c: SchedulingConfig, now: int): Result<seq<string>, SlotError>
    requires c.Valid()
  {
    if !configured then Failure(ConfigurationError)
    else match ActiveSetting(settings, Weekday(day))
      case None => Failure(NoAvailability)
      case Some(row) => Success(Labels(OfferableStarts(WindowOf(day, row), busy, c, now)))
  }

  // ---------------------------------------------------------------------------------
  // Properties of the offered starts

  /** Later elements lie at least `d` after earlier ones. */
  predicate SpacedBy(s: seq<int>, d: int) {
    forall i, j :: 0 <= i < j < |s| ==> s[i] + d <= s[j]
  }

  lemma {:induction false} KeepFreeSpaced(cands: seq<int>, busy: seq<Interval>, c: SchedulingConfig, now: int, d: int)
    requires SpacedBy(cands, d)
    ensures SpacedBy(KeepFree(cands, busy, c, now), d)
    decreases |cands|
  {
    if |cands| > 0 {
      var init := cands[..|cands| - 1];
      var x := cands[|cands| - 1];
      assert SpacedBy(init, d);
      KeepFreeSpaced(init, busy, c, now, d);
      var rest := KeepFree(init, busy, c, now);
      forall y | y in rest
        ensures y + d <= x
      {
        var i :| 0 <= i < |init| && init[i] == y;
        assert cands[i] == y;
      }
      var r := KeepFree(cands, busy, c, now);
      if Free(busy, c, now, x) {
        assert r == rest + [x];
        forall i, j | 0 <= i < j < |r|
          ensures r[i] + d <= r[j]
        {
          assert r[i] == rest[i] && rest[i] in rest;
          if j < |rest| {
            assert r[j] == rest[j];
          }
        }
      } else {
        assert r == rest;
      }
    }
  }

  lemma CandidatesSpaced(w: Window, c: SchedulingConfig)
    requires c.Valid()
    ensures SpacedBy(Candidates(w, c), c.Step())
  {
    forall i, j | 0 <= i < j < GridCount(w, c)
      ensures GridPoint(w, c, i) + c.Step() <= GridPoint(w, c, j)
    {
      GridPointsSpaced(w, c, i, j);
    }
  }

  /** Soundness and completeness: a start is offered exactly when it is a grid point, its
      slot ends by closing time, it is not in the past and it overlaps no busy interval. */
  lemma OfferableStartsExactly(w: Window, busy: seq<Interval>, c: SchedulingConfig, now: int, s: int)
    requires c.Valid()
    ensures s in OfferableStarts(w, busy, c, now)
        <==> OnGrid(w, c, s) && Fits(w, c, s) && now <= s
             && !Conflicts(Interval(s, s + c.duration), busy)
  {
    var cands := Candidates(w, c);
    if s in cands {
      var k :| 0 <= k < |cands| && cands[k] == s;
      GridCountExact(w, c, k);
    }
    if OnGrid(w, c, s) && Fits(w, c, s) {
      var k: nat :| s == GridPoint(w, c, k);
      GridCountExact(w, c, k);
      assert cands[k] == s;
    }
  }

  /** Offered starts are in increasing order, each at least `duration + buffer` after the
      previous one, and every offered slot lies inside the window. */
  lemma OfferableStartsOrdered(w: Window, busy: seq<Interval>, c: SchedulingConfig, now: int)
    requires c.Valid()
    ensures var r := OfferableStarts(w, busy, c, now);
      SpacedBy(r, c.Step())
      && forall i :: 0 <= i < |r| ==> w.open <= r[i] && r[i] + c.duration <= w.close
  {
    CandidatesSpaced(w, c);
    KeepFreeSpaced(Candidates(w, c), busy, c, now, c.Step());
    var r := OfferableStarts(w, busy, c, now);
    forall i | 0 <= i < |r|
      ensures w.open <= r[i] && r[i] + c.duration <= w.close
    {
      OfferableStartsExactly(w, busy, c, now, r[i]);
      var k: nat :| r[i] == GridPoint(w, c, k);
      MulMonotone(0, k, c.Step());
    }
  }

  /** No two slots of one listing overlap, and no listed slot overlaps a busy interval. */
  lemma OfferedSlotsDisjoint(w: Window, busy: seq<Interval>, c: SchedulingConfig, now: int)
    requires c.Valid()
    ensures var r := OfferableStarts(w, busy, c, now);
      && (forall i, j :: 0 <= i < |r| && 0 <= j < |r| && i != j ==>
            !Overlaps(Interval(r[i], r[i] + c.duration), Interval(r[j], r[j] + c.duration)))
      && (forall i, b :: 0 <= i < |r| && 0 <= b < |busy| ==>
            !Overlaps(Interval(r[i], r[i] + c.duration), busy[b]))
  {
    OfferableStartsOrdered(w, busy, c, now);
    var r := OfferableStarts(w, busy, c, now);
    forall i, b | 0 <= i < |r| && 0 <= b < |busy|
      ensures !Overlaps(Interval(r[i], r[i] + c.duration), busy[b])
    {
      assert r[i] in r;
    }
  }

  /** With nothing booked and the whole window still ahead, every fitting grid point is
      offered: the listing has exactly `GridCount` entries. */
  lemma EmptyDayOffersWholeGrid(w: Window, c: SchedulingConfig, now: int)
    requires c.Valid() && now <= w.open
    ensures OfferableStarts(w, [], c, now) == Candidates(w, c)
    ensures |OfferableStarts(w, [], c, now)| == GridCount(w, c)
  {
    KeepFreeAll(Candidates(w, c), c, now);
  }

  lemma {:induction false} KeepFreeAll(cands: seq<int>, c: SchedulingConfig, now: int)
    requires forall i :: 0 <= i < |cands| ==> now <= cands[i]
    ensures KeepFree(cands, [], c, now) == cands
    decreases |cands|
  {
    if |cands| > 0 {
      var init := cands[..|cands| - 1];
      KeepFreeAll(init, c, now);
      assert cands == init + [cands[|cands| - 1]];
    }
  }

  /** Half-open boundaries: adding a busy interval that only touches the slot at `s` (it
      ends exactly at `s` or starts exactly at `s + duration`) does not withdraw `s`. */
  lemma TouchingBookingDoesNotBlock(w: Window, busy: seq<Interval>, c: SchedulingConfig, now: int, s: int, b: Interval)
    requires c.Valid()
    requires b.end == s || b.start == s + c.duration
    ensures s in OfferableStarts(w, busy + [b], c, now) <==> s in OfferableStarts(w, busy, c, now)
  {
    OfferableStartsExactly(w, busy, c, now, s);
    OfferableStartsExactly(w, busy + [b], c, now, s);
    var slot := Interval(s, s + c.duration);
    assert !Overlaps(slot, b);
    if Conflicts(slot, busy) {
      var i :| 0 <= i < |busy| && Overlaps(slot, busy[i]);
      assert (busy + [b])[i] == busy[i];
    }
    if Conflicts(slot, busy + [b]) {
      var i :| 0 <= i < |busy + [b]| && Overlaps(slot, (busy + [b])[i]);
      assert i < |busy| && busy[i] == (busy + [b])[i];
    }
  }

  /** The error results of `getAvailableSlots`: a configuration error exactly when the
      store is not configured, "No availability" exactly when the weekday does not have
      exactly one active settings row; otherwise the listing of that row's window. */
  lemma AvailableSlotsOutcomes(
    configured: bool, settings: seq<AvailabilitySetting>, day: int,
    busy: seq<Interval>, c: SchedulingConfig, now: int)
    requires c.Valid()
    ensures var r := AvailableSlots(configured, settings, day, busy, c, now);
      && (r == Failure(ConfigurationError) <==> !configured)
      && (r == Failure(NoAvailability) <==>
            configured && forall i :: !UniqueMatchAt(settings, Weekday(day), i))
      && (r.Failure? ==> SlotErrorText(r.error) == if configured then "No availability for this day"
                                                   else "Configuration Error: Missing Supabase keys")
      && (r.Success? ==>
            exists i :: UniqueMatchAt(settings, Weekday(day), i) &&
              r.value == Labels(OfferableStarts(WindowOf(day, settings[i]), busy, c, now)))
  {
  }

  // ---------------------------------------------------------------------------------
  // The loop

  /** Advancing the cursor by one step moves to the next grid point. */
  lemma GridPointNext(w: Window, c: SchedulingConfig, k: int)
    requires c.Valid()
    ensures GridPoint(w, c, k + 1) == GridPoint(w, c, k) + c.duration + c.buffer
  {
  }

  /** Examining candidate `k` appends its label exactly when it is free. */
  lemma LabelsStep(w: Window, busy: seq<Interval>, c: SchedulingConfig, now: int, k: nat)
    requires c.Valid() && k < GridCount(w, c)
    ensures var cands := Candidates(w, c); var x := GridPoint(w, c, k);
      Labels(KeepFree(cands[..k + 1], busy, c, now))
      == Labels(KeepFree(cands[..k], busy, c, now)) + (if Free(busy, c, now, x) then [Label(x)] else [])
  {
    var cands := Candidates(w, c);
    var pre := cands[..k + 1];
    assert pre[..|pre| - 1] == cands[..k];
    assert pre[|pre| - 1] == GridPoint(w, c, k);
    var before := KeepFree(cands[..k], busy, c, now);
    if Free(busy, c, now, GridPoint(w, c, k)) {
      assert Labels(before + [GridPoint(w, c, k)]) == Labels(before) + [Label(GridPoint(w, c, k))];
    }
  }

  /** `getAvailableSlots(dateStr)` for the local day `day`, with the store's answers
      (`configured`, the settings table, the day's busy intervals) and the clock (`now`)
      passed in. */
  method GetAvailableSlots(
    configured: bool, settings: seq<AvailabilitySetting>, day: int,
    busy: seq<Interval>, c: SchedulingConfig, now: int)
    returns (r: Result<seq<string>, SlotError>)
    requires c.Valid()
    ensures r == AvailableSlots(configured, settings, day, busy, c, now)
  {
    if !configured {
      return Failure(ConfigurationError);
    }
    var row := ActiveSetting(settings, Weekday(day));
    if row.None? {
      return Failure(NoAvailability);
    }
    var w := WindowOf(day, row.value);
    var slots: seq<string> := [];
    var cursor := w.open;
    ghost var k: nat := 0;
    while cursor < w.close
      invariant k <= GridCount(w, c)
      invariant cursor == GridPoint(w, c, k)
      invariant slots == Labels(KeepFree(Candidates(w, c)[..k], busy, c, now))
      decreases w.close - cursor
    {
      var slotEnd := cursor + c.duration;
      if slotEnd > w.close {
        break;
      }
      GridCountExact(w, c, k);
      LabelsStep(w, busy, c, now, k);
      GridPointNext(w, c, k);
      if cursor < now {
        cursor := slotEnd + c.buffer;
        k := k + 1;
        continue;
      }
      var isBusy := Conflicts(Interval(cursor, slotEnd), busy);
      if !isBusy {
        slots := slots + [Label(cursor)];
      }
      cursor := slotEnd + c.buffer;
      k := k + 1;
    }
    GridCountExact(w, c, k);
    assert Candidates(w, c)[..k] == Candidates(w, c);
    r := Success(slots);
  }
}
