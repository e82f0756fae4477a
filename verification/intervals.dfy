/** Half-open time intervals `[start, end)` in minutes and the overlap test shared by
    slot listing and booking. */
module Intervals {

  datatype Interval = Interval(start: int, end: int)

  /** The one overlap rule of the system: `a` starts before `b` ends and `b` starts before `a` ends. */
  predicate Overlaps(a: Interval, b: Interval) {
    a.start < b.end && b.start < a.end
  }

  /** `slot` overlaps some interval of `busy` (the `some` over the busy rows). */
  predicate Conflicts(slot: Interval, busy: seq<Interval>) {
    exists i :: 0 <= i < |busy| && Overlaps(slot, busy[i])
  }

  lemma OverlapsSymmetric(a: Interval, b: Interval)
    ensures Overlaps(a, b) <==> Overlaps(b, a)
  {
  }

  /** Intervals that only touch at an end point do not overlap; a non-empty interval overlaps itself. */
  lemma TouchingIntervalsDoNotOverlap(a: Interval, b: Interval)
    ensures a.end == b.start ==> !Overlaps(a, b)
    ensures b.end == a.start ==> !Overlaps(a, b)
    ensures a.start < a.end ==> Overlaps(a, a)
  {
  }
}
