/** The process-wide scheduling constants of lib/booking-utils.ts, as an explicit value. */
module BookingConfig {

  /** Meeting length and the gap left after each meeting, both in minutes. */
  datatype SchedulingConfig = SchedulingConfig(duration: int, buffer: int) {

    /** A configuration the slot loop can run on: every step moves the cursor forward. */
    predicate Valid() {
      duration > 0 && buffer >= 0
    }

    /** Distance between two consecutive candidate slot starts. */
    function Step(): (s: int)
      requires Valid()
      ensures s >= duration > 0
    {
      duration + buffer
    }
  }

  /** The shipped constants: 30-minute meetings, no buffer. */
  const Default: SchedulingConfig := SchedulingConfig(30, 0)

  lemma DefaultIsValid()
    ensures Default.Valid() && Default.Step() == 30
  {
  }
}
