# Appointment slots, booking and contact form — a Dafny model

This project models the two server actions of the site's booking page and its contact
form. It proves properties of the model in Dafny.

- **Slot listing** (`getAvailableSlots`). It looks up the active availability row for the
  weekday of the requested date. That row's opening hours are cut into candidate starts
  `open, open + (duration + buffer), …`. A start is dropped when its slot would run past
  closing time, when it lies before `now`, or when it overlaps a booked interval. The
  remaining starts are returned as `HH:mm` labels.
- **Booking** (`bookAppointment`). It checks the required form fields. It recomputes the end
  of the meeting on the server as `start + duration`. Its overlap query ends in `.single()`,
  so it refuses the request only when exactly one existing appointment overlaps it (see
  "## Findings"). Otherwise it inserts the appointment. The model's commit uses the
  corrected check and refuses whenever any appointment overlaps.
- **Contact form** (`submitContactForm`). It trims and truncates name, e-mail and message.
  It requires all three. It checks the e-mail against `/^[^\s@]+@[^\s@]+\.[^\s@]+$/`. It then
  records a lead with fixed defaults.

Representation:

- Times are whole minutes since a local-time epoch that starts at midnight. Day `d` begins
  at `d * 1440`, and its weekday is `(d + 4) % 7`, because 1970-01-01 was a Thursday.
- The listing's `now` is the current instant rounded UP to the next whole minute (09:00:30
  is 541, not 540). `new Date()` has millisecond precision, and every slot start is a whole
  minute, so `isBefore(currentTime, now)` then agrees with the model's `start < now`.
- Intervals are half-open `[start, end)`. One overlap rule, `Intervals.Overlaps`, serves
  both the listing and the booking pre-check.
- The data store is an immutable sequence of rows. The store client's answers are plain
  parameters: `configured` says whether a client could be created, and an `InsertReply`
  says what the insert answered. Each action is therefore a pure function from the old
  store to the result and the new store.
- The scheduling constants (`CONFIG`: 30-minute meetings, no buffer) are a
  `SchedulingConfig` value. Its `Valid()` predicate requires `duration > 0` and
  `buffer >= 0`.

Modules: `Wrappers`, `BookingConfig`, `Store`, `Intervals`, `Clock` (weekday and `HH:mm`
formatting/parsing), `Slots` (the listing), `SlotExamples`, `Booking` (the commit),
`BookingFlow` (listing and booking together), `Contact`, `ContactExamples`.

Behaviour of the code that the model keeps:

- The booking pre-check reads every appointment row, whatever its status column holds.
- `bookAppointment` passes name and e-mail to the insert as submitted, untrimmed and
  unchecked.
- An insert error from the store is returned with the store's own message as `error`.
- A day without exactly one active availability row is an error result ("No availability
  for this day").
- The loop runs while `cursor < close` and breaks once `cursor + duration > close`. Because
  `duration > 0`, this is the same as running while `cursor + duration <= close`; the
  verified loop of `Slots.GetAvailableSlots`, proved equal to the closed form that lists
  exactly the grid points `Slots.GridCountExact` counts, shows it.

## Model

| member | source | states |
|---|---|---|
| BookingConfig.DefaultIsValid | lib/booking-utils.ts:15-18 | the shipped configuration (30 minutes, no buffer) has a positive duration and a non-negative buffer, and a step of 30 minutes |
| Clock.Weekday | app/book/actions.ts:14-15 | the weekday lies in 0..6 and agrees with day 0 being a Thursday (4) modulo 7 |
| Clock.FormatHHmm | app/book/actions.ts:74 | a slot label is five characters: two digits, a colon, two digits |
| Clock.ParseHHmm | app/book/actions.ts:100 | only a text of the form `HH:mm` parses, and it parses to a minute of the day |
| Clock.ParseFormatRoundTrip | app/book/actions.ts:100 | parsing a printed `HH:mm` label gives back the minute of the day it was printed from |
| Clock.FormatParseRoundTrip | app/book/actions.ts:100 | every time text that parses is exactly the label of the minute it denotes, so two different labels never name the same minute |
| Clock.LabelWithinDay | app/book/actions.ts:74 | an instant of a given day is labelled with its offset from that day's midnight, and the label parses back to that offset |
| Intervals.OverlapsSymmetric | app/book/actions.ts:107-108 | the booking query's form of the overlap test (`start_time < end && end_time > start`) is the listing's test with the roles swapped |
| Intervals.TouchingIntervalsDoNotOverlap | app/book/actions.ts:70 | intervals that only meet at an end point do not overlap, and a non-empty interval overlaps itself |
| Intervals.Overlaps | app/book/actions.ts:70 | a slot overlaps a busy interval when it starts before the interval ends and ends after the interval starts (half-open intervals) |
| Intervals.Conflicts | app/book/actions.ts:65-71 | `busySlots?.some(...)`: a slot is busy when at least one busy interval overlaps it |
| Slots.MatchingIndices | app/book/actions.ts:18-22 | the query returns the indices of exactly the active rows for the weekday, in increasing table order |
| Slots.ActiveSetting | app/book/actions.ts:18-27 | `.single()` yields a row if and only if exactly one active row matches the weekday, and then it yields that row |
| Slots.WindowOf | app/book/actions.ts:48-49 | a settings row opens the day at its start time and closes it at its end time, both as offsets from that day's midnight |
| Slots.SlotErrorText | app/book/actions.ts:8-27 | the listing's two error texts: "Configuration Error: Missing Supabase keys" and "No availability for this day" |
| Slots.GridCountExact | app/book/actions.ts:53-56 | the `k`-th cursor position passes the loop guard and the closing-time break if and only if `k < GridCount` |
| Slots.KeepFree | app/book/actions.ts:59-75 | a start is kept if and only if it is a candidate, is not before `now` and overlaps no busy interval |
| Slots.KeepFreeSpaced | app/book/actions.ts:73-77 | filtering keeps the candidates' order and spacing |
| Slots.GetAvailableSlots | app/book/actions.ts:7-81 | the loop, with its `break` and `continue`, returns exactly the closed-form listing: the labels of the free grid points that fit, or the configuration or no-availability error |
| Slots.OfferableStartsExactly | app/book/actions.ts:53-78 | soundness and completeness: a start is listed if and only if it is `open + k*(duration+buffer)` for some `k >= 0`, ends by closing time, is not before `now` and overlaps no busy interval |
| Slots.OfferableStartsOrdered | app/book/actions.ts:48-77 | listed starts increase, are at least `duration + buffer` apart, and every listed slot lies inside the window |
| Slots.OfferedSlotsDisjoint | app/book/actions.ts:65-71 | no two listed slots overlap, and no listed slot overlaps a busy interval |
| Slots.EmptyDayOffersWholeGrid | app/book/actions.ts:53-78 | with nothing booked and `now` not after opening, every fitting grid point is listed, so there are exactly `GridCount` slots |
| Slots.TouchingBookingDoesNotBlock | app/book/actions.ts:65-71 | a booking that ends exactly at a slot's start or starts exactly at its end does not change whether that slot is listed |
| Slots.AvailableSlotsOutcomes | app/book/actions.ts:8-27 | the configuration error happens if and only if the store is unconfigured; "No availability" happens if and only if no single active row exists; each error carries the source's exact text; otherwise the result is the listing for that row's window |
| SlotExamples.ExampleEmptyMorning | app/book/actions.ts:53-78 | 09:00-12:00 with 30-minute slots and nothing booked lists exactly 09:00, 09:30, 10:00, 10:30, 11:00, 11:30 |
| SlotExamples.ExampleBookedAtTen | app/book/actions.ts:65-75 | a 10:00-10:30 booking removes exactly the 10:00 slot |
| SlotExamples.ExampleAskedAtQuarterToTen | app/book/actions.ts:59-62 | asked at 09:45, the listing starts at 10:00 |
| Booking.RequestedSpan | app/book/actions.ts:100-101 | the booked interval starts at the requested time of day on the requested day and lasts exactly the configured duration |
| Booking.RequiredPresent | app/book/actions.ts:95 | name, e-mail, date and time must each be submitted and non-empty; the message is optional |
| Booking.HasConflict | app/book/actions.ts:104-111 | the corrected pre-check: some stored appointment starts before the request ends and ends after it starts |
| Booking.ErrorText | app/book/actions.ts:84-126 | the returned `error` texts of the booking action, with the store's own message for a rejected insert, and no text for the two cases that throw |
| Booking.BookAppointment | app/book/actions.ts:83-132 | a configuration error happens if and only if the store is unconfigured; "Missing required fields" happens if and only if a required field is missing or empty; an unparsable time throws (`InvalidTimeValue`) and stores nothing; a rejected insert returns the store's message and a throwing insert gives `InsertThrew`; "Slot already taken" happens if and only if an overlapping appointment exists; success happens if and only if there is no overlap and the insert succeeds; every failure leaves the store unchanged; success appends exactly one appointment carrying the form's name, e-mail and message and the span `[start, start + duration)` |
| Booking.BookingKeepsNoDoubleBooking | app/book/actions.ts:104-121 | if no two stored appointments overlap before a booking, none overlap after it |
| Booking.RepeatedBookingIsRefused | app/book/actions.ts:104-113 | submitting the same booking again right after it succeeded is refused with the text "Slot already taken. Please choose another." and leaves the store unchanged |
| Booking.OverlappingRows | app/book/actions.ts:104-108 | the overlap query returns exactly the indices of the appointments overlapping the request, in increasing table order |
| Booking.OverlappingRowsUnique | app/book/actions.ts:104-111 | one overlapping index means exactly one appointment overlaps the request; any other count means no appointment is the unique overlap |
| Booking.SingleRowConflict | app/book/actions.ts:104-111 | the pre-check as written: data is returned if and only if exactly one appointment overlaps the request, and then it is that appointment; none or two or more give no data |
| Booking.SingleRowPreCheckAdmitsDoubleBooking | app/book/actions.ts:104-121 | two back-to-back bookings that both overlap a request make the as-written pre-check report no conflict, and the insert then double-books |
| BookingFlow.ListedLabelNamesListedStart | app/book/actions.ts:74 | a listed label parses back to a listed start of that day |
| BookingFlow.FreeStartHasNoConflict | app/book/actions.ts:104-108 | a start that the listing finds free also passes the booking pre-check against the same rows |
| BookingFlow.ListedSlotIsBookable | app/book/actions.ts:65-121 | booking a listed label for the same day against the same store succeeds and books exactly the listed slot |
| Contact.TrimStart | app/contact/actions.ts:24-26 | the result is a suffix of the input that starts with a non-white-space character, and only white space was removed |
| Contact.TrimEnd | app/contact/actions.ts:24-26 | the result is a prefix of the input that ends with a non-white-space character, and only white space was removed |
| Contact.Trim | app/contact/actions.ts:24-26 | the result is an infix of the input with only white space around it, and it neither starts nor ends with white space |
| Contact.IsJsWhitespace | app/contact/actions.ts:24-32 | the ECMAScript white-space and line-terminator characters that `trim()` strips and `\s` matches |
| Contact.TrimRemovesPadding | app/contact/actions.ts:24-26 | trimming a text padded with white space gives back exactly that text |
| Contact.TrimIdempotent | app/contact/actions.ts:24-26 | trimming twice is the same as trimming once |
| Contact.Truncate | app/contact/actions.ts:24-26 | `slice(0, n)` keeps the first `min(n, length)` characters |
| Contact.Sanitise | app/contact/actions.ts:24-26 | a sanitised field is a prefix of the trimmed input of length exactly `min(limit, trimmed length)`, so it equals the trimmed input when that fits and keeps the first `limit` characters otherwise; a missing field gives the empty text |
| Contact.MatchesEmailPattern | app/contact/actions.ts:32-33 | `/^[^\s@]+@[^\s@]+\.[^\s@]+$/.test(e)`: the address splits at an `@` and a later `.` into three non-empty runs without white space or `@` |
| Contact.PatternMatchIsWellFormed | app/contact/actions.ts:32-35 | every address the pattern accepts has no white space, exactly one `@` with text before it, and an inner `.` after it |
| Contact.WellFormedMatchesPattern | app/contact/actions.ts:32-35 | every such address is accepted by the pattern |
| Contact.EmailPatternCharacterised | app/contact/actions.ts:32-35 | the pattern accepts an address if and only if it has no white space, exactly one `@` with text before it, and a `.` after the `@` with text on both sides |
| Contact.StateOf | app/contact/actions.ts:17-58 | the returned state reports `success` if and only if the lead was recorded, and it carries an error text if and only if it does not report success |
| Contact.SubmitContactForm | app/contact/actions.ts:17-59 | a configuration error happens if and only if the store is unconfigured; a rejected insert of a valid submission gives `InsertFailed` with the store's message and a throwing insert gives the unexpected-error outcome; an empty sanitised field gives the required-fields error, before any e-mail check; a malformed e-mail gives the invalid-address error; success happens if and only if all checks pass and the insert succeeds, and then exactly one lead is appended with the sanitised fields and the defaults `other`, `unknown`, `flexible`, `new`; otherwise the leads are unchanged |
| ContactExamples.AcceptedAddresses | app/contact/actions.ts:32 | `ada@x.io` is accepted, and so is `a@b.c.` (a trailing dot is allowed) |
| ContactExamples.RejectedWithoutDomainDot | app/contact/actions.ts:32 | `ada@x` is rejected |
| ContactExamples.RejectedWithoutLocalPart | app/contact/actions.ts:32 | `@x.io` is rejected |
| ContactExamples.RejectedWithDotRightAfterAt | app/contact/actions.ts:32 | `a@.io` is rejected |
| ContactExamples.RejectedWithTwoAtSigns | app/contact/actions.ts:32 | `a@b@c.io` is rejected |
| ContactExamples.RejectedWithSpace | app/contact/actions.ts:32 | `a b@c.io` is rejected |
| ContactExamples.PaddedSubmissionIsStoredTrimmed | app/contact/actions.ts:24-45 | a padded name and address are accepted and stored without the padding |

## Findings

| source | as written | input that shows it | evidently intended | confidence | as-written member | corrected member |
|---|---|---|---|---|---|---|
| app/book/actions.ts:104-113 | the overlap query ends in `.single()`, which returns no data when two or more rows match, so `conflict` is null and the insert goes ahead | existing bookings 09:45-10:15 and 10:15-10:45 (they do not overlap each other); a request for 10:00 overlaps both | refuse whenever at least one overlapping appointment exists | medium: relies on `.single()` returning no data for several rows; not executed | Booking.SingleRowPreCheckAdmitsDoubleBooking | Booking.BookingKeepsNoDoubleBooking |

`Booking.BookAppointment` uses the corrected pre-check ("an overlapping appointment exists").
`Booking.SingleRowConflict` models the query as written.

## Left out

- Booking.BookAppointment: the pre-check is "an overlapping appointment exists", not the `.single()` behaviour of the source; the difference is the finding above.
- Rendering, layouts, navigation, the admin dashboard and its identity-provider gating: presentation only.
- Creating the store client and building queries. They are replaced by the `configured` flag, by sequences of rows and by `InsertReply`.
- `checkSystemHealth` (app/contact/actions.ts:12-15): it only reports whether a client could be created. That is the `configured` flag.
- Date parsing, time zones and daylight saving. The requested date is a local day number and every day has 1440 minutes. Invalid date strings, the mix of UTC and local time in `new Date(dateStr)`, and daylight-saving switch days (where `addMinutes` steps in elapsed minutes but `parse` and `format` use wall-clock time, so the labels differ) are not modelled.
- The day-range filter on busy rows (app/book/actions.ts:37-41). The listing receives the day's busy intervals already filtered.
- Sub-minute precision of the clock. The caller passes `now` already rounded up to the next whole minute, as the representation section says.
- Seconds in the availability times. Opening and closing times are whole minutes of the day.
- Clock.ParseHHmm: accepts only the two-digit `HH:mm` form that the listing prints; date-fns also accepts one-digit hours and minutes, and it accepts trailing white space after the minutes (so `"10:00 "` books 10:00 in the source, while the model reports `InvalidTimeValue`).
- Contact.Truncate: counts Unicode scalar values, not UTF-16 code units, so a slice through a surrogate pair is not modelled.
- Contact.Sanitise: reads a missing field as the empty text; the source gets `undefined`, which is equally falsy.
- The appointment id, creation time and status columns: the code does not set them; the pre-check selects `id` (app/book/actions.ts:106) but only tests whether a row came back.
- Concurrency between the pre-check and the insert. The commit is modelled as one sequential step. No store-side exclusion constraint is visible in the code.
- Failed reads. The source reads only `data` from its three queries and never looks at `error`. A failed settings read gives "No availability for this day" (app/book/actions.ts:18-27); a failed busy-row read leaves `busySlots` null, so every fitting slot that is not before `now` is listed (lines 37-41, 65-75); a failed pre-check read leaves `conflict` null, and the insert goes ahead (lines 104-115). The model's reads always return the true rows.
- A throwing `revalidatePath('/contact')` (app/contact/actions.ts:53). It runs inside the `try` after the insert, so a throw there returns "An unexpected error occurred." while the lead stays stored. The model treats it as never throwing.
- The confirmation e-mail log line: a console side effect only.
- Idempotence of the listing: the listing is a function of its inputs, so it needs no lemma.
