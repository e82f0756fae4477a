/** Worked listings for a 09:00-12:00 Thursday window with the shipped 30-minute meetings. */
module SlotExamples {
  import opened Wrappers
  import opened BookingConfig
  import opened Intervals
  import opened Clock
  import opened Slots

  /** Thursday 1970-01-01 (day 0), open 09:00 to 12:00. */
  const Thursday: seq<AvailabilitySetting> := [AvailabilitySetting(4, true, 540, 720)]

  const Morning: Window := Window(540, 720)

  lemma MorningGrid()
    ensures Default.Valid()
    ensures Candidates(Morning, Default) == [540, 570, 600, 630, 660, 690]
  {
    DefaultIsValid();
    assert GridCount(Morning, Default) == 6;
  }

  /** Nothing booked, asked before opening: six slots, 09:00 to 11:30; 11:30 ends exactly at
      closing time and 12:00 would overrun it. */
  lemma ExampleEmptyMorning()
    ensures AvailableSlots(true, Thursday, 0, [], Default, 0)
         == Success(["09:00", "09:30", "10:00", "10:30", "11:00", "11:30"])
  {
    DefaultIsValid();
    MorningGrid();
    assert WindowOf(0, Thursday[0]) == Morning;
    assert UniqueMatchAt(Thursday, Weekday(0), 0);
    EmptyDayOffersWholeGrid(Morning, Default, 0);
    MorningLabels();
  }

  lemma MorningLabelsBeforeTen()
    ensures Label(540) == "09:00" && Label(570) == "09:30"
  {
    assert Pad2(9) == "09" && Pad2(0) == "00" && Pad2(30) == "30";
  }

  lemma MorningLabelsFromTen()
    ensures Label(600) == "10:00" && Label(630) == "10:30"
  {
    assert Pad2(10) == "10" && Pad2(0) == "00" && Pad2(30) == "30";
  }

  lemma MorningLabelsFromEleven()
    ensures Label(660) == "11:00" && Label(690) == "11:30"
  {
    assert Pad2(11) == "11" && Pad2(0) == "00" && Pad2(30) == "30";
  }

  lemma MorningLabels()
    ensures Labels([540, 570, 600, 630, 660, 690])
         == ["09:00", "09:30", "10:00", "10:30", "11:00", "11:30"]
  {
    MorningLabelsBeforeTen();
    MorningLabelsFromTen();
    MorningLabelsFromEleven();
    var l := Labels([540, 570, 600, 630, 660, 690]);
    assert |l| == 6;
    assert l[0] == Label(540) && l[1] == Label(570) && l[2] == Label(600);
    assert l[3] == Label(630) && l[4] == Label(660) && l[5] == Label(690);
  }

  const Grid: seq<int> := [540, 570, 600, 630, 660, 690]

  lemma BookedAtTenFirstHalf(busy: seq<Interval>)
    requires busy == [Interval(600, 630)]
    ensures KeepFree(Grid[..3], busy, Default, 0) == [540, 570]
  {
    assert !Free(busy, Default, 0, 600) by {
      assert Overlaps(Interval(600, 630), busy[0]);
    }
    assert Free(busy, Default, 0, 540) && Free(busy, Default, 0, 570);
    assert [540][..0] == [];
    assert KeepFree([540], busy, Default, 0) == [540];
    assert [540, 570][..1] == [540];
    assert KeepFree([540, 570], busy, Default, 0) == [540, 570];
    assert Grid[..3][..2] == [540, 570];
  }

  lemma BookedAtTenSecondHalf(busy: seq<Interval>)
    requires busy == [Interval(600, 630)]
    ensures KeepFree(Grid, busy, Default, 0) == [540, 570, 630, 660, 690]
  {
    BookedAtTenFirstHalf(busy);
    assert Free(busy, Default, 0, 630) && Free(busy, Default, 0, 660) && Free(busy, Default, 0, 690);
    assert Grid[..4][..3] == Grid[..3];
    assert KeepFree(Grid[..4], busy, Default, 0) == [540, 570, 630];
    assert Grid[..5][..4] == Grid[..4];
    assert KeepFree(Grid[..5], busy, Default, 0) == [540, 570, 630, 660];
  }

  /** A booking 10:00-10:30 removes exactly 10:00; 09:30 (ending when it starts) and 10:30
      (starting when it ends) stay. */
  lemma ExampleBookedAtTen()
    ensures OfferableStarts(Morning, [Interval(600, 630)], Default, 0) == [540, 570, 630, 660, 690]
  {
    MorningGrid();
    BookedAtTenSecondHalf([Interval(600, 630)]);
  }

  lemma QuarterToTenFirstHalf()
    ensures KeepFree(Grid[..3], [], Default, 585) == [600]
  {
    assert !Free([], Default, 585, 540) && !Free([], Default, 585, 570);
    assert Free([], Default, 585, 600);
    assert [540][..0] == [];
    assert KeepFree([540], [], Default, 585) == [];
    assert [540, 570][..1] == [540];
    assert KeepFree([540, 570], [], Default, 585) == [];
    assert Grid[..3][..2] == [540, 570];
  }

  lemma QuarterToTenSecondHalf()
    ensures KeepFree(Grid, [], Default, 585) == [600, 630, 660, 690]
  {
    QuarterToTenFirstHalf();
    assert Free([], Default, 585, 630) && Free([], Default, 585, 660) && Free([], Default, 585, 690);
    assert Grid[..4][..3] == Grid[..3];
    assert KeepFree(Grid[..4], [], Default, 585) == [600, 630];
    assert Grid[..5][..4] == Grid[..4];
    assert KeepFree(Grid[..5], [], Default, 585) == [600, 630, 660];
  }

  /** Asked at 09:45: the two morning slots already begun are gone, the listing starts at 10:00. */
  lemma ExampleAskedAtQuarterToTen()
    ensures OfferableStarts(Morning, [], Default, 585) == [600, 630, 660, 690]
  {
    MorningGrid();
    QuarterToTenSecondHalf();
  }
}
