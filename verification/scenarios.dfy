/**
 Worked examples: a weekly habit kept for 30 days, checked off and analysed.
 `start` is the instant of the habit's first midnight.
 */
module Scenarios {
  import opened Deadline
  import opened Generation
  import opened Resolution
  import opened Streaks
  import opened Rates

  /** A weekly habit over 30 days gets five deadlines, the last ending on day 35. */
  lemma WeeklyForThirtyDays(start: int)
    ensures Generate(start, 7, 30).Success?
    ensures var s := Generate(start, 7, 30).value;
            |s| == 5 && s[0].from == start && s[4].to == start + Days(35)
  {
    GeneratedIsStepped(start, 7, 30);
  }

  /** Day 9 at noon falls in the second week, which alone is checked off at that instant. */
  lemma CheckOffSecondWeek(start: int)
    ensures var s := Generate(start, 7, 30).value;
            var t := start + Days(9) + Seconds(12 * 3600);
            CheckOff(s, t) == Success(s[1 := Completed(s[1], t)])
  {
    var t := start + Days(9) + Seconds(12 * 3600);
    WeeklyForThirtyDays(start);
    ResolveInSchedule(start, 7, 30, t);
  }

  /** Day 60 is after the last deadline: the check-off is refused. */
  lemma CheckOffAfterSchedule(start: int)
    ensures CheckOff(Generate(start, 7, 30).value, start + Days(60)) == Failure(NoMatchingInterval)
  {
    WeeklyForThirtyDays(start);
    ResolveInSchedule(start, 7, 30, start + Days(60));
  }

  /** Midnight of day 7 ends the first week and begins the second; it checks off the first. */
  lemma CheckOffOnBoundary(start: int)
    ensures var s := Generate(start, 7, 30).value;
            var t := start + Days(7);
            CheckOff(s, t) == Success(s[0 := Completed(s[0], t)])
  {
    WeeklyForThirtyDays(start);
    ResolveInSchedule(start, 7, 30, start + Days(7));
  }

  /** Three tenths of a second after midnight of day 7 lies past the first week's
      end, so the second week is checked off. */
  lemma CheckOffJustAfterBoundary(start: int)
    ensures var s := Generate(start, 7, 30).value;
            var t := start + Days(7) + 300_000;
            CheckOff(s, t) == Success(s[1 := Completed(s[1], t)])
  {
    WeeklyForThirtyDays(start);
    ResolveInSchedule(start, 7, 30, start + Days(7) + 300_000);
  }

  function Mark(done: bool): Interval {
    Interval(0, 0, done, if done then Some(0) else None)
  }

  /** Checked off, checked off, missed, checked off, checked off: a streak of 2. */
  lemma StreakWithOneGap()
    ensures Streak([Mark(true), Mark(true), Mark(false), Mark(true), Mark(true)]) == 2
  {
    var s := [Mark(true), Mark(true), Mark(false), Mark(true), Mark(true)];
    assert s[..4] == [Mark(true), Mark(true), Mark(false), Mark(true)];
    assert s[..4][..3] == [Mark(true), Mark(true), Mark(false)];
    assert s[..4][..3][..2] == [Mark(true), Mark(true)];
    assert s[..4][..3][..2][..1] == [Mark(true)];
  }

  /** On day 14 the default 30-day window holds the first three weeks; with the
      second week checked off the rate is one third. */
  lemma RateOnDayFourteen(start: int)
    ensures CheckOff(Generate(start, 7, 30).value, start + Days(9) + Seconds(12 * 3600)).Success?
    ensures var t := start + Days(9) + Seconds(12 * 3600);
            var s := CheckOff(Generate(start, 7, 30).value, t).value;
            SuccessRate(s, None, start + Days(14)) == 1.0 / 3.0
  {
    var t := start + Days(9) + Seconds(12 * 3600);
    CheckOffSecondWeek(start);
    var g := Generate(start, 7, 30).value;
    var s := CheckOff(g, t).value;
    var lo := start + Days(14) - Days(30);
    var now := start + Days(14);
    GeneratedIsStepped(start, 7, 30);
    CheckOffKeepsSpans(g, t);
    assert s[2].from == start + Days(14);
    assert s[3].from == start + Days(21) && s[3].to == start + Days(28);
    assert s[4].from == start + Days(28);
    KeptFirstThree(s, lo, now);
    assert !s[0].checkedOff && s[1].checkedOff && !s[2].checkedOff;
    OneOfThree(s[0], s[1], s[2]);
  }

  lemma KeptFirstThree(s: seq<Interval>, lo: int, now: int)
    requires |s| == 5
    requires Touches(s[0], lo, now) && Touches(s[1], lo, now) && Touches(s[2], lo, now)
    requires !Touches(s[3], lo, now) && !Touches(s[4], lo, now)
    ensures Kept(s, lo, now) == [s[0], s[1], s[2]]
  {
    assert Kept(s[..1], lo, now) == [s[0]] by { assert s[..1][..0] == []; }
    assert Kept(s[..2], lo, now) == [s[0], s[1]] by { assert s[..2][..1] == s[..1]; }
    assert Kept(s[..3], lo, now) == [s[0], s[1], s[2]] by { assert s[..3][..2] == s[..2]; }
    assert Kept(s[..4], lo, now) == [s[0], s[1], s[2]] by { assert s[..4][..3] == s[..3]; }
  }

  lemma OneOfThree(a: Interval, b: Interval, c: Interval)
    requires !a.checkedOff && b.checkedOff && !c.checkedOff
    ensures CheckedCount([a, b, c]) == 1
  {
    assert CheckedCount([a]) == 0 by { assert [a][..0] == []; }
    assert CheckedCount([a, b]) == 1 by { assert [a, b][..1] == [a]; }
    assert [a, b, c][..2] == [a, b];
  }

  /** With a one-day window on day 3, the first week encloses the window without
      its start or end lying in it, so nothing is kept and the rate is 0 even
      though that week is checked off. */
  lemma EnclosedWindowRatesZero(start: int)
    ensures CheckOff(Generate(start, 7, 30).value, start + Days(1)).Success?
    ensures var s := CheckOff(Generate(start, 7, 30).value, start + Days(1)).value;
            s[0].checkedOff && SuccessRate(s, Some(1), start + Days(3)) == 0.0
  {
    var g := Generate(start, 7, 30).value;
    WeeklyForThirtyDays(start);
    ResolveInSchedule(start, 7, 30, start + Days(1));
    var s := CheckOff(g, start + Days(1)).value;
    assert |s| == 5;
    var lo := start + Days(3) - Days(1);
    forall i | 0 <= i < 5
      ensures !Touches(s[i], lo, start + Days(3))
    {
      assert s[i].from == start + i * Days(7);
    }
    assert Kept(s, lo, start + Days(3)) == [] by {
      KeptCounts(s, lo, start + Days(3));
      assert KeptPositions(s, lo, start + Days(3)) == {};
    }
  }
}
