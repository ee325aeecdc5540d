/** Worked examples of the analysis on concrete forecasts. */
module Scenarios {
  import opened Wrappers
  import opened Streak
  import opened Upstream
  import opened WeatherService
  import Tracker
  import Rounding
  import Numerals

  /** Highs 95, 96, missing, 97, 98, 99 against 95: the three days after the
      gap qualify, but no five-day run survives the gap. */
  lemma GapResetsStreak()
    ensures var highs := [Some(95.0), Some(96.0), None, Some(97.0), Some(98.0), Some(99.0)];
      MeetsCriteria(highs, 95, 3) && !MeetsCriteria(highs, 95, 5)
  {
    var highs := [Some(95.0), Some(96.0), None, Some(97.0), Some(98.0), Some(99.0)];
    assert HotWindow(highs, 95, 3, 3);
    MissingDaySplitsRuns(highs[..2], highs[3..], 95, 5);
    assert highs == highs[..2] + [None] + highs[3..];
  }

  /** Highs 90..93 against 91 with a two-day streak: the first day is not a
      match, the other three are, and the criterion is met. */
  lemma FourDayExample()
    ensures
      var s := Series(["2024-06-01", "2024-06-02", "2024-06-03", "2024-06-04"],
                      [Some(90.0), Some(91.0), Some(92.0), Some(93.0)],
                      [Some(70.0), Some(71.0), Some(72.0), Some(73.0)]);
      var a := Analyze("Miami", s, 91, 2, d => "Sat");
      && a.meetsCriteria
      && |a.forecast| == 4
      && !a.forecast[0].isMatch && a.forecast[1].isMatch && a.forecast[2].isMatch && a.forecast[3].isMatch
      && a.forecast[1].high == Some(91)
  {
    var s := Series(["2024-06-01", "2024-06-02", "2024-06-03", "2024-06-04"],
                    [Some(90.0), Some(91.0), Some(92.0), Some(93.0)],
                    [Some(70.0), Some(71.0), Some(72.0), Some(73.0)]);
    assert HotWindow(s.maxTemps, 91, 1, 2);
    var a := Analyze("Miami", s, 91, 2, d => "Sat");
    Rounding.RoundingIsUnique(91.0, a.forecast[1].high.value, 91);
  }

  /** The tracker's temperature cells round half to even. */
  lemma TrackerRoundsHalfToEven()
    ensures Tracker.RenderTemp(Some(94.5)) == "94\U{00B0}F"
    ensures Tracker.RenderTemp(Some(95.5)) == "96\U{00B0}F"
    ensures Tracker.RenderTemp(None) == "N/A"
  {
    Rounding.RoundingIsUnique(94.5, Rounding.RoundHalfEven(94.5), 94);
    Rounding.RoundingIsUnique(95.5, Rounding.RoundHalfEven(95.5), 96);
    assert Numerals.IntToString(94) == "94";
    assert Numerals.IntToString(96) == "96";
  }
}
