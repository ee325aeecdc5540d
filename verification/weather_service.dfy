/** The HTTP service's per-city analysis: resolve the city, take its daily
    series, run the streak scan for a caller-chosen length, and annotate every
    forecast day. */
module WeatherService {
  import opened Wrappers
  import opened Rounding
  import opened Streak
  import opened Upstream
  import opened Outcomes

  /** One annotated forecast day: temperatures rounded for display, and
      whether the unrounded maximum meets the threshold. */
  datatype Day = Day(date: string, day: string, high: Option<int>, low: Option<int>, isMatch: bool)

  /** One city's result: resolved name, verdict and the full forecast. */
  datatype Analysis = Analysis(name: string, meetsCriteria: bool, forecast: seq<Day>)

  /** A displayed temperature: None stays None, a present value is rounded. */
  predicate RoundsTo(t: Option<real>, shown: Option<int>) {
    && (shown.None? <==> t.None?)
    && (shown.Some? && t.Some? ==> IsRoundedHalfEven(t.value, shown.value))
  }

  /** What a forecast entry must say about its day. */
  ghost predicate Describes(d: Day, date: string, weekday: string, maxTemp: Option<real>, minTemp: Option<real>, threshold: int) {
    && d.date == date
    && d.day == weekday
    && RoundsTo(maxTemp, d.high)
    && RoundsTo(minTemp, d.low)
    && (d.isMatch <==> Hot(maxTemp, threshold))
  }

  function RoundTemp(t: Option<real>): (r: Option<int>)
    ensures RoundsTo(t, r)
  {
    if t.None? then None else Some(RoundHalfEven(t.value))
  }

  /** One entry of the forecast list. The match flag compares the unrounded
      maximum, so a day displayed as the threshold may still not match. */
  function AnnotateDay(date: string, weekday: string -> string, maxTemp: Option<real>, minTemp: Option<real>, threshold: int): (d: Day)
    ensures Describes(d, date, weekday(date), maxTemp, minTemp, threshold)
  {
    Day(date, weekday(date), RoundTemp(maxTemp), RoundTemp(minTemp),
        if maxTemp.Some? then maxTemp.value >= threshold as real else false)
  }

  /** The analysis of one city's series. The verdict comes from the scan over
      all maxima; the forecast covers every date, whether or not the scan
      stopped early. */
  function Analyze(name: string, s: Series, threshold: int, k: int, weekday: string -> string): (a: Analysis)
    requires CoversDates(s)
    ensures a.name == name
    ensures a.meetsCriteria <==> HasHotRun(s.maxTemps, threshold, EffectiveLength(k))
    ensures |a.forecast| == |s.dates|
    ensures forall i :: 0 <= i < |s.dates| ==>
      Describes(a.forecast[i], s.dates[i], weekday(s.dates[i]), s.maxTemps[i], s.minTemps[i], threshold)
  {
    var forecast := seq(|s.dates|, i requires 0 <= i < |s.dates| =>
      AnnotateDay(s.dates[i], weekday, s.maxTemps[i], s.minTemps[i], threshold));
    Analysis(name, MeetsCriteria(s.maxTemps, threshold, k), forecast)
  }

  /** analyze_city of the service. An unresolvable city and a missing forecast
      each give the source's error message; a series too short for its dates
      raises; otherwise the analysis. */
  function AnalyzeCity(city: string, threshold: int, k: int, env: Env): (r: Outcome<Analysis>)
    ensures GetCoordinates(env.geocode(city)).None? ==>
      r == Dropped("Could not resolve location for " + city)
    ensures GetCoordinates(env.geocode(city)).Some? ==>
      var loc := GetCoordinates(env.geocode(city)).value;
      var daily := DailySeries(env.forecast(loc.latitude, loc.longitude));
      && (daily.None? ==> r == Dropped("Could not fetch weather data for " + city))
      && (daily.Some? ==> (r.Raised? <==> !CoversDates(daily.value)))
      && (daily.Some? && CoversDates(daily.value) ==> r.Produced?)
      && (r.Produced? ==>
            && daily.Some?
            && r.value.name == loc.name
            && (r.value.meetsCriteria <==> HasHotRun(daily.value.maxTemps, threshold, EffectiveLength(k)))
            && |r.value.forecast| == |daily.value.dates|
            && forall i :: 0 <= i < |daily.value.dates| ==>
                 Describes(r.value.forecast[i], daily.value.dates[i], env.weekday(daily.value.dates[i]),
                           daily.value.maxTemps[i], daily.value.minTemps[i], threshold))
  {
    var loc := GetCoordinates(env.geocode(city));
    if loc.None? then Dropped("Could not resolve location for " + city)
    else
      var daily := DailySeries(env.forecast(loc.value.latitude, loc.value.longitude));
      if daily.None? then Dropped("Could not fetch weather data for " + city)
      else if !CoversDates(daily.value) then Raised
      else Produced(Analyze(loc.value.name, daily.value, threshold, k, env.weekday))
  }

  /** The verdict reads only the maxima: minima and dates play no part. */
  lemma VerdictIgnoresMinima(name: string, s1: Series, s2: Series, threshold: int, k: int, weekday: string -> string)
    requires CoversDates(s1) && CoversDates(s2)
    requires s1.maxTemps == s2.maxTemps
    ensures Analyze(name, s1, threshold, k, weekday).meetsCriteria == Analyze(name, s2, threshold, k, weekday).meetsCriteria
  {
  }

  /** With a streak length of 1 (or less) the verdict is "some day is flagged
      as a match". */
  lemma SingleDayVerdict(name: string, s: Series, threshold: int, k: int, weekday: string -> string)
    requires CoversDates(s) && |s.maxTemps| == |s.dates|
    requires k <= 1
    ensures Analyze(name, s, threshold, k, weekday).meetsCriteria
        <==> exists i :: 0 <= i < |s.dates| && Analyze(name, s, threshold, k, weekday).forecast[i].isMatch
  {
    var a := Analyze(name, s, threshold, k, weekday);
    SingleDayRun(s.maxTemps, threshold);
    if a.meetsCriteria {
      var i :| 0 <= i < |s.maxTemps| && Hot(s.maxTemps[i], threshold);
      assert a.forecast[i].isMatch;
    }
    if exists i :: 0 <= i < |s.dates| && a.forecast[i].isMatch {
      var i :| 0 <= i < |s.dates| && a.forecast[i].isMatch;
      assert Hot(s.maxTemps[i], threshold);
    }
  }

  /** The match flag compares the unrounded value: a maximum of 94.6 is shown
      as 95 yet does not match a threshold of 95. */
  lemma ShownHighCanDifferFromMatch()
    ensures var d := AnnotateDay("2024-06-01", _ => "Sat", Some(94.6), None, 95);
            d.high == Some(95) && !d.isMatch
  {
    var d := AnnotateDay("2024-06-01", _ => "Sat", Some(94.6), None, 95);
    RoundingIsUnique(94.6, d.high.value, 95);
  }
}
