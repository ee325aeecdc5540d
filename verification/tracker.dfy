/** The command-line tracker: the same streak scan with the length fixed at
    three days, a city reported only when the criterion holds, and the rules
    for the Match and temperature columns of its table. */
module Tracker {
  import opened Wrappers
  import opened Rounding
  import opened Numerals
  import opened Streak
  import opened Upstream
  import opened Outcomes
  import WeatherService

  /** The tracker always looks for three consecutive days. */
  const StreakDays: int := 3

  /** The degree sign and unit the table appends to a temperature. */
  const DegreesF: string := "\U{00B0}F"

  /** A forecast day as the tracker keeps it: raw, unrounded temperatures. */
  datatype RawDay = RawDay(date: string, day: string, high: Option<real>, low: Option<real>)

  /** A qualifying city: resolved name and full forecast. */
  datatype Report = Report(name: string, forecast: seq<RawDay>)

  /** A whole run: the reports to print, or an uncaught exception. */
  datatype CliRun = Printed(reports: seq<Report>) | Aborted

  /** analyze_city of the tracker. The forecast is built, and can raise on a
      series too short for its dates, only when the criterion holds; a city
      that does not qualify is dropped silently. */
  function AnalyzeCity(city: string, threshold: int, env: Env): (r: Outcome<Report>)
    ensures GetCoordinates(env.geocode(city)).None? ==>
      r == Dropped("Skipping " + city + ": Could not resolve location.")
    ensures GetCoordinates(env.geocode(city)).Some? ==>
      var loc := GetCoordinates(env.geocode(city)).value;
      var daily := DailySeries(env.forecast(loc.latitude, loc.longitude));
      && (daily.None? ==> r == Dropped("Skipping " + city + ": Could not fetch weather data."))
      && (daily.Some? ==> (r.Dropped? <==> !HasHotRun(daily.value.maxTemps, threshold, 3)))
      && (daily.Some? ==> (r.Raised? <==> HasHotRun(daily.value.maxTemps, threshold, 3) && !CoversDates(daily.value)))
      && (r.Produced? ==>
            && daily.Some?
            && r.value.name == loc.name
            && |r.value.forecast| == |daily.value.dates|
            && forall i :: 0 <= i < |daily.value.dates| ==>
                 r.value.forecast[i] == RawDay(daily.value.dates[i], env.weekday(daily.value.dates[i]),
                                               daily.value.maxTemps[i], daily.value.minTemps[i]))
  {
    var loc := GetCoordinates(env.geocode(city));
    if loc.None? then Dropped("Skipping " + city + ": Could not resolve location.")
    else
      var daily := DailySeries(env.forecast(loc.value.latitude, loc.value.longitude));
      if daily.None? then Dropped("Skipping " + city + ": Could not fetch weather data.")
      else
        var s := daily.value;
        if !MeetsCriteria(s.maxTemps, threshold, StreakDays) then Dropped("")
        else if !CoversDates(s) then Raised
        else
          Produced(Report(loc.value.name, seq(|s.dates|, i requires 0 <= i < |s.dates| =>
            RawDay(s.dates[i], env.weekday(s.dates[i]), s.maxTemps[i], s.minTemps[i]))))
  }

  /** Each city's outcome, in command-line order. */
  function CityOutcomes(threshold: int, cities: seq<string>, env: Env): seq<Outcome<Report>> {
    EachCity(cities, city => AnalyzeCity(city, threshold, env))
  }

  /** The collection loop of main: every analysis that came back, in the order
      the cities were given. */
  method Run(threshold: int, cities: seq<string>, env: Env) returns (run: CliRun)
    ensures run.Aborted? <==> AnyRaised(CityOutcomes(threshold, cities, env))
    ensures run.Printed? ==> run.reports == Kept(CityOutcomes(threshold, cities, env))
    ensures run.Printed? ==> |run.reports| <= |cities|
  {
    var results, raised := Collect(cities, city => AnalyzeCity(city, threshold, env));
    run := if raised then Aborted else Printed(results);
  }

  /** A High or Low cell: "N/A" for a missing value, otherwise the rounded
      integer followed by the degree sign and F. */
  function RenderTemp(t: Option<real>): (s: string)
    ensures s == "N/A" <==> t.None?
    ensures t.Some? ==>
      && |s| > |DegreesF|
      && s[|s| - |DegreesF|..] == DegreesF
      && ParseDecimalInt(s[..|s| - |DegreesF|]).Some?
      && IsRoundedHalfEven(t.value, ParseDecimalInt(s[..|s| - |DegreesF|]).value)
    ensures t.Some? ==> exists m :: IsRoundedHalfEven(t.value, m) && s == IntToString(m) + DegreesF
  {
    if t.None? then "N/A"
    else
      var m := RoundHalfEven(t.value);
      var s := IntToString(m) + DegreesF;
      assert s[..|s| - |DegreesF|] == IntToString(m);
      IntToStringRoundTrip(m);
      s
  }

  /** The Match cell: a star exactly when the raw high is present and at or
      above the threshold, empty otherwise. */
  function MatchMarker(high: Option<real>, threshold: int): (m: string)
    ensures m == "*" <==> Hot(high, threshold)
    ensures m != "*" ==> m == ""
  {
    if high.Some? && high.value >= threshold as real then "*" else ""
  }

  /** The two front ends agree: a city the tracker reports is one the service
      finds meeting a three-day criterion, and row by row the tracker's star
      and N/A cells match the service's is_match flag and null high. */
  lemma AgreesWithService(city: string, threshold: int, env: Env)
    requires AnalyzeCity(city, threshold, env).Produced?
    ensures
      var report := AnalyzeCity(city, threshold, env).value;
      var api := WeatherService.AnalyzeCity(city, threshold, StreakDays, env);
      && api.Produced?
      && api.value.meetsCriteria
      && api.value.name == report.name
      && |api.value.forecast| == |report.forecast|
      && forall i :: 0 <= i < |report.forecast| ==>
           && (MatchMarker(report.forecast[i].high, threshold) == "*" <==> api.value.forecast[i].isMatch)
           && (RenderTemp(report.forecast[i].high) == "N/A" <==> api.value.forecast[i].high.None?)
           && (RenderTemp(report.forecast[i].low) == "N/A" <==> api.value.forecast[i].low.None?)
  {
  }
}
