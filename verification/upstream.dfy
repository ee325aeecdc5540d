/** What the two upstream services hand back, as data: the geocoding search
    results and the daily forecast payload. The HTTP requests themselves are
    not modelled; an environment of functions stands in for them. */
module Upstream {
  import opened Wrappers

  /** One entry of the geocoding search's "results" list. A key missing from
      the entry reads as None, as dict.get does. */
  datatype Candidate = Candidate(
    name: string,
    latitude: real,
    longitude: real,
    admin1: Option<string>,
    countryCode: Option<string>)

  /** The resolved (latitude, longitude, name) triple. */
  datatype Location = Location(latitude: real, longitude: real, name: string)

  /** A geocoding reply: a transport, status or decoding failure, or a JSON
      body whose "results" key may be absent. */
  datatype GeoResponse = GeoFailure | GeoBody(results: Option<seq<Candidate>>)

  /** The "daily" object of a forecast reply: parallel lists of ISO dates,
      maxima and minima, any temperature of which may be null. */
  datatype Series = Series(dates: seq<string>, maxTemps: seq<Option<real>>, minTemps: seq<Option<real>>)

  /** A forecast reply: a failure, or a JSON body whose "daily" key may be absent. */
  datatype WeatherResponse = WeatherFailure | WeatherBody(daily: Option<Series>)

  /** The world outside the analysis: the geocoding search by name, the
      forecast request by coordinates, and the weekday abbreviation of an ISO
      date (strftime("%a")). */
  datatype Env = Env(
    geocode: string -> GeoResponse,
    forecast: (real, real) -> WeatherResponse,
    weekday: string -> string)

  /** The only candidates accepted: Florida, United States. */
  predicate InFlorida(c: Candidate) {
    c.admin1 == Some("Florida") && c.countryCode == Some("US")
  }

  /** Index of the first candidate at or after from that lies in Florida. */
  function FirstInFlorida(cs: seq<Candidate>, from: nat): (r: Option<nat>)
    requires from <= |cs|
    ensures r.Some? ==> from <= r.value < |cs| && InFlorida(cs[r.value])
    ensures r.Some? ==> forall j :: from <= j < r.value ==> !InFlorida(cs[j])
    ensures r.None? <==> forall j :: from <= j < |cs| ==> !InFlorida(cs[j])
    decreases |cs| - from
  {
    if from == |cs| then None
    else if InFlorida(cs[from]) then Some(from)
    else FirstInFlorida(cs, from + 1)
  }

  function LocationOf(c: Candidate): Location {
    Location(c.latitude, c.longitude, c.name)
  }

  /** get_coordinates without the HTTP call: the first Florida candidate in
      list order wins; a failed request, a body without "results" or a list
      without a Florida entry all give None (the source's (None, None, None)). */
  function GetCoordinates(resp: GeoResponse): (r: Option<Location>)
    ensures resp.GeoFailure? ==> r.None?
    ensures resp.GeoBody? && resp.results.None? ==> r.None?
    ensures resp.GeoBody? && resp.results.Some? ==>
      var cs := resp.results.value;
      && (r.None? <==> forall j :: 0 <= j < |cs| ==> !InFlorida(cs[j]))
      && (r.Some? ==> exists i :: 0 <= i < |cs| && InFlorida(cs[i]) && r.value == LocationOf(cs[i])
                                && forall j :: 0 <= j < i ==> !InFlorida(cs[j]))
  {
    match resp
    case GeoFailure => None
    case GeoBody(results) =>
      if results.None? then None
      else
        var first := FirstInFlorida(results.value, 0);
        if first.None? then None else Some(LocationOf(results.value[first.value]))
  }

  /** The daily series of a reply, or None when the reply failed or carries no
      "daily" key. */
  function DailySeries(resp: WeatherResponse): Option<Series> {
    if resp.WeatherBody? then resp.daily else None
  }

  /** The lists are long enough for every date to be indexed in both
      temperature lists; otherwise building the forecast raises IndexError. */
  predicate CoversDates(s: Series) {
    |s.dates| <= |s.maxTemps| && |s.dates| <= |s.minTemps|
  }
}
