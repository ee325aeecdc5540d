/** The POST /analyze endpoint: analyse every requested city in order and
    return the successful analyses, dropping the cities that failed. */
module Api {
  import opened WeatherService
  import opened Upstream
  import opened Outcomes

  /** The request body. */
  datatype AnalysisRequest = AnalysisRequest(threshold: int, cities: seq<string>, consecutiveDays: int)

  /** The response: {"results": [...]}, or a server error when an exception
      escapes a city's analysis (nothing catches it on the way out). */
  datatype Response = Results(results: seq<Analysis>) | InternalError

  /** Each requested city's outcome, in request order. */
  function CityOutcomes(req: AnalysisRequest, env: Env): seq<Outcome<Analysis>> {
    EachCity(req.cities, city => AnalyzeCity(city, req.threshold, req.consecutiveDays, env))
  }

  /** analyze_weather: loop over the cities, keep every result that is not an
      error, preserve request order. */
  method AnalyzeWeather(req: AnalysisRequest, env: Env) returns (resp: Response)
    ensures resp.InternalError? <==> AnyRaised(CityOutcomes(req, env))
    ensures resp.Results? ==> resp.results == Kept(CityOutcomes(req, env))
    ensures resp.Results? ==> |resp.results| <= |req.cities|
    ensures resp.Results? ==> forall a :: a in resp.results ==> Produced(a) in CityOutcomes(req, env)
    ensures req.cities == [] ==> resp == Results([])
  {
    var results, raised := Collect(req.cities, city => AnalyzeCity(city, req.threshold, req.consecutiveDays, env));
    resp := if raised then InternalError else Results(results);
  }
}
