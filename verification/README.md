# Florida weather tracker — a Dafny model of the streak analysis

The weather tracker looks up Florida cities and fetches a 14-day forecast of
daily maxima and minima for each. It then decides whether some run of
consecutive days has a maximum at or above a threshold. It has two front ends:

- a FastAPI service (`backend/`) with a configurable streak length, used by a
  browser page (`frontend/`);
- a command-line tool (`weather_tracker.py`) with the length fixed at three
  days.

This project models the parts of that system that are pure logic:

- **Streak scan** (`streak.dfy`, module `Streak`). A counter goes up on each
  day whose maximum is present and at least the threshold. It drops to zero
  on a missing or colder day. The scan stops once the counter reaches the
  streak length. The scan is written twice: as the source's loop with an
  early exit (`ScanForStreak`) and as a recursive function (`MeetsCriteria`).
  Both are proved equal to the declarative statement "some window of K
  contiguous days is hot throughout".
- **Annotated forecast** (`weather_service.dfy`). The service builds one
  entry for every date, rounds present temperatures with Python's
  half-to-even `round` (`rounding.dfy`), and flags a day as a match using the
  *unrounded* maximum.
- **Candidate selection** (`upstream.dfy`). Of the geocoding results, the
  first one whose `admin1` is Florida and whose `country_code` is US wins.
  The HTTP replies themselves are inputs. An `Env` value holds the geocoding
  search, the forecast request and the weekday-name function as parameters.
- **Aggregation** (`outcomes.dfy`, `api.dfy`, `tracker.dfy`). Per-city
  results are kept in request order and failed cities are dropped. An
  exception that escapes a city's analysis aborts the whole request or run.
- **Command-line cells** (`tracker.dfy`). A missing temperature renders as
  `N/A`; a present one renders as the rounded integer followed by `°F`. The
  Match column has a `*` exactly when the raw high meets the threshold.
- **Browser form and classes** (`frontend.dfy`). This covers JavaScript
  `split(',')`, `trim()` with the ECMAScript white-space set, and `parseInt`
  without a radix (including the `0x` prefix). It also covers the check that
  runs before a request is sent, and the `met`/`not-met` badge and `match`
  row classes.
- `scenarios.dfy` works through concrete forecasts.

Temperatures are `Option<real>`, so they are exact. A missing JSON value is
`None`. The threshold is an `int`.

## Behaviour worth noting

- The `is_match` flag compares the unrounded maximum with the threshold, not
  the rounded `high` shown next to it. A maximum of 94.6 is shown as 95 but
  does not match a threshold of 95 (`WeatherService.ShownHighCanDifferFromMatch`).
- A streak length below 1 is not rejected. The counter is compared only after
  an increment, so such a length behaves like 1: the verdict is "some day is
  hot". It does not become "always true" (`Streak.EffectiveLength`).
- The scan reads every maximum, but the forecast covers only
  `len(dates)` entries. If the temperature lists are shorter than the dates,
  `max_temps[i]` raises `IndexError`. In the service that always happens,
  because the forecast is always built; the exception escapes and the request
  fails. In the command-line tool it happens only for a city that qualifies
  (`Outcome.Raised`, `Api.Response.InternalError`, `Tracker.CliRun.Aborted`).
- Cities that fail lookup or fetch are dropped from the service's results.
  The service returns no placeholder for them.

## Model

| member | source | states |
|---|---|---|
| Streak.MeetsCriteria | backend/weather_service.py:55-66 | the verdict holds iff some window of max(k,1) contiguous maxima are all present and at least the threshold |
| Streak.ScanForStreak | backend/weather_service.py:56-66 | the counter loop with early exit returns true iff such a hot window exists, and agrees with MeetsCriteria |
| Streak.ScanFromCorrect | backend/weather_service.py:59-64 | from any point where the counter equals the trailing hot days and no run is complete yet, the rest of the scan finds a run iff one exists |
| Streak.TrailingHot | backend/weather_service.py:60-66 | the counter after n days never exceeds n |
| Streak.TrailingHotWindow | backend/weather_service.py:60-63 | the counter reaches len after day n iff the len days ending there are all hot |
| Streak.MissingDaySplitsRuns | backend/weather_service.py:60-66 | a missing maximum splits the sequence: a run exists iff one exists wholly before or wholly after the gap |
| Streak.MissingActsLikeCold | backend/weather_service.py:60-66 | replacing a day by None or by a below-threshold value gives the same verdict |
| Streak.SingleDayRun | backend/weather_service.py:59-64 | a run of length 1 exists iff some single maximum is present and at least the threshold |
| Streak.LongerRunContainsShorter | backend/weather_service.py:55-63 | "at least N days": a run of a given length implies every shorter run |
| Streak.LowerThresholdKeepsRun | backend/weather_service.py:60 | a run found at a threshold is still found at any lower threshold |
| Rounding.RoundHalfEven | backend/weather_service.py:75-76 | the displayed integer is within one half of the value, and on an exact tie it is the even neighbour |
| Rounding.RoundingIsUnique | backend/weather_service.py:75-76 | at most one integer meets that rounding rule |
| Upstream.FirstInFlorida | backend/weather_service.py:15-18 | returns the first index whose candidate has admin1 Florida and country code US, or none iff no candidate does |
| Upstream.GetCoordinates | backend/weather_service.py:10-22 | a failed request, a reply without results, or no Florida candidate gives None; otherwise the location of the first Florida candidate in list order |
| WeatherService.RoundTemp | backend/weather_service.py:75-76 | a missing temperature stays missing; a present one becomes its half-to-even rounding |
| WeatherService.AnnotateDay | backend/weather_service.py:72-78 | the entry keeps the date and weekday, rounds high and low with null kept as null, and is a match iff the unrounded maximum is present and at least the threshold |
| WeatherService.Analyze | backend/weather_service.py:55-84 | the verdict is the hot-run criterion over all maxima; the forecast has one entry per date, in order, each describing its own day, even when the scan stopped early |
| WeatherService.AnalyzeCity | backend/weather_service.py:38-84 | an unresolvable city and a missing forecast give the two error messages; a series shorter than its dates raises; a resolved city whose series covers its dates is always analysed, and the analysis carries the resolved name, the criterion verdict and one entry per date that describes that day |
| WeatherService.VerdictIgnoresMinima | backend/weather_service.py:59-64 | the verdict depends only on the maxima, not on minima or dates |
| WeatherService.SingleDayVerdict | backend/weather_service.py:59-77 | with a streak length of 1 or less the verdict is "some forecast day is a match" |
| WeatherService.ShownHighCanDifferFromMatch | backend/weather_service.py:75-77 | 94.6 is displayed as 95 yet is not a match at threshold 95 |
| Outcomes.Kept | backend/main.py:25-31 | at most one result per city, and every result is the product of some city's analysis |
| Outcomes.KeptComplete | backend/main.py:26-29 | every successful analysis is among the results |
| Outcomes.KeptAppend | backend/main.py:25-29 | results of consecutive city lists concatenate, so request order is kept |
| Outcomes.KeptSkipsDropped | backend/main.py:27-29 | a failed city leaves no placeholder: the others are kept as if it had not been requested |
| Outcomes.KeptStep | backend/main.py:26-29 | one more city appends its result exactly when it succeeded, and the run has raised iff it had before or this city raised |
| Outcomes.Collect | backend/main.py:25-31 | the loop stops with an exception iff some city's analysis raises; otherwise it returns the successful results in city order |
| Outcomes.KeptAllProduced | backend/main.py:26-29 | when every city succeeds the results are all analyses in request order |
| Api.AnalyzeWeather | backend/main.py:23-31 | the results are exactly the successful analyses in request order, never more than the cities requested, empty for an empty request, and the request fails iff some analysis raised |
| Tracker.AnalyzeCity | weather_tracker.py:43-90 | skip notices for unresolved city and missing data; a city is reported iff some 3 contiguous maxima are present and at least the threshold; a report copies raw high and low per date in order |
| Tracker.Run | weather_tracker.py:99-103 | the collected reports are exactly the non-None analyses in command-line order; an escaping exception aborts the run |
| Tracker.RenderTemp | weather_tracker.py:114-117 | "N/A" iff the value is missing; otherwise the canonical decimal text (no leading zero, minus sign only for negatives) of the value's half-to-even rounding, followed by °F, which reads back as that rounding |
| Tracker.MatchMarker | weather_tracker.py:118 | "*" iff the raw high is present and at least the threshold, "" otherwise |
| Tracker.AgreesWithService | weather_tracker.py:62-90 | a reported city meets the service's 3-day criterion, and its star and N/A cells agree row by row with the service's is_match and null temperatures |
| Numerals.DecimalDigits | weather_tracker.py:115 | the digits are decimal, without leading zeros, and their value is the number |
| Numerals.IntToString | weather_tracker.py:115 | a minus sign exactly for negatives, followed by the decimal digits of the magnitude |
| Numerals.IntToStringRoundTrip | weather_tracker.py:115 | the rendered integer reads back as itself |
| Numerals.DigitPrefixLength | frontend/src/main.js:8-9 | the longest prefix of digits of the radix: all digits, followed by a non-digit or the end |
| Frontend.Trim | frontend/src/main.js:11 | the result has no white space at either end and is the slice of the input between its leading and trailing white space |
| Frontend.TrimIdempotent | frontend/src/main.js:11 | trimming a trimmed string changes nothing |
| Frontend.Split | frontend/src/main.js:11 | at least one piece, no piece contains the separator, and joining the pieces with it gives back the input |
| Frontend.SplitJoin | frontend/src/main.js:11 | splitting the join of separator-free pieces gives those pieces back, so the split is unique |
| Frontend.PiecesAvoid | frontend/src/main.js:11 | pieces from two splits put side by side still contain no separator |
| Frontend.SplitAppend | frontend/src/main.js:11 | a separator in the input splits the pieces exactly there |
| Frontend.TrimmedNonEmpty | frontend/src/main.js:11 | no more pieces come out than went in, and every kept piece is non-empty with no white space at either end |
| Frontend.TrimmedNonEmptyContents | frontend/src/main.js:11 | a string is kept iff it is non-empty and is the trim of some input piece |
| Frontend.TrimmedNonEmptyAvoids | frontend/src/main.js:11 | trimming introduces no character: one absent from every piece is absent from every kept piece |
| Frontend.TrimmedNonEmptyAppend | frontend/src/main.js:11 | pieces are trimmed and filtered one by one, so the kept pieces of two lists concatenate in order |
| Frontend.ParseCities | frontend/src/main.js:11 | every parsed city is non-empty, has no white space at either end, and contains no comma |
| Frontend.ParseCitiesAppend | frontend/src/main.js:11 | the cities of "a,b" are those of a followed by those of b, so input order is kept |
| Frontend.ParseSingleCity | frontend/src/main.js:11 | a comma-free input gives its trimmed self, or nothing when it is blank |
| Frontend.ParseIntReadsRenderedInt | frontend/src/main.js:8-9 | parseInt reads a decimal integer back and stops at the first character that is neither letter nor digit |
| Frontend.ParseIntSkipsSpace | frontend/src/main.js:8-9 | leading white space does not change what parseInt reads |
| Frontend.ValidateForm | frontend/src/main.js:8-16 | a request exists iff both numbers parse and at least one city remains; it carries the parsed values and only non-empty trimmed cities |
| Frontend.CardReflectsSeries | frontend/src/main.js:55-79 | the badge is "met" iff the series has a hot run of the requested length, "not-met" otherwise; a row has the match class iff that day's unrounded maximum meets the threshold |
| Scenarios.GapResetsStreak | backend/weather_service.py:59-66 | highs 95, 96, None, 97, 98, 99 at 95 meet a 3-day streak but not a 5-day one |
| Scenarios.FourDayExample | backend/weather_service.py:55-84 | highs 90 to 93 at 91 with k 2: the first day is not a match, the others are, and the criterion is met |
| Scenarios.TrackerRoundsHalfToEven | weather_tracker.py:114-117 | 94.5 renders as 94°F, 95.5 as 96°F, and None as N/A |

## Left out

- HTTP: the requests to the geocoding and forecast services, their URLs, `raise_for_status`, and printing of caught exceptions. Replies are inputs (`GeoResponse`, `WeatherResponse`), and every failure is one `GeoFailure`/`WeatherFailure` case.
- FastAPI, CORS middleware, uvicorn start-up. Pydantic's rejection of non-integer request fields happens before the endpoint runs; the model starts from a well-typed `AnalysisRequest`.
- Missing keys in a geocoding entry. A Florida entry without `latitude`, `longitude` or `name` raises `KeyError` inside the `try` of `get_coordinates`. The handler catches it and returns `(None, None, None)`, so the city is dropped as unresolved. A Florida entry whose latitude is JSON null is also dropped as unresolved. The model's `Candidate` always carries numeric coordinates and a name, so it covers neither case.
- Missing keys in a forecast payload. A `daily` object without `time`, `temperature_2m_max` or `temperature_2m_min` raises `KeyError` outside any `try`. The exception escapes `analyze_city`. The model's `Series` always carries the three lists, so it does not cover this case.
- Weekday names: `datetime.strptime`/`strftime("%a")` is the parameter `Env.weekday`, and a malformed date (`ValueError`) is not modelled.
- Floating point: temperatures are exact reals. IEEE-754 rounding of the received values, NaN and infinities are not modelled.
- JavaScript numbers: `parseInt` is modelled over unbounded integers, so precision loss for very long digit strings and the sign of `-0` are not modelled.
- `argparse` (including its demand for at least one city) and the fixed-width table layout, header lines and "No cities found" message of the command-line tool. Only the N/A rule, the temperature text and the match marker are modelled.
- DOM work in the browser: `fetch`, the loader, `alert`, the error banner, the badge text, and the HTML of the card and its temperature cells. Only the badge class and row class are modelled.
- Python's `round` is modelled on exact reals; it agrees with the source on every value a float can hold exactly.
