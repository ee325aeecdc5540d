/** The browser front end: reading the form (city list, threshold, streak
    length) before a request is sent, and the CSS classes that mark a city
    card and its forecast rows. JavaScript string semantics are spelled out:
    split on a one-character separator, trim, and parseInt without a radix. */
module Frontend {
  import opened Wrappers
  import opened Numerals
  import opened Streak
  import opened Upstream
  import WeatherService
  import Api

  /** The ECMAScript WhiteSpace and LineTerminator code points: what trim()
      removes and what parseInt() skips at the start. */
  predicate IsJsSpace(c: char) {
    || c == '\t' || c == '\n' || c == '\U{000B}' || c == '\U{000C}' || c == '\r' || c == ' '
    || c == '\U{00A0}' || c == '\U{1680}' || '\U{2000}' <= c <= '\U{200A}'
    || c == '\U{2028}' || c == '\U{2029}' || c == '\U{202F}' || c == '\U{205F}'
    || c == '\U{3000}' || c == '\U{FEFF}'
  }

  /** No white space at either end. */
  predicate IsTrimmed(t: string) {
    |t| > 0 ==> !IsJsSpace(t[0]) && !IsJsSpace(t[|t| - 1])
  }

  /** Position of the first character at or after i that is not white space
      (|s| when there is none). */
  function SkipSpace(s: string, i: nat): (j: nat)
    requires i <= |s|
    ensures i <= j <= |s|
    ensures forall k :: i <= k < j ==> IsJsSpace(s[k])
    ensures j < |s| ==> !IsJsSpace(s[j])
    decreases |s| - i
  {
    if i < |s| && IsJsSpace(s[i]) then SkipSpace(s, i + 1) else i
  }

  /** Position just after the last character in [lo, hi) that is not white
      space (lo when there is none). */
  function SkipSpaceBack(s: string, lo: nat, hi: nat): (j: nat)
    requires lo <= hi <= |s|
    ensures lo <= j <= hi
    ensures forall k :: j <= k < hi ==> IsJsSpace(s[k])
    ensures j > lo ==> !IsJsSpace(s[j - 1])
    decreases hi
  {
    if hi > lo && IsJsSpace(s[hi - 1]) then SkipSpaceBack(s, lo, hi - 1) else hi
  }

  /** String.prototype.trim: the part of s between its leading and trailing
      white space. */
  function Trim(s: string): (r: string)
    ensures IsTrimmed(r)
    ensures SkipSpace(s, 0) + |r| <= |s|
    ensures r == s[SkipSpace(s, 0)..SkipSpace(s, 0) + |r|]
    ensures forall k :: SkipSpace(s, 0) + |r| <= k < |s| ==> IsJsSpace(s[k])
  {
    var lo := SkipSpace(s, 0);
    s[lo..SkipSpaceBack(s, lo, |s|)]
  }

  /** Trimming twice is trimming once. */
  lemma TrimIdempotent(s: string)
    ensures Trim(Trim(s)) == Trim(s)
  {
  }

  /** Concatenation of parts with the separator between consecutive parts. */
  function Join(parts: seq<string>, sep: char): string
    decreases |parts|
  {
    if |parts| == 0 then ""
    else if |parts| == 1 then parts[0]
    else parts[0] + [sep] + Join(parts[1..], sep)
  }

  /** String.prototype.split with a one-character separator: the maximal
      separator-free pieces, in order. The empty string gives one empty piece. */
  function Split(s: string, sep: char): (parts: seq<string>)
    ensures |parts| >= 1
    ensures forall i :: 0 <= i < |parts| ==> sep !in parts[i]
    ensures Join(parts, sep) == s
    decreases |s|
  {
    if |s| == 0 then [""]
    else
      var rest := Split(s[1..], sep);
      if s[0] == sep then
        var parts := [""] + rest;
        assert parts[1..] == rest;
        parts
      else
        var parts := [[s[0]] + rest[0]] + rest[1..];
        assert Join(parts, sep) == [s[0]] + Join(rest, sep) by {
          if |rest| > 1 {
            assert parts[1..] == rest[1..];
          }
        }
        assert s == [s[0]] + s[1..];
        parts
  }

  /** Splitting undoes joining: any non-empty list of separator-free pieces is
      recovered from its join, so the pieces of a split are unique. */
  lemma {:induction false} SplitJoin(parts: seq<string>, sep: char)
    requires |parts| >= 1
    requires forall i :: 0 <= i < |parts| ==> sep !in parts[i]
    ensures Split(Join(parts, sep), sep) == parts
    decreases |Join(parts, sep)|
  {
    var s := Join(parts, sep);
    if |parts[0]| > 0 {
      var shorter := [parts[0][1..]] + parts[1..];
      assert shorter[1..] == parts[1..];
      assert Join(parts, sep) == [parts[0][0]] + Join(shorter, sep) by {
        assert parts[0] == [parts[0][0]] + parts[0][1..];
      }
      assert s[1..] == Join(shorter, sep);
      assert forall i :: 0 <= i < |shorter| ==> sep !in shorter[i] by {
        forall i | 0 <= i < |shorter|
          ensures sep !in shorter[i]
        {
          if i == 0 {
            assert forall c :: c in parts[0][1..] ==> c in parts[0];
          } else {
            assert shorter[i] == parts[i];
          }
        }
      }
      SplitJoin(shorter, sep);
      assert s[0] == parts[0][0];
      assert parts[0][0] != sep;
      assert [s[0]] + shorter[0] == parts[0];
      assert parts == [parts[0]] + parts[1..];
    } else if |parts| > 1 {
      assert s == [sep] + Join(parts[1..], sep);
      assert s[1..] == Join(parts[1..], sep);
      assert forall i :: 0 <= i < |parts[1..]| ==> sep !in parts[1..][i];
      SplitJoin(parts[1..], sep);
      assert [""] + parts[1..] == parts;
    }
  }

  /** Joining two lists puts one separator between them. */
  lemma {:induction false} JoinAppend(a: seq<string>, b: seq<string>, sep: char)
    requires |a| >= 1 && |b| >= 1
    ensures Join(a + b, sep) == Join(a, sep) + [sep] + Join(b, sep)
    decreases |a|
  {
    if |a| == 1 {
      assert (a + b)[1..] == b;
    } else {
      assert (a + b)[1..] == a[1..] + b;
      JoinAppend(a[1..], b, sep);
    }
  }

  /** Two lists of separator-free pieces put together are separator-free. */
  lemma PiecesAvoid(pa: seq<string>, pb: seq<string>, sep: char)
    requires forall i :: 0 <= i < |pa| ==> sep !in pa[i]
    requires forall i :: 0 <= i < |pb| ==> sep !in pb[i]
    ensures forall i :: 0 <= i < |pa + pb| ==> sep !in (pa + pb)[i]
  {
    forall i | 0 <= i < |pa + pb|
      ensures sep !in (pa + pb)[i]
    {
      if i >= |pa| {
        assert (pa + pb)[i] == pb[i - |pa|];
      }
    }
  }

  /** A separator in the input splits the pieces exactly there. */
  lemma SplitAppend(a: string, b: string, sep: char)
    ensures Split(a + [sep] + b, sep) == Split(a, sep) + Split(b, sep)
  {
    var pa := Split(a, sep);
    var pb := Split(b, sep);
    JoinAppend(pa, pb, sep);
    PiecesAvoid(pa, pb, sep);
    SplitJoin(pa + pb, sep);
  }

  /** The trimmed pieces that are not empty, in order. */
  function TrimmedNonEmpty(pieces: seq<string>): (r: seq<string>)
    ensures |r| <= |pieces|
    ensures forall i :: 0 <= i < |r| ==> |r[i]| > 0 && IsTrimmed(r[i])
  {
    if |pieces| == 0 then []
    else
      var t := Trim(pieces[0]);
      (if |t| > 0 then [t] else []) + TrimmedNonEmpty(pieces[1..])
  }

  /** Trimming adds no character: one that occurs in no piece occurs in no
      result. */
  lemma {:induction false} TrimmedNonEmptyAvoids(pieces: seq<string>, c: char)
    requires forall j :: 0 <= j < |pieces| ==> c !in pieces[j]
    ensures forall i :: 0 <= i < |TrimmedNonEmpty(pieces)| ==> c !in TrimmedNonEmpty(pieces)[i]
    decreases |pieces|
  {
    if |pieces| > 0 {
      var p := pieces[0];
      var t := Trim(p);
      assert forall x :: x in t ==> x in p;
      assert forall j :: 0 <= j < |pieces[1..]| ==> c !in pieces[1..][j] by {
        forall j | 0 <= j < |pieces[1..]|
          ensures c !in pieces[1..][j]
        {
          assert pieces[1..][j] == pieces[j + 1];
        }
      }
      TrimmedNonEmptyAvoids(pieces[1..], c);
    }
  }

  /** A string is kept iff it is non-empty and the trim of some piece. */
  lemma {:induction false} TrimmedNonEmptyContents(pieces: seq<string>, x: string)
    ensures x in TrimmedNonEmpty(pieces) <==> |x| > 0 && exists j :: 0 <= j < |pieces| && Trim(pieces[j]) == x
    decreases |pieces|
  {
    if |pieces| > 0 {
      var rest := pieces[1..];
      TrimmedNonEmptyContents(rest, x);
      if exists j :: 0 <= j < |pieces| && Trim(pieces[j]) == x {
        var j :| 0 <= j < |pieces| && Trim(pieces[j]) == x;
        if j > 0 {
          assert Trim(rest[j - 1]) == x;
        }
      }
      if exists j :: 0 <= j < |rest| && Trim(rest[j]) == x {
        var j :| 0 <= j < |rest| && Trim(rest[j]) == x;
        assert Trim(pieces[j + 1]) == x;
      }
    }
  }

  /** Trimming and dropping work piece by piece: the kept pieces of a + b are
      those of a followed by those of b. */
  lemma {:induction false} TrimmedNonEmptyAppend(a: seq<string>, b: seq<string>)
    ensures TrimmedNonEmpty(a + b) == TrimmedNonEmpty(a) + TrimmedNonEmpty(b)
    decreases |a|
  {
    if |a| == 0 {
      assert a + b == b;
    } else {
      assert (a + b)[1..] == a[1..] + b;
      TrimmedNonEmptyAppend(a[1..], b);
    }
  }

  /** The city list of the form: split on commas, trim each piece, drop the
      empty ones. */
  function ParseCities(input: string): (cities: seq<string>)
    ensures forall i :: 0 <= i < |cities| ==> |cities[i]| > 0 && IsTrimmed(cities[i]) && ',' !in cities[i]
  {
    var pieces := Split(input, ',');
    TrimmedNonEmptyAvoids(pieces, ',');
    TrimmedNonEmpty(pieces)
  }

  /** Cities keep their left-to-right order: the list for "a,b" is the list
      for a followed by the list for b. */
  lemma ParseCitiesAppend(a: string, b: string)
    ensures ParseCities(a + "," + b) == ParseCities(a) + ParseCities(b)
  {
    SplitAppend(a, b, ',');
    TrimmedNonEmptyAppend(Split(a, ','), Split(b, ','));
  }

  /** A piece without a comma yields its trimmed self, or nothing when it is
      blank. */
  lemma ParseSingleCity(s: string)
    requires ',' !in s
    ensures ParseCities(s) == if Trim(s) == "" then [] else [Trim(s)]
  {
    SplitJoin([s], ',');
    assert [s][1..] == [];
  }

  /** parseInt(s) with no radix, NaN being None: skip leading white space,
      then read a signed number. */
  function ParseIntJs(s: string): Option<int> {
    ParseSigned(s[SkipSpace(s, 0)..])
  }

  /** The rest of parseInt once white space is skipped: take one sign, read
      base 16 after a "0x"/"0X" prefix and base 10 otherwise, and stop at the
      first character that is not a digit of the base; no digit at all is NaN. */
  function ParseSigned(t: string): Option<int> {
    var negative := |t| > 0 && t[0] == '-';
    var unsigned := if |t| > 0 && (t[0] == '-' || t[0] == '+') then t[1..] else t;
    match ParseUnsigned(unsigned)
    case None => None
    case Some(magnitude) =>
      var v: int := magnitude;
      Some(if negative then -v else v)
  }

  function ParseUnsigned(u: string): Option<nat> {
    var hex := |u| >= 2 && u[0] == '0' && (u[1] == 'x' || u[1] == 'X');
    var radix := if hex then 16 else 10;
    var body := if hex then u[2..] else u;
    var n := DigitPrefixLength(body, radix);
    if n == 0 then None else Some(ValueIn(body[..n], radix))
  }

  /** Decimal digits followed by a character that is neither letter nor
      digit read as their value. */
  lemma ReadsDecimalDigits(m: nat, rest: string)
    requires |rest| > 0 ==> CharValue(rest[0]) == 36
    ensures ParseUnsigned(DecimalDigits(m) + rest) == Some(m)
  {
    var digits := DecimalDigits(m);
    var u := digits + rest;
    assert forall i :: 0 <= i < |digits| ==> IsDigitIn(digits[i], 10);
    DigitsArePrefix(digits, rest, 10);
    if |u| >= 2 && u[0] == '0' {
      assert |digits| == 1;
      assert u[1] == rest[0];
    }
    assert u[..|digits|] == digits;
  }

  /** parseInt reads back a rendered integer, and stops at the first
      character that is neither a letter nor a digit ("95°F" reads as 95). */
  lemma ParseIntReadsRenderedInt(n: int, rest: string)
    requires |rest| > 0 ==> CharValue(rest[0]) == 36
    ensures ParseIntJs(IntToString(n) + rest) == Some(n)
  {
    if n < 0 {
      ReadsRenderedNegative(n, rest);
    } else {
      ReadsRenderedNonNegative(n, rest);
    }
  }

  lemma ReadsRenderedNegative(n: int, rest: string)
    requires n < 0
    requires |rest| > 0 ==> CharValue(rest[0]) == 36
    ensures ParseIntJs(IntToString(n) + rest) == Some(n)
  {
    var digits := DecimalDigits(-n);
    assert IntToString(n) == "-" + digits;
    var u := digits + rest;
    assert IntToString(n) + rest == "-" + u;
    ReadsDecimalDigits(-n, rest);
    ReadsNegative(u, -n);
  }

  lemma ReadsRenderedNonNegative(n: int, rest: string)
    requires n >= 0
    requires |rest| > 0 ==> CharValue(rest[0]) == 36
    ensures ParseIntJs(IntToString(n) + rest) == Some(n)
  {
    var digits := DecimalDigits(n);
    assert IntToString(n) == digits;
    var u := digits + rest;
    ReadsDecimalDigits(n, rest);
    ReadsUnsigned(u, n);
  }

  lemma ReadsNegative(u: string, m: int)
    requires m >= 0 && ParseUnsigned(u) == Some(m)
    ensures ParseIntJs("-" + u) == Some(-m)
  {
    var s := "-" + u;
    assert SkipSpace(s, 0) == 0;
    assert s[0..] == s && s[1..] == u;
  }

  lemma ReadsUnsigned(u: string, m: nat)
    requires |u| > 0 && '0' <= u[0] <= '9'
    requires ParseUnsigned(u) == Some(m)
    ensures ParseIntJs(u) == Some(m)
  {
    assert SkipSpace(u, 0) == 0;
    assert u[0..] == u;
  }

  /** Leading white space does not change what parseInt reads. */
  lemma ParseIntSkipsSpace(w: string, s: string)
    requires forall i :: 0 <= i < |w| ==> IsJsSpace(w[i])
    ensures ParseIntJs(w + s) == ParseIntJs(s)
  {
    SkippedText(w, s);
  }

  /** What is left after skipping white space does not see the extra spaces. */
  lemma SkippedText(w: string, s: string)
    requires forall i :: 0 <= i < |w| ==> IsJsSpace(w[i])
    ensures (w + s)[SkipSpace(w + s, 0)..] == s[SkipSpace(s, 0)..]
  {
    SkipLeadingSpace(w, s, 0);
    SkipSpaceShift(w, s, 0);
    var k := SkipSpace(s, 0);
    assert (w + s)[|w| + k..] == s[k..];
  }

  /** Skipping white space through w lands where skipping from the start of s
      would, shifted by |w|. */
  lemma {:induction false} SkipLeadingSpace(w: string, s: string, i: nat)
    requires i <= |w|
    requires forall k :: 0 <= k < |w| ==> IsJsSpace(w[k])
    ensures SkipSpace(w + s, i) == SkipSpace(w + s, |w|)
    decreases |w| - i
  {
    if i < |w| {
      assert (w + s)[i] == w[i];
      SkipLeadingSpace(w, s, i + 1);
    }
  }

  lemma {:induction false} SkipSpaceShift(w: string, s: string, k: nat)
    requires k <= |s|
    ensures SkipSpace(w + s, |w| + k) == |w| + SkipSpace(s, k)
    decreases |s| - k
  {
    if k < |s| {
      assert (w + s)[|w| + k] == s[k];
      if IsJsSpace(s[k]) {
        SkipSpaceShift(w, s, k + 1);
      }
    }
  }

  /** The check before sending: both numbers must parse and at least one city
      must remain, otherwise no request is made. */
  function ValidateForm(thresholdText: string, daysText: string, citiesText: string): (r: Option<Api.AnalysisRequest>)
    ensures r.Some? <==>
      ParseIntJs(thresholdText).Some? && ParseIntJs(daysText).Some? && |ParseCities(citiesText)| > 0
    ensures r.Some? ==>
      && r.value.threshold == ParseIntJs(thresholdText).value
      && r.value.consecutiveDays == ParseIntJs(daysText).value
      && r.value.cities == ParseCities(citiesText)
    ensures r.Some? ==> forall i :: 0 <= i < |r.value.cities| ==>
      |r.value.cities[i]| > 0 && IsTrimmed(r.value.cities[i])
  {
    var threshold := ParseIntJs(thresholdText);
    var days := ParseIntJs(daysText);
    var cities := ParseCities(citiesText);
    if threshold.None? || days.None? || |cities| == 0 then None
    else Some(Api.AnalysisRequest(threshold.value, cities, days.value))
  }

  /** The badge class of a city card. */
  function BadgeClass(meetsCriteria: bool): string {
    if meetsCriteria then "met" else "not-met"
  }

  /** The extra class of a forecast row. */
  function RowClass(isMatch: bool): string {
    if isMatch then "match" else ""
  }

  /** A card shows the "met" badge exactly when the series has a hot run of
      the requested length, and a row is highlighted exactly when that day's
      unrounded maximum meets the threshold. */
  lemma CardReflectsSeries(name: string, s: Series, threshold: int, k: int, weekday: string -> string)
    requires CoversDates(s)
    ensures var a := WeatherService.Analyze(name, s, threshold, k, weekday);
      && (BadgeClass(a.meetsCriteria) == "met" <==> HasHotRun(s.maxTemps, threshold, EffectiveLength(k)))
      && (BadgeClass(a.meetsCriteria) != "met" ==> BadgeClass(a.meetsCriteria) == "not-met")
      && forall i :: 0 <= i < |s.dates| ==>
           (RowClass(a.forecast[i].isMatch) == "match" <==> Hot(s.maxTemps[i], threshold))
  {
  }
}
