/** The consecutive-hot-day streak scan shared by the HTTP service and the
    command-line tracker: a counter rises on each day whose maximum is present
    and at least the threshold, drops to zero on any other day, and the scan
    stops as soon as the counter reaches the requested streak length. */
module Streak {
  import opened Wrappers

  /** A day counts toward a streak when its (unrounded) maximum is present and
      at or above the threshold. A missing maximum never counts. */
  predicate Hot(t: Option<real>, threshold: int) {
    t.Some? && t.value >= threshold as real
  }

  /** Days start .. start + len - 1 all exist and are all hot. */
  ghost predicate HotWindow(temps: seq<Option<real>>, threshold: int, start: int, len: nat) {
    && 0 <= start
    && start + len <= |temps|
    && forall j :: start <= j < start + len ==> Hot(temps[j], threshold)
  }

  /** Some window of len contiguous days is hot throughout. */
  ghost predicate HasHotRun(temps: seq<Option<real>>, threshold: int, len: nat) {
    exists start :: HotWindow(temps, threshold, start, len)
  }

  /** No hot window of length len lies entirely within the first n days. */
  ghost predicate NoRunWithin(temps: seq<Option<real>>, threshold: int, len: nat, n: int) {
    forall start :: HotWindow(temps, threshold, start, len) ==> start + len > n
  }

  /** The streak length the scan effectively demands. The counter is compared
      only after an increment, so any requested length below 1 acts as 1. */
  function EffectiveLength(k: int): nat {
    if k < 1 then 1 else k
  }

  /** Number of hot days immediately before position n: the value of the
      scan's counter after it has seen the first n days. */
  function TrailingHot(temps: seq<Option<real>>, threshold: int, n: nat): (r: nat)
    requires n <= |temps|
    ensures r <= n
    decreases n
  {
    if n == 0 || !Hot(temps[n - 1], threshold) then 0
    else TrailingHot(temps, threshold, n - 1) + 1
  }

  /** The counter reaches len at position n exactly when the len days that end
      there form a hot window. */
  lemma {:induction false} TrailingHotWindow(temps: seq<Option<real>>, threshold: int, n: nat, len: nat)
    requires len <= n <= |temps|
    ensures TrailingHot(temps, threshold, n) >= len <==> HotWindow(temps, threshold, n - len, len)
    decreases len
  {
    if len > 0 {
      TrailingHotWindow(temps, threshold, n - 1, len - 1);
      if HotWindow(temps, threshold, n - len, len) {
        assert Hot(temps[n - 1], threshold);
        assert HotWindow(temps, threshold, n - len, len - 1);
      }
      if TrailingHot(temps, threshold, n) >= len {
        assert HotWindow(temps, threshold, n - len, len - 1);
        assert Hot(temps[n - 1], threshold);
      }
    }
  }

  /** The scan from day i onward with the counter at count, returning the
      verdict: true as soon as the counter reaches k. */
  function ScanFrom(temps: seq<Option<real>>, threshold: int, k: int, i: nat, count: nat): bool
    requires i <= |temps|
    decreases |temps| - i
  {
    if i == |temps| then false
    else if Hot(temps[i], threshold) then
      count + 1 >= k || ScanFrom(temps, threshold, k, i + 1, count + 1)
    else
      ScanFrom(temps, threshold, k, i + 1, 0)
  }

  /** While the counter matches the trailing hot days and no window has been
      completed yet, the rest of the scan finds a window iff one exists. */
  lemma {:induction false} ScanFromCorrect(temps: seq<Option<real>>, threshold: int, k: int, i: nat, count: nat)
    requires i <= |temps|
    requires count == TrailingHot(temps, threshold, i)
    requires count < EffectiveLength(k)
    requires NoRunWithin(temps, threshold, EffectiveLength(k), i)
    ensures ScanFrom(temps, threshold, k, i, count) <==> HasHotRun(temps, threshold, EffectiveLength(k))
    decreases |temps| - i
  {
    var len := EffectiveLength(k);
    if i < |temps| {
      if Hot(temps[i], threshold) {
        if count + 1 >= k {
          TrailingHotWindow(temps, threshold, i + 1, len);
          assert HotWindow(temps, threshold, i + 1 - len, len);
        } else {
          RunEndingAtStep(temps, threshold, len, i);
          ScanFromCorrect(temps, threshold, k, i + 1, count + 1);
        }
      } else {
        ColdDayEndsNoRun(temps, threshold, len, i);
        ScanFromCorrect(temps, threshold, k, i + 1, 0);
      }
    }
  }

  /** If the counter after day i is still below len, no window ends at day i. */
  lemma RunEndingAtStep(temps: seq<Option<real>>, threshold: int, len: nat, i: nat)
    requires i < |temps| && len >= 1
    requires TrailingHot(temps, threshold, i + 1) < len
    requires NoRunWithin(temps, threshold, len, i)
    ensures NoRunWithin(temps, threshold, len, i + 1)
  {
    if len <= i + 1 {
      TrailingHotWindow(temps, threshold, i + 1, len);
    }
  }

  /** A day that is not hot ends no window. */
  lemma ColdDayEndsNoRun(temps: seq<Option<real>>, threshold: int, len: nat, i: nat)
    requires i < |temps| && len >= 1
    requires !Hot(temps[i], threshold)
    requires NoRunWithin(temps, threshold, len, i)
    ensures NoRunWithin(temps, threshold, len, i + 1)
  {
  }

  /** The verdict of the scan over the whole sequence. It holds iff some
      window of EffectiveLength(k) contiguous days is hot throughout. */
  function MeetsCriteria(temps: seq<Option<real>>, threshold: int, k: int): (r: bool)
    ensures r <==> HasHotRun(temps, threshold, EffectiveLength(k))
  {
    ScanFromCorrect(temps, threshold, k, 0, 0);
    ScanFrom(temps, threshold, k, 0, 0)
  }

  /** The scan as the source writes it: a loop over the maxima with a counter
      and an early exit once the counter reaches k. */
  method ScanForStreak(temps: seq<Option<real>>, threshold: int, k: int) returns (meets: bool)
    ensures meets <==> HasHotRun(temps, threshold, EffectiveLength(k))
    ensures meets == MeetsCriteria(temps, threshold, k)
  {
    var count := 0;
    meets := false;
    var i := 0;
    while i < |temps|
      invariant 0 <= i <= |temps|
      invariant count == TrailingHot(temps, threshold, i)
      invariant count < EffectiveLength(k)
      invariant NoRunWithin(temps, threshold, EffectiveLength(k), i)
    {
      var temp := temps[i];
      if temp.Some? && temp.value >= threshold as real {
        count := count + 1;
        if count >= k {
          meets := true;
          TrailingHotWindow(temps, threshold, i + 1, EffectiveLength(k));
          return;
        }
        RunEndingAtStep(temps, threshold, EffectiveLength(k), i);
      } else {
        count := 0;
        ColdDayEndsNoRun(temps, threshold, EffectiveLength(k), i);
      }
      i := i + 1;
    }
  }

  /** A missing maximum splits the sequence: a run exists across the whole
      sequence iff it exists entirely before or entirely after the gap. */
  lemma MissingDaySplitsRuns(before: seq<Option<real>>, after: seq<Option<real>>, threshold: int, len: nat)
    requires len >= 1
    ensures HasHotRun(before + [None] + after, threshold, len)
        <==> HasHotRun(before, threshold, len) || HasHotRun(after, threshold, len)
  {
    var temps := before + [None] + after;
    var gap := |before|;
    if HasHotRun(temps, threshold, len) {
      var start :| HotWindow(temps, threshold, start, len);
      assert temps[gap] == None;
      MissingDayOutsideWindows(temps, threshold, start, len, gap);
      if start + len <= gap {
        assert forall j :: start <= j < start + len ==> temps[j] == before[j];
        assert HotWindow(before, threshold, start, len);
      } else {
        assert forall j :: start - gap - 1 <= j < start - gap - 1 + len ==> after[j] == temps[j + gap + 1];
        assert HotWindow(after, threshold, start - gap - 1, len);
      }
    }
    if HasHotRun(before, threshold, len) {
      var start :| HotWindow(before, threshold, start, len);
      assert forall j :: start <= j < start + len ==> temps[j] == before[j];
      assert HotWindow(temps, threshold, start, len);
    }
    if HasHotRun(after, threshold, len) {
      var start :| HotWindow(after, threshold, start, len);
      assert forall j :: 0 <= j < |after| ==> temps[j + gap + 1] == after[j];
      forall j | start + gap + 1 <= j < start + gap + 1 + len
        ensures Hot(temps[j], threshold)
      {
        assert temps[j] == after[j - gap - 1];
      }
      assert HotWindow(temps, threshold, start + gap + 1, len);
    }
  }

  /** No hot window covers a day whose maximum is missing. */
  lemma MissingDayOutsideWindows(temps: seq<Option<real>>, threshold: int, start: int, len: nat, gap: nat)
    requires gap < |temps| && temps[gap].None?
    requires HotWindow(temps, threshold, start, len)
    ensures gap < start || start + len <= gap
  {
  }

  /** A missing maximum and a below-threshold maximum are interchangeable: the
      verdict is the same either way. */
  lemma MissingActsLikeCold(temps: seq<Option<real>>, threshold: int, k: int, i: nat, cold: real)
    requires i < |temps|
    requires cold < threshold as real
    ensures MeetsCriteria(temps[i := None], threshold, k) == MeetsCriteria(temps[i := Some(cold)], threshold, k)
  {
    var a := temps[i := None];
    var b := temps[i := Some(cold)];
    var len := EffectiveLength(k);
    assert forall j :: 0 <= j < |a| ==> (Hot(a[j], threshold) <==> Hot(b[j], threshold));
    if HasHotRun(a, threshold, len) {
      var start :| HotWindow(a, threshold, start, len);
      assert HotWindow(b, threshold, start, len);
    }
    if HasHotRun(b, threshold, len) {
      var start :| HotWindow(b, threshold, start, len);
      assert HotWindow(a, threshold, start, len);
    }
  }

  /** A run of one day is a single hot day. */
  lemma SingleDayRun(temps: seq<Option<real>>, threshold: int)
    ensures HasHotRun(temps, threshold, 1) <==> exists i :: 0 <= i < |temps| && Hot(temps[i], threshold)
  {
    if exists i :: 0 <= i < |temps| && Hot(temps[i], threshold) {
      var i :| 0 <= i < |temps| && Hot(temps[i], threshold);
      assert HotWindow(temps, threshold, i, 1);
    }
    if HasHotRun(temps, threshold, 1) {
      var start :| HotWindow(temps, threshold, start, 1);
      assert Hot(temps[start], threshold);
    }
  }

  /** "At least k days": a run of a given length contains every shorter run. */
  lemma LongerRunContainsShorter(temps: seq<Option<real>>, threshold: int, short: nat, long: nat)
    requires short <= long
    requires HasHotRun(temps, threshold, long)
    ensures HasHotRun(temps, threshold, short)
  {
    var start :| HotWindow(temps, threshold, start, long);
    assert HotWindow(temps, threshold, start, short);
  }

  /** Lowering the threshold never loses a run. */
  lemma LowerThresholdKeepsRun(temps: seq<Option<real>>, low: int, high: int, len: nat)
    requires low <= high
    requires HasHotRun(temps, high, len)
    ensures HasHotRun(temps, low, len)
  {
    var start :| HotWindow(temps, high, start, len);
    assert HotWindow(temps, low, start, len);
  }
}
