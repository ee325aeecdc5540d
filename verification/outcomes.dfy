/** The per-city outcome both front ends collect, and the ordered list of the
    results that survive. */
module Outcomes {

  /** What one city's analysis came to: a result; a city that is dropped (the
      service's {"error": ...} dict, or the tracker's None) with the message
      the source gives; or an exception that escapes the per-city code. */
  datatype Outcome<T> = Produced(value: T) | Dropped(reason: string) | Raised

  /** The produced values, in the order of the outcomes. */
  function Kept<T>(os: seq<Outcome<T>>): (r: seq<T>)
    ensures |r| <= |os|
    ensures forall x :: x in r ==> Produced(x) in os
  {
    if |os| == 0 then []
    else
      var last := os[|os| - 1];
      Kept(os[..|os| - 1]) + (if last.Produced? then [last.value] else [])
  }

  predicate AnyRaised<T>(os: seq<Outcome<T>>) {
    exists i :: 0 <= i < |os| && os[i].Raised?
  }

  /** The outcome of every city, in the order the cities are given. */
  function EachCity<T>(cities: seq<string>, analyze: string -> Outcome<T>): (os: seq<Outcome<T>>)
    ensures |os| == |cities|
    ensures forall i :: 0 <= i < |cities| ==> os[i] == analyze(cities[i])
  {
    seq(|cities|, i requires 0 <= i < |cities| => analyze(cities[i]))
  }

  /** The collection loop both front ends run: analyse the cities one by one,
      append every produced value, skip the dropped cities, and stop at the
      first exception. */
  method Collect<T>(cities: seq<string>, analyze: string -> Outcome<T>) returns (results: seq<T>, raised: bool)
    ensures raised <==> AnyRaised(EachCity(cities, analyze))
    ensures !raised ==> results == Kept(EachCity(cities, analyze))
  {
    ghost var outcomes := EachCity(cities, analyze);
    results := [];
    var i := 0;
    while i < |cities|
      invariant 0 <= i <= |cities|
      invariant results == Kept(outcomes[..i])
      invariant !AnyRaised(outcomes[..i])
    {
      var outcome := analyze(cities[i]);
      KeptStep(outcomes, i);
      if outcome.Raised? {
        return results, true;
      }
      if outcome.Produced? {
        results := results + [outcome.value];
      }
      i := i + 1;
    }
    assert outcomes[..i] == outcomes;
    raised := false;
  }

  /** One more outcome adds its value, if it has one, at the end. */
  lemma KeptStep<T>(os: seq<Outcome<T>>, i: nat)
    requires i < |os|
    ensures Kept(os[..i + 1]) == Kept(os[..i]) + (if os[i].Produced? then [os[i].value] else [])
    ensures AnyRaised(os[..i + 1]) <==> AnyRaised(os[..i]) || os[i].Raised?
  {
    assert os[..i + 1][..i] == os[..i];
    assert os[..i + 1][i] == os[i];
  }

  /** Every produced value is kept. */
  lemma {:induction false} KeptComplete<T>(os: seq<Outcome<T>>, x: T)
    requires Produced(x) in os
    ensures x in Kept(os)
    decreases |os|
  {
    var init := os[..|os| - 1];
    if os[|os| - 1] != Produced(x) {
      assert os == init + [os[|os| - 1]];
      assert Produced(x) in init;
      KeptComplete(init, x);
    }
  }

  /** Keeping is compositional: results of a list split in two are the
      results of the first part followed by those of the second, so request
      order is preserved. */
  lemma {:induction false} KeptAppend<T>(a: seq<Outcome<T>>, b: seq<Outcome<T>>)
    ensures Kept(a + b) == Kept(a) + Kept(b)
    decreases |b|
  {
    if |b| == 0 {
      assert a + b == a;
    } else {
      var init := b[..|b| - 1];
      assert (a + b)[..|a + b| - 1] == a + init;
      KeptAppend(a, init);
    }
  }

  /** A dropped city leaves no trace: the others are kept as if it had never
      been requested. */
  lemma {:induction false} KeptSkipsDropped<T>(a: seq<Outcome<T>>, reason: string, b: seq<Outcome<T>>)
    ensures Kept(a + [Dropped(reason)] + b) == Kept(a) + Kept(b)
  {
    var gap: seq<Outcome<T>> := [Dropped(reason)];
    assert gap[..0] == [];
    assert Kept(gap) == Kept(gap[..0]);
    KeptAppend(a + gap, b);
    KeptAppend(a, gap);
    assert a + [Dropped(reason)] + b == (a + gap) + b;
  }

  /** When every city succeeds, every result is kept, in order. */
  lemma {:induction false} KeptAllProduced<T>(os: seq<Outcome<T>>)
    requires forall i :: 0 <= i < |os| ==> os[i].Produced?
    ensures |Kept(os)| == |os|
    ensures forall i :: 0 <= i < |os| ==> Kept(os)[i] == os[i].value
    decreases |os|
  {
    if |os| > 0 {
      KeptAllProduced(os[..|os| - 1]);
    }
  }
}
