/** The accumulation pattern of the ingestion driver: go through the items in
    order, append the record an item yields to the list, pass over an item
    that yields none, and stop at the first item whose extraction let an
    exception escape. */
module Accumulation {

  /** One `{"source": ..., "content": ...}` object of the output array. */
  datatype Record = Record(source: string, content: string)

  /** What processing one item contributes. */
  datatype Step =
    | Skip                  // nothing is appended
    | Keep(record: Record)  // `record` is appended
    | Abort(url: string)    // the extractor raised past the driver for `url`

  /** Where a run of items ends: the records appended so far, in order, or
      the exception that ended it. */
  datatype Phase = Done(records: seq<Record>) | Aborted(url: string)

  /** Processing the items of `xs` one after the other, starting from an
      empty list. Never more records than items. */
  function Accumulate<T>(step: T -> Step, xs: seq<T>): (r: Phase)
    ensures r.Done? ==> |r.records| <= |xs|
    decreases |xs|
  {
    if xs == [] then Done([])
    else
      match Accumulate(step, xs[..|xs| - 1])
      case Aborted(u) => Aborted(u)
      case Done(rs) =>
        match step(xs[|xs| - 1])
        case Skip => Done(rs)
        case Keep(rec) => Done(rs + [rec])
        case Abort(u) => Aborted(u)
  }

  /** Running `p` and then `q`: `q`'s records come after `p`'s, and an abort in
      `p` means `q` never contributes. */
  function Then(p: Phase, q: Phase): Phase {
    match p
    case Aborted(_) => p
    case Done(a) =>
      match q
      case Aborted(u) => Aborted(u)
      case Done(b) => Done(a + b)
  }

  /** Order is preserved: the records of a prefix come first, then those of
      the rest, and an abort in the prefix ends the whole run. */
  lemma {:induction false} AccumulateAppend<T>(step: T -> Step, xs: seq<T>, ys: seq<T>)
    ensures Accumulate(step, xs + ys) == Then(Accumulate(step, xs), Accumulate(step, ys))
    decreases |ys|
  {
    if ys == [] {
      assert xs + ys == xs;
    } else {
      var ys' := ys[..|ys| - 1];
      var last := ys[|ys| - 1];
      AccumulateAppend(step, xs, ys');
      assert (xs + ys)[..|xs + ys| - 1] == xs + ys';
      assert (xs + ys)[|xs + ys| - 1] == last;
      if Accumulate(step, xs).Done? && Accumulate(step, ys').Done? && step(last).Keep? {
        var a, b, rec := Accumulate(step, xs).records, Accumulate(step, ys').records, step(last).record;
        assert (a + b) + [rec] == a + (b + [rec]);
      }
    }
  }

  /** The run completes exactly when no item aborts. */
  lemma {:induction false} AccumulateDone<T>(step: T -> Step, xs: seq<T>)
    ensures Accumulate(step, xs).Done? <==> forall i :: 0 <= i < |xs| ==> !step(xs[i]).Abort?
    decreases |xs|
  {
    if xs != [] {
      var init := xs[..|xs| - 1];
      AccumulateDone(step, init);
      assert forall i :: 0 <= i < |init| ==> init[i] == xs[i];
      if forall i :: 0 <= i < |xs| ==> !step(xs[i]).Abort? {
        assert forall i :: 0 <= i < |init| ==> !step(init[i]).Abort?;
      } else if Accumulate(step, init).Done? {
        var i :| 0 <= i < |xs| && step(xs[i]).Abort?;
        assert i == |xs| - 1;
      }
    }
  }

  /** When the run aborts, it is at the first item that aborts, with that
      item's exception. */
  ghost function FirstAbort<T>(step: T -> Step, xs: seq<T>): (i: nat)
    requires Accumulate(step, xs).Aborted?
    ensures i < |xs| && step(xs[i]) == Abort(Accumulate(step, xs).url)
    ensures forall j :: 0 <= j < i ==> !step(xs[j]).Abort?
    decreases |xs|
  {
    var init := xs[..|xs| - 1];
    if Accumulate(step, init).Aborted? then
      var i := FirstAbort(step, init);
      assert forall j :: 0 <= j <= i ==> init[j] == xs[j];
      i
    else
      AccumulateDone(step, init);
      assert forall j :: 0 <= j < |init| ==> init[j] == xs[j];
      |xs| - 1
  }

  /** The records are exactly the kept items' records, in the items' order:
      `p[k]` is the item that produced the `k`-th record, the positions
      increase, and every item that yields a record has its position in `p`. */
  ghost function Positions<T>(step: T -> Step, xs: seq<T>): (p: seq<nat>)
    requires Accumulate(step, xs).Done?
    ensures |p| == |Accumulate(step, xs).records|
    ensures forall k :: 0 <= k < |p| ==> p[k] < |xs| && step(xs[p[k]]) == Keep(Accumulate(step, xs).records[k])
    ensures forall k, l :: 0 <= k < l < |p| ==> p[k] < p[l]
    ensures forall i :: 0 <= i < |xs| && step(xs[i]).Keep? ==> i in p
    decreases |xs|
  {
    if xs == [] then []
    else
      var init := xs[..|xs| - 1];
      var p := Positions(step, init);
      assert forall j :: 0 <= j < |init| ==> init[j] == xs[j];
      if step(xs[|xs| - 1]).Keep? then p + [|xs| - 1] else p
  }

  /** A record is in the list exactly when some item yields it. */
  lemma AccumulateMembers<T>(step: T -> Step, xs: seq<T>, rec: Record)
    requires Accumulate(step, xs).Done?
    ensures rec in Accumulate(step, xs).records <==> exists i :: 0 <= i < |xs| && step(xs[i]) == Keep(rec)
  {
    var rs := Accumulate(step, xs).records;
    var p := Positions(step, xs);
    if rec in rs {
      var k :| 0 <= k < |rs| && rs[k] == rec;
      assert step(xs[p[k]]) == Keep(rec);
    }
    if exists i :: 0 <= i < |xs| && step(xs[i]) == Keep(rec) {
      var i :| 0 <= i < |xs| && step(xs[i]) == Keep(rec);
      assert i in p;
      var k :| 0 <= k < |p| && p[k] == i;
      assert rs[k] == rec;
    }
  }

  /** The number of items that yield a record. */
  function KeptCount<T>(step: T -> Step, xs: seq<T>): nat
    decreases |xs|
  {
    if xs == [] then 0
    else KeptCount(step, xs[..|xs| - 1]) + (if step(xs[|xs| - 1]).Keep? then 1 else 0)
  }

  /** The number of items that satisfy `p`. */
  function CountWhere<T>(p: T -> bool, xs: seq<T>): nat
    decreases |xs|
  {
    if xs == [] then 0
    else CountWhere(p, xs[..|xs| - 1]) + (if p(xs[|xs| - 1]) then 1 else 0)
  }

  /** A completed run holds one record per item that yields one. */
  lemma {:induction false} AccumulateCount<T>(step: T -> Step, xs: seq<T>)
    requires Accumulate(step, xs).Done?
    ensures |Accumulate(step, xs).records| == KeptCount(step, xs)
    decreases |xs|
  {
    if xs != [] {
      AccumulateCount(step, xs[..|xs| - 1]);
    }
  }

  /** When every item that yields a record satisfies `p`, no more items yield
      a record than satisfy `p`. */
  lemma {:induction false} KeptCountBound<T>(step: T -> Step, p: T -> bool, xs: seq<T>)
    requires forall i :: 0 <= i < |xs| && step(xs[i]).Keep? ==> p(xs[i])
    ensures KeptCount(step, xs) <= CountWhere(p, xs) <= |xs|
    decreases |xs|
  {
    if xs != [] {
      var init := xs[..|xs| - 1];
      assert forall i :: 0 <= i < |init| ==> init[i] == xs[i];
      KeptCountBound(step, p, init);
    }
  }

  /** A completed run has no records exactly when no item yields one. */
  lemma AccumulateEmpty<T>(step: T -> Step, xs: seq<T>)
    requires Accumulate(step, xs).Done?
    ensures Accumulate(step, xs).records == [] <==> forall i :: 0 <= i < |xs| ==> !step(xs[i]).Keep?
  {
    var p := Positions(step, xs);
    if exists i :: 0 <= i < |xs| && step(xs[i]).Keep? {
      var i :| 0 <= i < |xs| && step(xs[i]).Keep?;
      assert i in p;
    }
    if |p| > 0 {
      assert step(xs[p[0]]).Keep?;
    }
  }

  /** Where a record of two runs one after the other comes from: the item
      at index `i` of the first run or at index `j` of the second. */
  datatype Origin = First(i: nat) | Second(j: nat)

  /** The order of the combined records: every record of the first run
      before every record of the second, each run in its items' order. */
  predicate Precedes(a: Origin, b: Origin) {
    match (a, b)
    case (First(i), First(k)) => i < k
    case (First(_), Second(_)) => true
    case (Second(_), First(_)) => false
    case (Second(j), Second(l)) => j < l
  }

  /** `r` is the record the item at `o` yields. */
  ghost predicate Yields<S, T>(f: S -> Step, xs: seq<S>, g: T -> Step, ys: seq<T>, o: Origin, r: Record) {
    match o
    case First(i) => i < |xs| && f(xs[i]) == Keep(r)
    case Second(j) => j < |ys| && g(ys[j]) == Keep(r)
  }

  /** The origins of the records of two runs one after the other: each
      record is what its item yields, the records are in `Precedes` order,
      and every item that yields a record has its origin listed. */
  ghost function ThenPositions<S, T>(f: S -> Step, xs: seq<S>, g: T -> Step, ys: seq<T>): (p: seq<Origin>)
    requires Then(Accumulate(f, xs), Accumulate(g, ys)).Done?
    ensures |p| == |Then(Accumulate(f, xs), Accumulate(g, ys)).records|
    ensures forall k :: 0 <= k < |p| ==> Yields(f, xs, g, ys, p[k], Then(Accumulate(f, xs), Accumulate(g, ys)).records[k])
    ensures forall k, l :: 0 <= k < l < |p| ==> Precedes(p[k], p[l])
    ensures forall i :: 0 <= i < |xs| && f(xs[i]).Keep? ==> First(i) in p
    ensures forall j :: 0 <= j < |ys| && g(ys[j]).Keep? ==> Second(j) in p
  {
    var pa := Positions(f, xs);
    var pb := Positions(g, ys);
    var p := Tagged(pa, pb);
    assert Then(Accumulate(f, xs), Accumulate(g, ys)).records
        == Accumulate(f, xs).records + Accumulate(g, ys).records;
    TaggedYields(f, xs, g, ys, pa, pb);
    TaggedOrder(pa, pb);
    TaggedComplete(f, xs, g, ys, pa, pb);
    p
  }

  /** The positions `pa` of a first run followed by the positions `pb` of a
      second, each tagged with its run. */
  function Tagged(pa: seq<nat>, pb: seq<nat>): (p: seq<Origin>)
    ensures |p| == |pa| + |pb|
    ensures forall k :: 0 <= k < |pa| ==> p[k] == First(pa[k])
    ensures forall k :: 0 <= k < |pb| ==> p[|pa| + k] == Second(pb[k])
    decreases |pb|, |pa|
  {
    if pb == [] then
      if pa == [] then [] else Tagged(pa[..|pa| - 1], []) + [First(pa[|pa| - 1])]
    else Tagged(pa, pb[..|pb| - 1]) + [Second(pb[|pb| - 1])]
  }

  lemma TaggedYields<S, T>(f: S -> Step, xs: seq<S>, g: T -> Step, ys: seq<T>, pa: seq<nat>, pb: seq<nat>)
    requires Accumulate(f, xs).Done? && Accumulate(g, ys).Done?
    requires pa == Positions(f, xs) && pb == Positions(g, ys)
    ensures forall k :: 0 <= k < |pa| + |pb| ==>
      Yields(f, xs, g, ys, Tagged(pa, pb)[k], (Accumulate(f, xs).records + Accumulate(g, ys).records)[k])
  {
    var a, b, p := Accumulate(f, xs).records, Accumulate(g, ys).records, Tagged(pa, pb);
    forall k | 0 <= k < |pa| ensures Yields(f, xs, g, ys, p[k], (a + b)[k]) {
      assert p[k] == First(pa[k]) && (a + b)[k] == a[k];
    }
    forall k | |pa| <= k < |pa| + |pb| ensures Yields(f, xs, g, ys, p[k], (a + b)[k]) {
      assert p[k] == Second(pb[k - |pa|]) && (a + b)[k] == b[k - |pa|];
    }
  }

  lemma TaggedOrder(pa: seq<nat>, pb: seq<nat>)
    requires forall k, l :: 0 <= k < l < |pa| ==> pa[k] < pa[l]
    requires forall k, l :: 0 <= k < l < |pb| ==> pb[k] < pb[l]
    ensures forall k, l :: 0 <= k < l < |pa| + |pb| ==> Precedes(Tagged(pa, pb)[k], Tagged(pa, pb)[l])
  {
    var p := Tagged(pa, pb);
    forall k, l | 0 <= k < l < |p| ensures Precedes(p[k], p[l]) {
      if l < |pa| {
        assert p[k] == First(pa[k]) && p[l] == First(pa[l]);
      } else if k < |pa| {
        assert p[k] == First(pa[k]) && p[l] == Second(pb[l - |pa|]);
      } else {
        assert p[k] == Second(pb[k - |pa|]) && p[l] == Second(pb[l - |pa|]);
      }
    }
  }

  lemma TaggedComplete<S, T>(f: S -> Step, xs: seq<S>, g: T -> Step, ys: seq<T>, pa: seq<nat>, pb: seq<nat>)
    requires Accumulate(f, xs).Done? && Accumulate(g, ys).Done?
    requires pa == Positions(f, xs) && pb == Positions(g, ys)
    ensures forall i :: 0 <= i < |xs| && f(xs[i]).Keep? ==> First(i) in Tagged(pa, pb)
    ensures forall j :: 0 <= j < |ys| && g(ys[j]).Keep? ==> Second(j) in Tagged(pa, pb)
  {
    var p := Tagged(pa, pb);
    forall i | 0 <= i < |xs| && f(xs[i]).Keep? ensures First(i) in p {
      var k :| 0 <= k < |pa| && pa[k] == i;
      assert p[k] == First(i);
    }
    forall j | 0 <= j < |ys| && g(ys[j]).Keep? ensures Second(j) in p {
      var k :| 0 <= k < |pb| && pb[k] == j;
      assert p[|pa| + k] == Second(j);
    }
  }
}
