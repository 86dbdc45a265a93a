/** TimeSpan of lib/time_span.rb: a pair of RelativeTimes on one timeline,
    with comparators on single endpoints and relations between spans built
    from them. */
module TimeSpans {
  import opened Outcomes
  import opened TimeLines
  import opened RelativeTimes

  datatype TimeSpan = TimeSpan(starts: Point, ends: Point)

  /** `TimeSpan.new`: refuses endpoints that are not positioned on one
      timeline. Their order is not checked. */
  function NewSpan(w: World, s: Point, e: Point): (r: Result<TimeSpan>)
    ensures r.Ok? <==> ColinearWith(w, s, e)
    ensures r.Err? ==> r.error == NotColinear
    ensures r.Ok? ==> r.value.starts == s && r.value.ends == e
  {
    if ColinearWith(w, s, e) then Ok(TimeSpan(s, e)) else Err(NotColinear)
  }

  /** `starting_at <= ending_at`, the value the constructor computes last
      and discards: the start does not occupy a later slot than the end. */
  function Ordered(w: World, x: TimeSpan): (r: bool)
    ensures r ==> ColinearWith(w, x.starts, x.ends)
    ensures WorldValid(w) && ColinearWith(w, x.starts, x.ends) ==>
      (r <==> !SlotBefore(w[x.starts.timeline.value].line, x.ends, x.starts))
  {
    Compare(w, AtMost, x.starts, x.ends) == Ok(true)
  }

  // Comparators on single endpoints. Each fails exactly when the two
  // endpoints it looks at are not positioned on one timeline, and each
  // strict or non-strict one is the mirror image of another.

  /** `starts_before?` */
  function StartsBefore(w: World, x: TimeSpan, y: TimeSpan): (r: Result<bool>)
    ensures r.Ok? <==> ColinearWith(w, x.starts, y.starts)
    ensures r == StartsAfter(w, y, x)
  {
    Compare(w, Less, x.starts, y.starts)
  }

  /** `starts_after?` */
  function StartsAfter(w: World, x: TimeSpan, y: TimeSpan): (r: Result<bool>)
    ensures r.Ok? <==> ColinearWith(w, x.starts, y.starts)
    ensures WorldValid(w) && r.Ok? ==>
      (r.value <==> SlotBefore(w[y.starts.timeline.value].line, y.starts, x.starts))
  {
    Compare(w, Greater, x.starts, y.starts)
  }

  /** `starts_on_or_after?` */
  function StartsOnOrAfter(w: World, x: TimeSpan, y: TimeSpan): (r: Result<bool>)
    ensures r.Ok? <==> ColinearWith(w, x.starts, y.starts)
    ensures r == Not(StartsBefore(w, x, y))
  {
    Compare(w, AtLeast, x.starts, y.starts)
  }

  /** `starts_with?` */
  function StartsWith(w: World, x: TimeSpan, y: TimeSpan): (r: Result<bool>)
    ensures r.Ok? <==> ColinearWith(w, x.starts, y.starts)
    ensures r.Ok? ==> (r.value <==> Position(w, x.starts) == Position(w, y.starts))
  {
    Compare(w, Same, x.starts, y.starts)
  }

  /** `starts_before_or_with?` */
  function StartsBeforeOrWith(w: World, x: TimeSpan, y: TimeSpan): (r: Result<bool>)
    ensures r.Ok? <==> ColinearWith(w, x.starts, y.starts)
    ensures r == StartsOnOrAfter(w, y, x)
    ensures r == Not(StartsAfter(w, x, y))
  {
    Compare(w, AtMost, x.starts, y.starts)
  }

  /** `ends_before?` */
  function EndsBefore(w: World, x: TimeSpan, y: TimeSpan): (r: Result<bool>)
    ensures r.Ok? <==> ColinearWith(w, x.ends, y.ends)
    ensures r == EndsAfter(w, y, x)
  {
    Compare(w, Less, x.ends, y.ends)
  }

  /** `ends_on_or_before?` */
  function EndsOnOrBefore(w: World, x: TimeSpan, y: TimeSpan): (r: Result<bool>)
    ensures r.Ok? <==> ColinearWith(w, x.ends, y.ends)
    ensures r == EndsOnOrAfter(w, y, x)
    ensures r == Not(EndsAfter(w, x, y))
  {
    Compare(w, AtMost, x.ends, y.ends)
  }

  /** `ends_on_or_after?` */
  function EndsOnOrAfter(w: World, x: TimeSpan, y: TimeSpan): (r: Result<bool>)
    ensures r.Ok? <==> ColinearWith(w, x.ends, y.ends)
    ensures r == Not(EndsBefore(w, x, y))
  {
    Compare(w, AtLeast, x.ends, y.ends)
  }

  /** `ends_after?` */
  function EndsAfter(w: World, x: TimeSpan, y: TimeSpan): (r: Result<bool>)
    ensures r.Ok? <==> ColinearWith(w, x.ends, y.ends)
    ensures WorldValid(w) && r.Ok? ==>
      (r.value <==> SlotBefore(w[y.ends.timeline.value].line, y.ends, x.ends))
  {
    Compare(w, Greater, x.ends, y.ends)
  }

  /** `ends_with?` */
  function EndsWith(w: World, x: TimeSpan, y: TimeSpan): (r: Result<bool>)
    ensures r.Ok? <==> ColinearWith(w, x.ends, y.ends)
    ensures r.Ok? ==> (r.value <==> Position(w, x.ends) == Position(w, y.ends))
  {
    Compare(w, Same, x.ends, y.ends)
  }

  /** `ends_before_other_starts?` */
  function EndsBeforeOtherStarts(w: World, x: TimeSpan, y: TimeSpan): (r: Result<bool>)
    ensures r.Ok? <==> ColinearWith(w, x.ends, y.starts)
    ensures r == StartsAfterOtherEnds(w, y, x)
  {
    Compare(w, Less, x.ends, y.starts)
  }

  /** `ends_as_other_starts?` */
  function EndsAsOtherStarts(w: World, x: TimeSpan, y: TimeSpan): (r: Result<bool>)
    ensures r.Ok? <==> ColinearWith(w, x.ends, y.starts)
    ensures r == StartsAsOtherEnds(w, y, x)
  {
    Compare(w, Same, x.ends, y.starts)
  }

  /** `starts_after_other_ends?` */
  function StartsAfterOtherEnds(w: World, x: TimeSpan, y: TimeSpan): (r: Result<bool>)
    ensures r.Ok? <==> ColinearWith(w, x.starts, y.ends)
    ensures WorldValid(w) && r.Ok? ==>
      (r.value <==> SlotBefore(w[y.ends.timeline.value].line, y.ends, x.starts))
  {
    Compare(w, Greater, x.starts, y.ends)
  }

  /** `starts_as_other_ends?` */
  function StartsAsOtherEnds(w: World, x: TimeSpan, y: TimeSpan): (r: Result<bool>)
    ensures r.Ok? <==> ColinearWith(w, x.starts, y.ends)
    ensures r.Ok? ==> (r.value <==> Position(w, x.starts) == Position(w, y.ends))
  {
    Compare(w, Same, x.starts, y.ends)
  }

  // Relations between spans. Each is a short-circuit `&&` of two endpoint
  // comparators, so a failure of the first propagates, and a false first
  // answer hides a failure of the second.

  /** `==`: same end and same start. */
  function SpanEqual(w: World, x: TimeSpan, y: TimeSpan): (r: Result<bool>)
    ensures r == Ok(true) <==>
      ColinearWith(w, x.ends, y.ends) && ColinearWith(w, x.starts, y.starts) &&
      Position(w, x.ends) == Position(w, y.ends) && Position(w, x.starts) == Position(w, y.starts)
    ensures r.Err? <==> (!ColinearWith(w, x.ends, y.ends) ||
      (Position(w, x.ends) == Position(w, y.ends) && !ColinearWith(w, x.starts, y.starts)))
  {
    AndThen(EndsWith(w, x, y), StartsWith(w, x, y))
  }

  /** `!=` as the source writes it: its body calls `end_with`, which no class
      defines, so every call raises. */
  function SpanDiffersAsWritten(w: World, x: TimeSpan, y: TimeSpan): (r: Result<bool>)
    ensures r.Err? && r.error == UndefinedMethod
  {
    Err(UndefinedMethod)
  }

  /** `!=` as intended: `!ends_with?(b) || !starts_with?(b)`, which is the
      negation of `==`, failures included. */
  function SpanDiffers(w: World, x: TimeSpan, y: TimeSpan): (r: Result<bool>)
    ensures r == Not(SpanEqual(w, x, y))
  {
    OrElse(Not(EndsWith(w, x, y)), Not(StartsWith(w, x, y)))
  }

  /** On a span compared with itself, the intended `!=` answers false while
      the source's `!=` raises. */
  lemma SpanDiffersAsWrittenRaises(w: World, x: TimeSpan)
    requires Positioned(w, x.starts) && Positioned(w, x.ends)
    ensures SpanDiffers(w, x, x) == Ok(false)
    ensures SpanDiffersAsWritten(w, x, x) == Err(UndefinedMethod)
  {
    SpanEqualReflexive(w, x);
  }

  /** `<`: this span ends before the other starts. */
  function Precedes(w: World, x: TimeSpan, y: TimeSpan): (r: Result<bool>)
    ensures r.Ok? <==> ColinearWith(w, x.ends, y.starts)
    ensures WorldValid(w) && r.Ok? ==>
      (r.value <==> SlotBefore(w[x.ends.timeline.value].line, x.ends, y.starts))
    ensures r == Follows(w, y, x)
  {
    EndsBeforeOtherStarts(w, x, y)
  }

  /** `>`: this span starts after the other ends. */
  function Follows(w: World, x: TimeSpan, y: TimeSpan): (r: Result<bool>)
    ensures r.Ok? <==> ColinearWith(w, x.starts, y.ends)
    ensures WorldValid(w) && r.Ok? ==>
      (r.value <==> SlotBefore(w[y.ends.timeline.value].line, y.ends, x.starts))
  {
    StartsAfterOtherEnds(w, x, y)
  }

  /** `contained_fully_inside?`: starts strictly after and ends strictly
      before the other. */
  function ContainedFullyInside(w: World, x: TimeSpan, y: TimeSpan): (r: Result<bool>)
    ensures r == Ok(true) <==>
      ColinearWith(w, x.starts, y.starts) && ColinearWith(w, x.ends, y.ends) &&
      Position(w, x.starts) > Position(w, y.starts) && Position(w, x.ends) < Position(w, y.ends)
    ensures r.Err? <==> (!ColinearWith(w, x.starts, y.starts) ||
      (Position(w, x.starts) > Position(w, y.starts) && !ColinearWith(w, x.ends, y.ends)))
  {
    AndThen(StartsAfter(w, x, y), EndsBefore(w, x, y))
  }

  /** `contained_inside?`: starts on or after and ends on or before the
      other. */
  function ContainedInside(w: World, x: TimeSpan, y: TimeSpan): (r: Result<bool>)
    ensures r == Ok(true) <==>
      ColinearWith(w, x.starts, y.starts) && ColinearWith(w, x.ends, y.ends) &&
      Position(w, x.starts) >= Position(w, y.starts) && Position(w, x.ends) <= Position(w, y.ends)
    ensures r.Err? <==> (!ColinearWith(w, x.starts, y.starts) ||
      (Position(w, x.starts) >= Position(w, y.starts) && !ColinearWith(w, x.ends, y.ends)))
  {
    AndThen(StartsOnOrAfter(w, x, y), EndsOnOrBefore(w, x, y))
  }

  /** `contains_fully?`: starts strictly before and ends strictly after the
      other. */
  function ContainsFully(w: World, x: TimeSpan, y: TimeSpan): (r: Result<bool>)
    ensures r == ContainedFullyInside(w, y, x)
  {
    AndThen(StartsBefore(w, x, y), EndsAfter(w, x, y))
  }

  /** `contains?`: starts on or before and ends on or after the other. */
  function Contains(w: World, x: TimeSpan, y: TimeSpan): (r: Result<bool>)
    ensures r == ContainedInside(w, y, x)
  {
    AndThen(StartsBeforeOrWith(w, x, y), EndsOnOrAfter(w, x, y))
  }

  /** `TimeSpan.new` does not order its endpoints: whenever a span can be
      built, the reversed span can be built too. */
  lemma NewSpanIgnoresOrder(w: World, s: Point, e: Point)
    requires NewSpan(w, s, e).Ok?
    ensures NewSpan(w, e, s).Ok?
  {
  }

  /** Once the colinearity check has passed, the constructor's closing
      `starting_at <= ending_at` cannot raise, and of a span and its
      reverse at least one is ordered. */
  lemma NewSpanComparesEnds(w: World, s: Point, e: Point)
    requires NewSpan(w, s, e).Ok?
    ensures Compare(w, AtMost, s, e).Ok?
    ensures Ordered(w, NewSpan(w, s, e).value) || Ordered(w, NewSpan(w, e, s).value)
  {
  }

  /** A span whose endpoints are positioned equals itself. */
  lemma SpanEqualReflexive(w: World, x: TimeSpan)
    requires Positioned(w, x.starts) && Positioned(w, x.ends)
    ensures SpanEqual(w, x, x) == Ok(true)
  {
  }

  /** `==` on spans is symmetric, failures included. */
  lemma SpanEqualSymmetric(w: World, x: TimeSpan, y: TimeSpan)
    ensures SpanEqual(w, x, y) == SpanEqual(w, y, x)
  {
  }

  /** `==` on spans is transitive. */
  lemma SpanEqualTransitive(w: World, x: TimeSpan, y: TimeSpan, z: TimeSpan)
    requires SpanEqual(w, x, y) == Ok(true) && SpanEqual(w, y, z) == Ok(true)
    ensures SpanEqual(w, x, z) == Ok(true)
  {
  }

  /** Full containment implies containment, in both readings. */
  lemma StrictContainmentIsContainment(w: World, x: TimeSpan, y: TimeSpan)
    ensures ContainsFully(w, x, y) == Ok(true) ==> Contains(w, x, y) == Ok(true)
    ensures ContainedFullyInside(w, x, y) == Ok(true) ==> ContainedInside(w, x, y) == Ok(true)
  {
  }

  /** Between ordered spans, one that precedes the other cannot also follow
      it, and cannot contain it. */
  lemma PrecedesExcludesFollowsAndContains(w: World, x: TimeSpan, y: TimeSpan)
    requires Ordered(w, x) && Ordered(w, y)
    requires Precedes(w, x, y) == Ok(true)
    ensures Follows(w, x, y) == Ok(false)
    ensures Contains(w, x, y) != Ok(true)
  {
  }

  /** Containment is transitive. */
  lemma ContainsTransitive(w: World, x: TimeSpan, y: TimeSpan, z: TimeSpan)
    requires Contains(w, x, y) == Ok(true) && Contains(w, y, z) == Ok(true)
    ensures Contains(w, x, z) == Ok(true)
  {
  }

  /** Once an endpoint is removed from its timeline, a comparator that reads
      it fails instead of answering. */
  lemma RemovedEndpointNotComparable(w: World, x: TimeSpan, y: TimeSpan)
    requires WorldValid(w)
    requires x.starts.timeline.Some? && x.starts.timeline.value in w
    ensures var k := x.starts.timeline.value;
      StartsBefore(w[k := Remove(w[k], x.starts)], x, y) == Err(NotComparable)
  {
  }

  /** A world holding the single timeline 0 whose first `n` slots hold the
      points 0, 1, ..., n - 1 of that timeline, one per slot, in order. */
  function OnePerSlot(n: nat): World {
    map[0 := TimeLine(0, seq(n, i requires 0 <= i < n => {Pt(i)}), map p | p in (set i: nat | i < n :: Pt(i)) :: p.id as int)]
  }

  /** Point `k` sits at position `k`. */
  lemma OnePerSlotPositions(n: nat)
    ensures forall k: nat :: k < n ==> Positioned(OnePerSlot(n), Pt(k)) && Position(OnePerSlot(n), Pt(k)) == k
  {
    var ix := OnePerSlot(n)[0].index;
    forall k: nat | k < n
      ensures Pt(k) in ix && ix[Pt(k)] == k
    {
      assert Pt(k) in ix;
    }
  }

  /** The point with identity `i` of timeline 0. */
  function Pt(i: nat): Point {
    Point(i, Some(0))
  }

  /** The single-endpoint scenario: alpha runs from its start to its end,
      and beta starts after alpha starts and ends with alpha. */
  lemma SingleEndpointScenario()
    ensures var w := OnePerSlot(3);
      var alpha := TimeSpan(Pt(0), Pt(2));
      var beta := TimeSpan(Pt(1), Pt(2));
      && StartsBefore(w, alpha, beta) == Ok(true)
      && EndsWith(w, alpha, beta) == Ok(true)
      && StartsAfter(w, alpha, beta) == Ok(false)
      && StartsWith(w, alpha, beta) == Ok(false)
      && EndsBefore(w, alpha, beta) == Ok(false)
      && EndsAfter(w, alpha, beta) == Ok(false)
      && EndsBeforeOtherStarts(w, alpha, beta) == Ok(false)
      && EndsAsOtherStarts(w, alpha, beta) == Ok(false)
      && StartsAfterOtherEnds(w, alpha, beta) == Ok(false)
      && StartsAsOtherEnds(w, alpha, beta) == Ok(false)
  {
    OnePerSlotPositions(3);
  }

  /** The span scenarios: on one timeline, in this order, the earliest
      point (0), a point before alpha starts (1), alpha's start (2), a point
      after alpha starts (3), a point before alpha ends (4), alpha's end (5),
      a point right after alpha ends (6) and the last point (7). */
  lemma SpanScenarios()
    ensures var w := OnePerSlot(8);
      var alpha := TimeSpan(Pt(2), Pt(5));
      && SpanEqual(w, alpha, TimeSpan(Pt(2), Pt(5))) == Ok(true)
      && Precedes(w, alpha, TimeSpan(Pt(6), Pt(7))) == Ok(true)
      && Follows(w, alpha, TimeSpan(Pt(0), Pt(1))) == Ok(true)
      && ContainedFullyInside(w, alpha, TimeSpan(Pt(0), Pt(7))) == Ok(true)
      && ContainedInside(w, alpha, TimeSpan(Pt(2), Pt(7))) == Ok(true)
      && ContainsFully(w, alpha, TimeSpan(Pt(3), Pt(4))) == Ok(true)
      && Contains(w, alpha, TimeSpan(Pt(3), Pt(5))) == Ok(true)
      && ContainedFullyInside(w, alpha, TimeSpan(Pt(2), Pt(7))) == Ok(false)
      && ContainsFully(w, alpha, TimeSpan(Pt(3), Pt(5))) == Ok(false)
  {
    OnePerSlotPositions(8);
  }

  /** A point positioned on another timeline cannot end a span. */
  lemma ForeignEndpointRefused(w: World, s: Point, f: Point)
    requires Positioned(w, s) && Positioned(w, f) && s.timeline != f.timeline
    ensures NewSpan(w, s, f) == Err(NotColinear)
  {
  }
}
