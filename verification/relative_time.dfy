/** RelativeTime of lib/time_span.rb: a point bound to one timeline, ordered
    against other points only through that timeline's index. */
module RelativeTimes {
  import opened Outcomes
  import opened TimeLines

  /** Every timeline object there is, by identity. A point reaches its
      timeline through this map. */
  type World = map<LineId, TimeLine>

  /** Every timeline is stored under its own identity and is consistent. */
  ghost predicate WorldValid(w: World) {
    forall k :: k in w ==> w[k].id == k && Valid(w[k])
  }

  /** `p` occupies some slot of `line`. */
  ghost predicate Occupies(line: seq<Slot>, p: Point) {
    exists i :: 0 <= i < |line| && p in line[i]
  }

  /** `positioned?`: the point has a timeline and that timeline's index
      includes it. On a consistent world that is the same as the point
      occupying a slot of its own timeline. */
  function Positioned(w: World, p: Point): (r: bool)
    ensures WorldValid(w) ==>
      (r <==> p.timeline.Some? && p.timeline.value in w && Occupies(w[p.timeline.value].line, p))
  {
    p.timeline.Some? && p.timeline.value in w && PositionOf(w[p.timeline.value], p).Some?
  }

  /** `colinear_with?`: both points are positioned on the identical
      timeline, so on a consistent world both occupy slots of that one
      timeline. */
  function ColinearWith(w: World, a: Point, b: Point): (r: bool)
    ensures r ==> a.timeline.Some? && a.timeline.value in w
    ensures WorldValid(w) ==>
      (r <==> a.timeline == b.timeline && a.timeline.Some? && a.timeline.value in w
              && Occupies(w[a.timeline.value].line, a) && Occupies(w[a.timeline.value].line, b))
  {
    Positioned(w, b) && Positioned(w, a) && a.timeline == b.timeline
  }

  /** `valid_and_comparable_with?`: both timelines are non-nil and the
      points are colinear. The nil checks add nothing: a colinear point
      already has a timeline. */
  function ValidAndComparableWith(w: World, a: Point, b: Point): (r: bool)
    ensures r <==> ColinearWith(w, a, b)
  {
    a.timeline.Some? && b.timeline.Some? && ColinearWith(w, a, b)
  }

  /** `timeline.position_of(p)` for a positioned point: on a consistent
      world, the slot it names holds the point. */
  function Position(w: World, p: Point): (r: int)
    requires Positioned(w, p)
    ensures WorldValid(w) ==> 0 <= r < |w[p.timeline.value].line| && p in w[p.timeline.value].line[r]
  {
    PositionOf(w[p.timeline.value], p).value
  }

  /** The six comparators `<`, `<=`, `==`, `!=`, `>=`, `>`. */
  datatype Comparison = Less | AtMost | Same | Differs | AtLeast | Greater

  /** The integer comparison each comparator forwards to. Each comparator
      accepts a fixed subset of the three outcomes below, equal and above. */
  function Holds(op: Comparison, x: int, y: int): (r: bool)
    ensures x < y ==> (r <==> op in {Less, AtMost, Differs})
    ensures x == y ==> (r <==> op in {AtMost, Same, AtLeast})
    ensures x > y ==> (r <==> op in {Differs, AtLeast, Greater})
  {
    match op
    case Less => x < y
    case AtMost => x <= y
    case Same => x == y
    case Differs => x != y
    case AtLeast => x >= y
    case Greater => x > y
  }

  /** `a` occupies an earlier slot of `line` than `b`. */
  ghost predicate SlotBefore(line: seq<Slot>, a: Point, b: Point) {
    exists i, j :: 0 <= i < j < |line| && a in line[i] && b in line[j]
  }

  /** `a` and `b` occupy one and the same slot of `line`. */
  ghost predicate SlotTogether(line: seq<Slot>, a: Point, b: Point) {
    exists i :: 0 <= i < |line| && a in line[i] && b in line[i]
  }

  /** What each comparator means in terms of the slot list alone. */
  ghost predicate SlotOrdered(op: Comparison, line: seq<Slot>, a: Point, b: Point) {
    match op
    case Less => SlotBefore(line, a, b)
    case AtMost => !SlotBefore(line, b, a)
    case Same => SlotTogether(line, a, b)
    case Differs => !SlotTogether(line, a, b)
    case AtLeast => !SlotBefore(line, a, b)
    case Greater => SlotBefore(line, b, a)
  }

  /** On a consistent timeline, comparing index entries is comparing slots. */
  lemma PositionOrderIsSlotOrder(tl: TimeLine, a: Point, b: Point)
    requires Valid(tl)
    requires a in tl.index && b in tl.index
    ensures tl.index[a] < tl.index[b] <==> SlotBefore(tl.line, a, b)
    ensures tl.index[a] == tl.index[b] <==> SlotTogether(tl.line, a, b)
  {
    var i, j := tl.index[a], tl.index[b];
    assert a in tl.line[i] && b in tl.line[j];
    if SlotBefore(tl.line, a, b) {
      var i', j' :| 0 <= i' < j' < |tl.line| && a in tl.line[i'] && b in tl.line[j'];
      assert i == i' && j == j';
    }
    if SlotTogether(tl.line, a, b) {
      var i' :| 0 <= i' < |tl.line| && a in tl.line[i'] && b in tl.line[i'];
      assert i == i' && j == i';
    }
  }

  /** A comparator on two RelativeTimes: raises unless the points are
      colinear; otherwise compares their positions, which on a consistent
      timeline is comparing the slots they occupy. */
  function Compare(w: World, op: Comparison, a: Point, b: Point): (r: Result<bool>)
    ensures r.Ok? <==> ColinearWith(w, a, b)
    ensures r.Err? ==> r.error == NotComparable
    ensures WorldValid(w) && r.Ok? ==> (r.value <==> SlotOrdered(op, w[a.timeline.value].line, a, b))
  {
    if !ValidAndComparableWith(w, a, b) then Err(NotComparable)
    else
      var tl := w[a.timeline.value];
      var r := Holds(op, Position(w, a), Position(w, b));
      assert WorldValid(w) ==> (r <==> SlotOrdered(op, tl.line, a, b)) by {
        if WorldValid(w) {
          PositionOrderIsSlotOrder(tl, a, b);
          PositionOrderIsSlotOrder(tl, b, a);
        }
      }
      Ok(r)
  }

  /** `colinear_with?` is symmetric. */
  lemma ColinearWithSymmetric(w: World, a: Point, b: Point)
    ensures ColinearWith(w, a, b) <==> ColinearWith(w, b, a)
  {
  }

  /** Each comparator and its mirror image agree, including on failure:
      `a < b` is `b > a`, `a <= b` is `b >= a`, `==` and `!=` are symmetric. */
  lemma CompareConverse(w: World, a: Point, b: Point)
    ensures Compare(w, Less, a, b) == Compare(w, Greater, b, a)
    ensures Compare(w, AtMost, a, b) == Compare(w, AtLeast, b, a)
    ensures Compare(w, Same, a, b) == Compare(w, Same, b, a)
    ensures Compare(w, Differs, a, b) == Compare(w, Differs, b, a)
  {
  }

  /** `<=` is `<` or `==`, and `!=` is the negation of `==`. */
  lemma CompareNonStrict(w: World, a: Point, b: Point)
    requires ColinearWith(w, a, b)
    ensures Compare(w, AtMost, a, b).value <==> Compare(w, Less, a, b).value || Compare(w, Same, a, b).value
    ensures Compare(w, AtLeast, a, b).value <==> Compare(w, Greater, a, b).value || Compare(w, Same, a, b).value
    ensures Compare(w, Differs, a, b).value <==> !Compare(w, Same, a, b).value
  {
  }

  /** Colinear points are totally ordered: exactly one of `<`, `==`, `>`. */
  lemma CompareTrichotomy(w: World, a: Point, b: Point)
    requires ColinearWith(w, a, b)
    ensures Compare(w, Less, a, b).value || Compare(w, Same, a, b).value || Compare(w, Greater, a, b).value
    ensures !(Compare(w, Less, a, b).value && Compare(w, Greater, a, b).value)
    ensures !(Compare(w, Same, a, b).value && (Compare(w, Less, a, b).value || Compare(w, Greater, a, b).value))
  {
  }

  /** a before b before c gives a before c. */
  lemma LessTransitive(w: World, a: Point, b: Point, c: Point)
    requires Compare(w, Less, a, b) == Ok(true) && Compare(w, Less, b, c) == Ok(true)
    ensures Compare(w, Less, a, c) == Ok(true)
  {
  }
}
