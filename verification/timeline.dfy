/** The TimeLine of lib/time_span.rb: an ordered list of slots, each the set
    of points that happen at the same time, plus an index from every placed
    point to the number of its slot. The model is a value; every operation
    returns the timeline it leaves behind. */
module TimeLines {
  import opened Outcomes

  /** Identity of a timeline object. */
  type LineId = nat

  /** A RelativeTime: an opaque identity and the timeline it was created
      for (`None` models a point created with a nil timeline). Its display
      payload plays no part in ordering and is not modelled. */
  datatype Point = Point(id: nat, timeline: Option<LineId>)

  type Slot = set<Point>

  /** `line` is the list of slots, `index` the point-to-slot map. */
  datatype TimeLine = TimeLine(id: LineId, line: seq<Slot>, index: map<Point, int>)

  /** Slot list and index agree: every indexed point sits in the slot its
      index entry names, every slot occupant is indexed at that slot, and
      only the timeline's own points are indexed. */
  ghost predicate Valid(tl: TimeLine) {
    IndexedInSlots(tl) && SlotsIndexed(tl)
  }

  /** Every indexed point belongs to this timeline and sits in the slot its
      index entry names. */
  ghost predicate IndexedInSlots(tl: TimeLine) {
    forall p :: p in tl.index ==>
      && p.timeline == Some(tl.id)
      && 0 <= tl.index[p] < |tl.line|
      && p in tl.line[tl.index[p]]
  }

  /** Every slot occupant is indexed at its slot. */
  ghost predicate SlotsIndexed(tl: TimeLine) {
    forall i, p :: 0 <= i < |tl.line| && p in tl.line[i] ==> p in tl.index && tl.index[p] == i
  }

  /** `TimeLine.new`: no slots, nothing indexed. */
  function NewTimeLine(id: LineId): (tl: TimeLine)
    ensures Valid(tl) && tl.id == id
    ensures |tl.line| == 0
    ensures forall p :: p !in tl.index
  {
    TimeLine(id, [], map[])
  }

  /** `position_of`: the slot number of `p`, or nil when it is not placed. */
  function PositionOf(tl: TimeLine, p: Point): (r: Option<int>)
    ensures r.Some? <==> p in tl.index
    ensures Valid(tl) && r.Some? ==> 0 <= r.value < |tl.line| && p in tl.line[r.value]
    ensures Valid(tl) && r.None? ==> forall i :: 0 <= i < |tl.line| ==> p !in tl.line[i]
  {
    if p in tl.index then Some(tl.index[p]) else None
  }

  /** `increase_after(pos, amount)`: shift the index entries at or after `pos`
      by `amount`; the slot list is left to the caller. */
  function IncreaseAfter(tl: TimeLine, pos: int, amount: int): (r: TimeLine)
    ensures r.id == tl.id && r.line == tl.line
    ensures r.index.Keys == tl.index.Keys
    ensures forall p :: p in tl.index && tl.index[p] >= pos ==> r.index[p] == tl.index[p] + amount
    ensures forall p :: p in tl.index && tl.index[p] < pos ==> r.index[p] == tl.index[p]
  {
    tl.(index := map p | p in tl.index :: if tl.index[p] >= pos then tl.index[p] + amount else tl.index[p])
  }

  /** `insert_at(pos, p)`: add `p` to the slot at `pos` (a new last slot when
      `pos` is one past the end) and index it there. Raises unless `p`
      belongs to this timeline. */
  function InsertAt(tl: TimeLine, pos: int, p: Point): (r: Result<TimeLine>)
    requires Valid(tl)
    requires 0 <= pos <= |tl.line|
    requires p !in tl.index
    ensures r.Ok? <==> p.timeline == Some(tl.id)
    ensures r.Err? ==> r.error == ForeignPoint
    ensures r.Ok? ==> Valid(r.value) && r.value.id == tl.id
    ensures r.Ok? ==> PositionOf(r.value, p) == Some(pos) && p in r.value.line[pos]
    ensures r.Ok? ==> r.value.line[pos] == (if pos < |tl.line| then tl.line[pos] else {}) + {p}
    ensures r.Ok? ==> r.value.index.Keys == tl.index.Keys + {p}
    ensures r.Ok? ==> forall q :: q in tl.index ==> r.value.index[q] == tl.index[q]
    ensures r.Ok? ==> |r.value.line| == (if pos == |tl.line| then |tl.line| + 1 else |tl.line|)
    ensures r.Ok? ==> forall i :: 0 <= i < |tl.line| && i != pos ==> r.value.line[i] == tl.line[i]
  {
    if p.timeline != Some(tl.id) then Err(ForeignPoint)
    else
      PlacedKeepsValid(tl, pos, p);
      Ok(Placed(tl, pos, p))
  }

  /** The timeline a successful `insert_at(pos, p)` leaves: `@line[pos]` is
      nil one past the end and becomes `[p]`; otherwise `p` joins that slot. */
  function Placed(tl: TimeLine, pos: int, p: Point): (r: TimeLine)
    requires 0 <= pos <= |tl.line|
    ensures r.id == tl.id && r.index == tl.index[p := pos]
    ensures |r.line| == (if pos == |tl.line| then |tl.line| + 1 else |tl.line|)
    ensures r.line[pos] == (if pos < |tl.line| then tl.line[pos] else {}) + {p}
    ensures forall i :: 0 <= i < |tl.line| && i != pos ==> r.line[i] == tl.line[i]
  {
    if pos == |tl.line| then TimeLine(tl.id, tl.line + [{p}], tl.index[p := pos])
    else TimeLine(tl.id, tl.line[pos := tl.line[pos] + {p}], tl.index[p := pos])
  }

  lemma PlacedKeepsValid(tl: TimeLine, pos: int, p: Point)
    requires Valid(tl)
    requires 0 <= pos <= |tl.line|
    requires p !in tl.index && p.timeline == Some(tl.id)
    ensures Valid(Placed(tl, pos, p))
  {
    var t := Placed(tl, pos, p);
    forall q | q in t.index
      ensures q.timeline == Some(t.id) && 0 <= t.index[q] < |t.line| && q in t.line[t.index[q]]
    {
      if q != p {
        assert q in tl.line[tl.index[q]];
      }
    }
    forall i, q | 0 <= i < |t.line| && q in t.line[i]
      ensures q in t.index && t.index[q] == i
    {
      if q != p {
        assert q in tl.line[i];
      }
    }
  }

  /** `append(p)`: `p` alone in a new last slot, later than every point
      already placed. */
  function Append(tl: TimeLine, p: Point): (r: Result<TimeLine>)
    requires Valid(tl)
    requires p !in tl.index
    ensures r.Ok? <==> p.timeline == Some(tl.id)
    ensures r.Err? ==> r.error == ForeignPoint
    ensures r.Ok? ==> Valid(r.value) && r.value.id == tl.id
    ensures r.Ok? ==> r.value.line == tl.line + [{p}]
    ensures r.Ok? ==> r.value.index == tl.index[p := |tl.line|]
    ensures r.Ok? ==> forall q :: q in tl.index ==> r.value.index[q] < r.value.index[p]
  {
    InsertAt(tl, |tl.line|, p)
  }

  /** The points `ps` appended one after the other, as repeated `append`
      calls; fails as soon as one of them belongs to another timeline. */
  function AppendAll(tl: TimeLine, ps: seq<Point>): (r: Result<TimeLine>)
    requires Valid(tl)
    requires forall i :: 0 <= i < |ps| ==> ps[i] !in tl.index
    requires forall i, j :: 0 <= i < j < |ps| ==> ps[i] != ps[j]
    ensures r.Ok? <==> forall i :: 0 <= i < |ps| ==> ps[i].timeline == Some(tl.id)
    ensures r.Ok? ==> Valid(r.value) && r.value.id == tl.id
    decreases |ps|
  {
    if |ps| == 0 then Ok(tl)
    else
      match Append(tl, ps[0])
      case Err(e) => Err(e)
      case Ok(t) =>
        var rest := ps[1..];
        assert forall i :: 0 <= i < |rest| ==> rest[i] == ps[i + 1] && rest[i] != ps[0];
        AppendAll(t, rest)
  }

  /** Repeated appends put each point alone in its own new slot, in call
      order, so their positions strictly increase; earlier points keep their
      slots and positions. */
  lemma {:induction false} AppendAllPlacesInOrder(tl: TimeLine, ps: seq<Point>)
    requires Valid(tl)
    requires forall i :: 0 <= i < |ps| ==> ps[i] !in tl.index
    requires forall i, j :: 0 <= i < j < |ps| ==> ps[i] != ps[j]
    requires forall i :: 0 <= i < |ps| ==> ps[i].timeline == Some(tl.id)
    ensures AppendAll(tl, ps).Ok?
    ensures var t := AppendAll(tl, ps).value;
      && |t.line| == |tl.line| + |ps|
      && (forall i :: 0 <= i < |tl.line| ==> t.line[i] == tl.line[i])
      && (forall i :: 0 <= i < |ps| ==> t.line[|tl.line| + i] == {ps[i]})
      && (forall q :: q in tl.index ==> q in t.index && t.index[q] == tl.index[q])
      && (forall i :: 0 <= i < |ps| ==> ps[i] in t.index && t.index[ps[i]] == |tl.line| + i)
      && (forall i, j :: 0 <= i < j < |ps| ==> t.index[ps[i]] < t.index[ps[j]])
    decreases |ps|
  {
    if |ps| > 0 {
      var t := Append(tl, ps[0]).value;
      var rest := ps[1..];
      assert forall i :: 0 <= i < |rest| ==> rest[i] == ps[i + 1] && rest[i] != ps[0];
      AppendAllPlacesInOrder(t, rest);
      var r := AppendAll(t, rest).value;
      assert AppendAll(tl, ps).value == r;
      forall i | 0 <= i < |ps|
        ensures r.line[|tl.line| + i] == {ps[i]}
        ensures ps[i] in r.index && r.index[ps[i]] == |tl.line| + i
      {
        assert |t.line| == |tl.line| + 1;
        if i > 0 {
          assert rest[i - 1] == ps[i];
          assert r.line[|t.line| + (i - 1)] == {rest[i - 1]};
        } else {
          assert r.line[|tl.line|] == t.line[|tl.line|];
          assert t.line == tl.line + [{ps[0]}];
        }
      }
    }
  }

  /** `append_to_next(a, p, relative)`: add `p` to the slot `relative` places
      after the anchor `a`, simultaneous with whatever is there already.
      Fails when `a` has no position (Ruby evaluates nil + relative). */
  function AppendToNext(tl: TimeLine, a: Point, p: Point, relative: int): (r: Result<TimeLine>)
    requires Valid(tl)
    requires p !in tl.index
    requires a in tl.index ==> 0 <= tl.index[a] + relative <= |tl.line|
    ensures a !in tl.index ==> r == Err(AnchorNotPositioned)
    ensures a in tl.index ==> (r.Ok? <==> p.timeline == Some(tl.id))
    ensures r.Err? && a in tl.index ==> r.error == ForeignPoint
    ensures r.Ok? ==> Valid(r.value) && r.value.id == tl.id
    ensures r.Ok? ==> p in r.value.index && r.value.index[p] == tl.index[a] + relative
    ensures r.Ok? ==> r.value.index.Keys == tl.index.Keys + {p}
    ensures r.Ok? ==> forall q :: q in tl.index ==> r.value.index[q] == tl.index[q]
    ensures r.Ok? ==> forall q :: q in tl.index && tl.index[q] == tl.index[a] + relative ==> r.value.index[q] == r.value.index[p]
    ensures r.Ok? ==> |r.value.line| == (if tl.index[a] + relative == |tl.line| then |tl.line| + 1 else |tl.line|)
    ensures r.Ok? ==>
      r.value.line[tl.index[a] + relative] ==
      (if tl.index[a] + relative < |tl.line| then tl.line[tl.index[a] + relative] else {}) + {p}
    ensures r.Ok? ==> forall i :: 0 <= i < |tl.line| && i != tl.index[a] + relative ==> r.value.line[i] == tl.line[i]
  {
    if a !in tl.index then Err(AnchorNotPositioned)
    else InsertAt(tl, tl.index[a] + relative, p)
  }

  /** The first two steps of `insert_before_next`: `increase_after(at, 1)`
      and the splice of a placeholder slot at `at`. The placeholder is an
      empty slot (Ruby splices nil, which `insert_at` treats the same way). */
  function OpenSlot(tl: TimeLine, at: int): (r: TimeLine)
    requires 0 <= at <= |tl.line|
    ensures r.id == tl.id && |r.line| == |tl.line| + 1 && r.line[at] == {}
    ensures r.index.Keys == tl.index.Keys
  {
    var shifted := IncreaseAfter(tl, at, 1);
    shifted.(line := tl.line[..at] + [{}] + tl.line[at..])
  }

  /** Opening a slot keeps slot list and index consistent. */
  lemma OpenSlotKeepsValid(tl: TimeLine, at: int)
    requires Valid(tl)
    requires 0 <= at <= |tl.line|
    ensures Valid(OpenSlot(tl, at))
    ensures forall i :: 0 <= i < at ==> OpenSlot(tl, at).line[i] == tl.line[i]
    ensures forall i :: at < i <= |tl.line| ==> OpenSlot(tl, at).line[i] == tl.line[i - 1]
  {
    OpenSlotMovesSlots(tl, at);
    OpenSlotIndexedInSlots(tl, at);
    OpenSlotSlotsIndexed(tl, at);
  }

  lemma OpenSlotMovesSlots(tl: TimeLine, at: int)
    requires 0 <= at <= |tl.line|
    ensures forall i :: 0 <= i < at ==> OpenSlot(tl, at).line[i] == tl.line[i]
    ensures forall i :: at < i <= |tl.line| ==> OpenSlot(tl, at).line[i] == tl.line[i - 1]
  {
    var s := tl.line[..at] + [{}] + tl.line[at..];
    assert OpenSlot(tl, at).line == s;
    assert forall i :: 0 <= i < at ==> s[i] == tl.line[i];
    assert forall i :: at < i <= |tl.line| ==> s[i] == tl.line[i - 1];
  }

  lemma OpenSlotIndexedInSlots(tl: TimeLine, at: int)
    requires Valid(tl)
    requires 0 <= at <= |tl.line|
    ensures var r := OpenSlot(tl, at);
      forall p :: p in r.index ==> p.timeline == Some(r.id) && 0 <= r.index[p] < |r.line| && p in r.line[r.index[p]]
  {
    var r := OpenSlot(tl, at);
    OpenSlotMovesSlots(tl, at);
    forall p | p in r.index
      ensures p.timeline == Some(r.id) && 0 <= r.index[p] < |r.line| && p in r.line[r.index[p]]
    {
      var i := tl.index[p];
      if i >= at {
        assert r.index[p] == i + 1 && r.line[i + 1] == tl.line[i];
      } else {
        assert r.index[p] == i && r.line[i] == tl.line[i];
      }
    }
  }

  lemma OpenSlotSlotsIndexed(tl: TimeLine, at: int)
    requires Valid(tl)
    requires 0 <= at <= |tl.line|
    ensures var r := OpenSlot(tl, at);
      forall i, p :: 0 <= i < |r.line| && p in r.line[i] ==> p in r.index && r.index[p] == i
  {
    var r := OpenSlot(tl, at);
    OpenSlotMovesSlots(tl, at);
    forall i, p | 0 <= i < |r.line| && p in r.line[i]
      ensures p in r.index && r.index[p] == i
    {
      if i < at {
        assert p in tl.line[i];
      } else {
        assert i != at;
        assert p in tl.line[i - 1];
      }
    }
  }

  /** `insert_before_next(a, p)` with the default offset 1: a new slot
      holding only `p` right after the anchor's slot; every point later
      than the anchor moves up by one. */
  function InsertBeforeNext(tl: TimeLine, a: Point, p: Point): (r: Result<TimeLine>)
    requires Valid(tl)
    requires p !in tl.index
    ensures a !in tl.index ==> r == Err(AnchorNotPositioned)
    ensures a in tl.index ==> (r.Ok? <==> p.timeline == Some(tl.id))
    ensures r.Err? && a in tl.index ==> r.error == ForeignPoint
    ensures r.Ok? ==> Valid(r.value) && r.value.id == tl.id
    ensures r.Ok? ==> r.value.index.Keys == tl.index.Keys + {p}
    ensures r.Ok? ==> r.value.index[p] == tl.index[a] + 1
  {
    if a !in tl.index then Err(AnchorNotPositioned)
    else
      var at := tl.index[a] + 1;
      OpenSlotKeepsValid(tl, at);
      InsertAt(OpenSlot(tl, at), at, p)
  }

  /** `insert_before_next(a, p)` splices the slot {p} into the slot list
      right after the anchor's slot: earlier slots stay where they were and
      later slots move up by one, unchanged. */
  lemma InsertBeforeNextSplicesSlot(tl: TimeLine, a: Point, p: Point)
    requires Valid(tl)
    requires p !in tl.index
    requires a in tl.index && p.timeline == Some(tl.id)
    ensures InsertBeforeNext(tl, a, p).Ok?
    ensures var t := InsertBeforeNext(tl, a, p).value;
      && |t.line| == |tl.line| + 1
      && (forall i :: 0 <= i <= tl.index[a] ==> t.line[i] == tl.line[i])
      && t.line[tl.index[a] + 1] == {p}
      && (forall i :: tl.index[a] < i < |tl.line| ==> t.line[i + 1] == tl.line[i])
  {
    SpliceKeepsEarlierSlots(tl, a, p);
    SpliceShiftsLaterSlots(tl, a, p);
    SpliceFillsOpenedSlot(tl, a, p);
  }

  /** Slots up to the anchor's stay where they were. */
  lemma SpliceKeepsEarlierSlots(tl: TimeLine, a: Point, p: Point)
    requires Valid(tl)
    requires p !in tl.index
    requires a in tl.index && p.timeline == Some(tl.id)
    ensures InsertBeforeNext(tl, a, p).Ok?
    ensures var t := InsertBeforeNext(tl, a, p).value;
      && |t.line| == |tl.line| + 1
      && (forall i :: 0 <= i <= tl.index[a] ==> t.line[i] == tl.line[i])
  {
    var at := tl.index[a] + 1;
    OpenSlotMovesSlots(tl, at);
    var o := OpenSlot(tl, at);
    var t := InsertBeforeNext(tl, a, p).value;
    forall i | 0 <= i <= tl.index[a]
      ensures t.line[i] == tl.line[i]
    {
      assert t.line[i] == o.line[i];
    }
  }

  /** Slots after the anchor's move up by one, unchanged. */
  lemma SpliceShiftsLaterSlots(tl: TimeLine, a: Point, p: Point)
    requires Valid(tl)
    requires p !in tl.index
    requires a in tl.index && p.timeline == Some(tl.id)
    ensures InsertBeforeNext(tl, a, p).Ok?
    ensures var t := InsertBeforeNext(tl, a, p).value;
      |t.line| == |tl.line| + 1 &&
      forall i :: tl.index[a] < i < |tl.line| ==> t.line[i + 1] == tl.line[i]
  {
    var at := tl.index[a] + 1;
    OpenSlotMovesSlots(tl, at);
    var o := OpenSlot(tl, at);
    var t := InsertBeforeNext(tl, a, p).value;
    forall i | tl.index[a] < i < |tl.line|
      ensures t.line[i + 1] == tl.line[i]
    {
      assert o.line[i + 1] == tl.line[i];
      assert t.line[i + 1] == o.line[i + 1];
    }
  }

  /** The opened slot ends up holding `p` alone. */
  lemma SpliceFillsOpenedSlot(tl: TimeLine, a: Point, p: Point)
    requires Valid(tl)
    requires p !in tl.index
    requires a in tl.index && p.timeline == Some(tl.id)
    ensures InsertBeforeNext(tl, a, p).Ok?
    ensures InsertBeforeNext(tl, a, p).value.line[tl.index[a] + 1] == {p}
  {
    var at := tl.index[a] + 1;
    var t := InsertBeforeNext(tl, a, p).value;
    assert t.line[at] == {} + {p};
  }

  /** After `insert_before_next(a, p)` every point placed later than the
      anchor has moved up by exactly one; the anchor and every point at or
      before it keep their positions. */
  lemma InsertBeforeNextShiftsLater(tl: TimeLine, a: Point, p: Point)
    requires Valid(tl)
    requires p !in tl.index
    requires InsertBeforeNext(tl, a, p).Ok?
    ensures forall q :: q in tl.index && tl.index[q] <= tl.index[a] ==> InsertBeforeNext(tl, a, p).value.index[q] == tl.index[q]
    ensures forall q :: q in tl.index && tl.index[q] > tl.index[a] ==> InsertBeforeNext(tl, a, p).value.index[q] == tl.index[q] + 1
  {
    var at := tl.index[a] + 1;
    OpenSlotKeepsValid(tl, at);
    var o := OpenSlot(tl, at);
    var r := InsertAt(o, at, p);
    assert InsertBeforeNext(tl, a, p) == r;
    assert forall q :: q in o.index ==> r.value.index[q] == o.index[q];
  }

  /** `remove(p)`: take `p` out of its slot and out of the index; nothing is
      renumbered and the (possibly now empty) slot stays. A point that is
      not placed leaves the timeline as it was. */
  function Remove(tl: TimeLine, p: Point): (r: TimeLine)
    requires Valid(tl)
    ensures p !in tl.index ==> r == tl
    ensures Valid(r) && r.id == tl.id
    ensures PositionOf(r, p) == None
    ensures |r.line| == |tl.line|
    ensures forall i :: 0 <= i < |tl.line| ==> r.line[i] == tl.line[i] - {p}
    ensures r.index.Keys == tl.index.Keys - {p}
    ensures forall q :: q in r.index ==> r.index[q] == tl.index[q]
  {
    if p !in tl.index then tl
    else
      var pos := tl.index[p];
      TimeLine(tl.id, tl.line[pos := tl.line[pos] - {p}], tl.index - {p})
  }

  /** `remove` as the source writes it. `Array#delete` tests each slot
      occupant with the overridden `RelativeTime#==`, and that compares
      positions: every occupant of `p`'s slot shares `p`'s position, so the
      whole slot is emptied while only `p` leaves the index. */
  function RemoveAsWritten(tl: TimeLine, p: Point): (r: TimeLine)
    requires Valid(tl)
    ensures p !in tl.index ==> r == tl
    ensures |r.line| == |tl.line|
    ensures p in tl.index ==> r.line[tl.index[p]] == {}
    ensures r.index.Keys == tl.index.Keys - {p}
    ensures forall i :: 0 <= i < |tl.line| && (p !in tl.index || i != tl.index[p]) ==> r.line[i] == tl.line[i]
    ensures forall q :: q in r.index ==> r.index[q] == tl.index[q]
  {
    if p !in tl.index then tl
    else
      var pos := tl.index[p];
      var kept := set e | e in tl.line[pos] && !(e in tl.index && tl.index[e] == pos);
      TimeLine(tl.id, tl.line[pos := kept], tl.index - {p})
  }

  /** Two simultaneous points a and b: the source's `remove(a)` empties the
      slot yet leaves b indexed there, so slot list and index disagree; the
      corrected `Remove` keeps them consistent. */
  lemma RemoveAsWrittenBreaksConsistency()
    ensures var a := Point(0, Some(0));
            var b := Point(1, Some(0));
            var tl := TimeLine(0, [{a, b}], map[a := 0, b := 0]);
            && Valid(tl)
            && !Valid(RemoveAsWritten(tl, a))
            && PositionOf(RemoveAsWritten(tl, a), b) == Some(0)
            && b !in RemoveAsWritten(tl, a).line[0]
            && Valid(Remove(tl, a)) && Remove(tl, a).line[0] == {b}
  {
    var a := Point(0, Some(0));
    var b := Point(1, Some(0));
    var tl := TimeLine(0, [{a, b}], map[a := 0, b := 0]);
    var bad := RemoveAsWritten(tl, a);
    assert b in bad.index && bad.index[b] == 0;
    assert b !in bad.line[0];
    assert Remove(tl, a).line[0] == {a, b} - {a};
    assert {a, b} - {a} == {b};
  }

  /** The corrected removal (`Remove`, not `RemoveAsWritten`) of what
      `insert_at` placed into an existing slot gives back the timeline it
      started from. */
  lemma RemoveUndoesInsertAt(tl: TimeLine, pos: int, p: Point)
    requires Valid(tl)
    requires 0 <= pos < |tl.line|
    requires p !in tl.index
    requires p.timeline == Some(tl.id)
    ensures InsertAt(tl, pos, p).Ok?
    ensures Remove(InsertAt(tl, pos, p).value, p) == tl
  {
    var t := InsertAt(tl, pos, p).value;
    var r := Remove(t, p);
    assert p !in tl.line[pos];
    forall i | 0 <= i < |tl.line|
      ensures r.line[i] == tl.line[i]
    {
    }
    assert r.line == tl.line;
    assert r.index.Keys == tl.index.Keys;
    assert r.index == tl.index;
  }

  /** Removing an appended point leaves an empty last slot and the index
      as it was; appending it again places it once more. */
  lemma RemoveThenAppend(tl: TimeLine, p: Point)
    requires Valid(tl)
    requires p !in tl.index
    requires p.timeline == Some(tl.id)
    ensures Append(tl, p).Ok?
    ensures Remove(Append(tl, p).value, p).line == tl.line + [{}]
    ensures Remove(Append(tl, p).value, p).index == tl.index
    ensures Append(Remove(Append(tl, p).value, p), p).Ok?
    ensures PositionOf(Append(Remove(Append(tl, p).value, p), p).value, p) == Some(|tl.line| + 1)
  {
    var t := Append(tl, p).value;
    var r := Remove(t, p);
    assert r.line[|tl.line|] == {};
    assert r.line == tl.line + [{}];
    assert r.index == tl.index;
  }

  /** The slot list [[a], [b], [c]] becomes [[a], [d], [b], [c]] under
      `insert_before_next(a, d)`, and b moves from position 1 to 2. */
  lemma InsertBeforeNextExample(tl: TimeLine, a: Point, b: Point, c: Point, d: Point)
    requires a != b && b != c && a != c && d != a && d != b && d != c
    requires a.timeline == b.timeline == c.timeline == d.timeline == Some(tl.id)
    requires tl.line == [{a}, {b}, {c}] && tl.index == map[a := 0, b := 1, c := 2]
    ensures Valid(tl)
    ensures InsertBeforeNext(tl, a, d).Ok?
    ensures InsertBeforeNext(tl, a, d).value.line == [{a}, {d}, {b}, {c}]
    ensures PositionOf(InsertBeforeNext(tl, a, d).value, b) == Some(2)
  {
    ThreeSingletonsValid(tl, a, b, c);
    InsertBeforeNextSplicesSlot(tl, a, d);
    InsertBeforeNextShiftsLater(tl, a, d);
    var t := InsertBeforeNext(tl, a, d).value;
    assert t.line[0] == {a} && t.line[1] == {d} && t.line[2] == {b} && t.line[3] == {c};
  }

  /** Three distinct points of a timeline, each alone in its own slot, in
      order: a consistent timeline. */
  lemma ThreeSingletonsValid(tl: TimeLine, a: Point, b: Point, c: Point)
    requires a != b && b != c && a != c
    requires a.timeline == b.timeline == c.timeline == Some(tl.id)
    requires tl.line == [{a}, {b}, {c}] && tl.index == map[a := 0, b := 1, c := 2]
    ensures Valid(tl)
  {
    forall i, p | 0 <= i < |tl.line| && p in tl.line[i]
      ensures p in tl.index && tl.index[p] == i
    {
      if i == 0 { assert p == a; } else if i == 1 { assert p == b; } else { assert p == c; }
    }
  }
}
