/** `compress!` of lib/time_span.rb: drop the empty slots that `remove`
    leaves behind and renumber every placed point so that it keeps its
    place relative to all others. */
module Compaction {
  import opened Outcomes
  import opened TimeLines

  /** The number of empty slots among the first `n` slots. */
  function EmptiesBelow(line: seq<Slot>, n: int): (k: nat)
    requires 0 <= n <= |line|
    ensures k <= n
    ensures k == 0 <==> forall i :: 0 <= i < n ==> |line[i]| > 0
  {
    if n == 0 then 0 else EmptiesBelow(line, n - 1) + (if |line[n - 1]| == 0 then 1 else 0)
  }

  /** The non-empty slots among the first `n` slots, in order. */
  function KeptBelow(line: seq<Slot>, n: int): (s: seq<Slot>)
    requires 0 <= n <= |line|
    ensures |s| == n - EmptiesBelow(line, n)
    ensures forall k :: 0 <= k < |s| ==> |s[k]| > 0
  {
    if n == 0 then [] else KeptBelow(line, n - 1) + (if |line[n - 1]| == 0 then [] else [line[n - 1]])
  }

  /** The timeline `compress!` leaves: the non-empty slots in their old
      order, and every point moved down by the number of empty slots in
      front of it. */
  function Compressed(tl: TimeLine): (r: TimeLine)
    requires Valid(tl)
    ensures r.id == tl.id && r.index.Keys == tl.index.Keys
    ensures |r.line| == |tl.line| - EmptiesBelow(tl.line, |tl.line|)
    ensures forall k :: 0 <= k < |r.line| ==> |r.line[k]| > 0
    ensures forall p :: p in tl.index ==> r.index[p] == tl.index[p] - EmptiesBelow(tl.line, tl.index[p])
  {
    TimeLine(tl.id, KeptBelow(tl.line, |tl.line|),
             map p | p in tl.index :: tl.index[p] - EmptiesBelow(tl.line, tl.index[p]))
  }

  /** The first pass of `compress!`: walking the slots left to right, the
      running deficit drops by one at every empty slot, and `offsets[i]` is
      the deficit after slot `i`. */
  method DeficitOffsets(line: seq<Slot>) returns (offsets: seq<int>)
    ensures |offsets| == |line|
    ensures forall j :: 0 <= j < |line| ==> offsets[j] == -(EmptiesBelow(line, j + 1) as int)
  {
    var modLevel: int := 0;
    offsets := [];
    var i := 0;
    while i < |line|
      invariant 0 <= i <= |line|
      invariant |offsets| == i
      invariant modLevel == -(EmptiesBelow(line, i) as int)
      invariant forall j :: 0 <= j < i ==> offsets[j] == -(EmptiesBelow(line, j + 1) as int)
    {
      if |line[i]| == 0 {
        modLevel := modLevel - 1;
      }
      offsets := offsets + [modLevel];
      i := i + 1;
    }
  }

  /** `@line.delete([])`: the slot list without its empty slots. */
  method DeleteEmptySlots(line: seq<Slot>) returns (kept: seq<Slot>)
    ensures kept == KeptBelow(line, |line|)
  {
    kept := [];
    var i := 0;
    while i < |line|
      invariant 0 <= i <= |line|
      invariant kept == KeptBelow(line, i)
    {
      if |line[i]| > 0 {
        kept := kept + [line[i]];
      }
      i := i + 1;
    }
  }

  /** `compress!` as the source computes it: one pass builds the running
      deficit of empty slots, the index is rewritten from those offsets in
      a single step, then the empty slots are deleted. */
  method Compress(tl: TimeLine) returns (r: TimeLine)
    requires Valid(tl)
    ensures r == Compressed(tl)
  {
    var offsets := DeficitOffsets(tl.line);
    var indices := map p | p in tl.index :: tl.index[p] + offsets[tl.index[p]];
    var kept := DeleteEmptySlots(tl.line);
    forall p | p in tl.index
      ensures indices[p] == tl.index[p] - EmptiesBelow(tl.line, tl.index[p])
    {
      var j := tl.index[p];
      assert p in tl.line[j];
    }
    r := TimeLine(tl.id, kept, indices);
    CompressedIs(tl, r);
  }

  /** The timeline with the compressed slot list and the renumbered index
      is the compressed timeline. */
  lemma CompressedIs(tl: TimeLine, r: TimeLine)
    requires Valid(tl)
    requires r.id == tl.id && r.line == KeptBelow(tl.line, |tl.line|)
    requires r.index.Keys == tl.index.Keys
    requires forall p :: p in tl.index ==> r.index[p] == tl.index[p] - EmptiesBelow(tl.line, tl.index[p])
    ensures r == Compressed(tl)
  {
    var c := Compressed(tl);
    assert r.index.Keys == c.index.Keys;
    assert forall p :: p in r.index ==> r.index[p] == c.index[p];
    assert r.index == c.index;
  }

  /** Counting empty slots: the count grows with the prefix, and by at
      most the number of slots added. */
  lemma {:induction false} EmptiesGrowth(line: seq<Slot>, i: int, j: int)
    requires 0 <= i <= j <= |line|
    ensures EmptiesBelow(line, i) <= EmptiesBelow(line, j) <= EmptiesBelow(line, i) + (j - i)
    decreases j - i
  {
    if i < j {
      EmptiesGrowth(line, i, j - 1);
    }
  }

  /** A non-empty slot `i` survives compression at position
      `i - EmptiesBelow(line, i)`. */
  lemma {:induction false} KeptAt(line: seq<Slot>, n: int, i: int)
    requires 0 <= i < n <= |line|
    requires |line[i]| > 0
    ensures 0 <= i - EmptiesBelow(line, i) < |KeptBelow(line, n)|
    ensures KeptBelow(line, n)[i - EmptiesBelow(line, i)] == line[i]
    decreases n
  {
    if i < n - 1 {
      KeptAt(line, n - 1, i);
    }
  }

  /** Every surviving slot comes from a non-empty slot of the old line. */
  lemma {:induction false} KeptFrom(line: seq<Slot>, n: int, k: int) returns (i: int)
    requires 0 <= n <= |line|
    requires 0 <= k < |KeptBelow(line, n)|
    ensures 0 <= i < n && |line[i]| > 0
    ensures i - EmptiesBelow(line, i) == k
    ensures KeptBelow(line, n)[k] == line[i]
    decreases n
  {
    var prefix := KeptBelow(line, n - 1);
    if k < |prefix| {
      i := KeptFrom(line, n - 1, k);
    } else {
      i := n - 1;
    }
  }

  /** Non-empty slots keep their order: a later one lands strictly later. */
  lemma RankIncreasing(line: seq<Slot>, i: int, j: int)
    requires 0 <= i < j <= |line|
    requires |line[i]| > 0
    ensures i - EmptiesBelow(line, i) < j - EmptiesBelow(line, j)
  {
    EmptiesGrowth(line, i + 1, j);
  }

  /** `compress!` keeps slot list and index consistent. */
  lemma CompressKeepsValid(tl: TimeLine)
    requires Valid(tl)
    ensures Valid(Compressed(tl))
  {
    CompressKeepsIndexedInSlots(tl);
    CompressKeepsSlotsIndexed(tl);
  }

  lemma CompressKeepsIndexedInSlots(tl: TimeLine)
    requires Valid(tl)
    ensures IndexedInSlots(Compressed(tl))
  {
    var r := Compressed(tl);
    forall p | p in r.index
      ensures p.timeline == Some(r.id) && 0 <= r.index[p] < |r.line| && p in r.line[r.index[p]]
    {
      var i := tl.index[p];
      assert p in tl.line[i];
      KeptAt(tl.line, |tl.line|, i);
    }
  }

  lemma CompressKeepsSlotsIndexed(tl: TimeLine)
    requires Valid(tl)
    ensures SlotsIndexed(Compressed(tl))
  {
    var r := Compressed(tl);
    forall k, p | 0 <= k < |r.line| && p in r.line[k]
      ensures p in r.index && r.index[p] == k
    {
      var i := KeptFrom(tl.line, |tl.line|, k);
      assert p in tl.line[i];
    }
  }

  /** `compress!` preserves the relative order of all placed points: before,
      simultaneous and after stay before, simultaneous and after. */
  lemma CompressPreservesOrder(tl: TimeLine, p: Point, q: Point)
    requires Valid(tl)
    requires p in tl.index && q in tl.index
    ensures tl.index[p] < tl.index[q] <==> Compressed(tl).index[p] < Compressed(tl).index[q]
    ensures tl.index[p] == tl.index[q] <==> Compressed(tl).index[p] == Compressed(tl).index[q]
  {
    var i, j := tl.index[p], tl.index[q];
    assert p in tl.line[i] && q in tl.line[j];
    if i < j {
      RankIncreasing(tl.line, i, j);
    } else if j < i {
      RankIncreasing(tl.line, j, i);
    }
  }

  /** Without empty slots `compress!` changes nothing. */
  lemma CompressWithoutEmptiesIsIdentity(tl: TimeLine)
    requires Valid(tl)
    requires forall i :: 0 <= i < |tl.line| ==> |tl.line[i]| > 0
    ensures Compressed(tl) == tl
  {
    KeptAllWhenNoneEmpty(tl.line, |tl.line|);
    var r := Compressed(tl);
    forall p | p in tl.index
      ensures r.index[p] == tl.index[p]
    {
      assert EmptiesBelow(tl.line, tl.index[p]) == 0;
    }
    assert r.index == tl.index;
  }

  lemma {:induction false} KeptAllWhenNoneEmpty(line: seq<Slot>, n: int)
    requires 0 <= n <= |line|
    requires forall i :: 0 <= i < n ==> |line[i]| > 0
    ensures KeptBelow(line, n) == line[..n]
    decreases n
  {
    if n > 0 {
      KeptAllWhenNoneEmpty(line, n - 1);
      assert line[..n] == line[..n - 1] + [line[n - 1]];
    }
  }

  /** A second `compress!` right after the first changes nothing. */
  lemma CompressIdempotent(tl: TimeLine)
    requires Valid(tl)
    ensures Valid(Compressed(tl))
    ensures Compressed(Compressed(tl)) == Compressed(tl)
  {
    CompressKeepsValid(tl);
    CompressWithoutEmptiesIsIdentity(Compressed(tl));
  }

  /** Points appended one after the other to a fresh timeline leave no
      empty slot, so `compress!` afterwards is a no-op. */
  lemma CompressAfterAppendsIsIdentity(id: LineId, ps: seq<Point>)
    requires forall i, j :: 0 <= i < j < |ps| ==> ps[i] != ps[j]
    requires forall i :: 0 <= i < |ps| ==> ps[i].timeline == Some(id)
    ensures AppendAll(NewTimeLine(id), ps).Ok?
    ensures Compressed(AppendAll(NewTimeLine(id), ps).value) == AppendAll(NewTimeLine(id), ps).value
  {
    var start := NewTimeLine(id);
    AppendAllPlacesInOrder(start, ps);
    var t := AppendAll(start, ps).value;
    forall i | 0 <= i < |t.line|
      ensures |t.line[i]| > 0
    {
      assert t.line[|start.line| + i] == {ps[i]};
    }
    CompressWithoutEmptiesIsIdentity(t);
  }
}
