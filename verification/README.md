# time_span in Dafny

A model of the Ruby library `time_span`, which relates points in time to each
other without clock values. It has three classes:

- A **TimeLine** is an ordered list of slots. Each slot holds the points that
  happen at the same time. An index maps every placed point to the number of
  its slot.
- A **RelativeTime** is a point created for one timeline. It can be compared
  with `<`, `<=`, `==`, `!=`, `>=` and `>` only against a point positioned on
  the identical timeline. The comparison is the comparison of the two
  points' slot numbers.
- A **TimeSpan** is a start point and an end point on one timeline. It has
  fourteen comparators on single endpoints and interval relations built from
  them: `==`, `!=`, `<`, `>`, `contains?`, `contains_fully?`,
  `contained_inside?` and `contained_fully_inside?`.

The three class modules follow the three classes; two more hold shared
results and the largest timeline operation:

- `outcomes.dfy` (`Outcomes`) holds results with errors. It also holds
  Ruby's short-circuit `&&`, `||` and `!` over predicates that may raise.
- `timeline.dfy` (`TimeLines`) holds the timeline and its consistency
  predicate `Valid`. Every mutating method becomes a pure function that
  returns the timeline it leaves behind.
- `compaction.dfy` (`Compaction`) holds `compress!`. It has a reference
  definition (`Compressed`) and the source's two-pass algorithm as methods
  with loops (`Compress`).
- `relative_time.dfy` (`RelativeTimes`) holds points, colinearity and the
  six comparators. A `World` maps timeline identities to timelines, and a
  point reaches its timeline through it.
- `time_span.dfy` (`TimeSpans`) holds spans, their comparators and
  relations. It also holds the scenarios of the library's own test file.

A raised exception is an `Err` result. Each error kind says which `raise`, or
which nil receiver, it stands for.

Where the library's stated intent and its code differ, the model follows
the code, with two exceptions. The two defects under "Findings" are
modelled twice: an as-written member carries the code and a lemma shows the
defect, and the corrected member is the one the rest of the model uses.
Elsewhere:

- `TimeSpan.new` does not enforce start <= end. Line 18 evaluates that
  comparison and discards the result, so only colinearity (line 15) is
  checked. `NewSpanIgnoresOrder` states this.
- There is no span registry, no span name and no clone prevention.
- Timelines are compared by object identity only, never by name.

## Model

| member | source | states |
|---|---|---|
| Outcomes.AndThen | lib/time_span.rb:94-96 | Ruby `a && b` over raising predicates: true exactly when both are true; raises exactly when `a` raises or `a` is true and `b` raises; a false `a` hides `b` |
| Outcomes.OrElse | lib/time_span.rb:98-100 | Ruby `a \|\| b`: false exactly when both are false; raises exactly when `a` raises or `a` is false and `b` raises |
| Outcomes.Not | lib/time_span.rb:98-100 | Ruby `!a`: raises exactly when `a` raises, otherwise the negated answer |
| TimeLines.NewTimeLine | lib/time_span.rb:156-160 | a new timeline is consistent, with no slots and nothing indexed |
| TimeLines.PositionOf | lib/time_span.rb:164-166 | answers a position exactly when the point is indexed; on a consistent timeline that position is a slot holding the point, and an unindexed point is in no slot |
| TimeLines.IncreaseAfter | lib/time_span.rb:168-172 | exactly the index entries at or after `pos` grow by `amount`; entries below `pos`, the set of indexed points and the slot list are unchanged |
| TimeLines.InsertAt | lib/time_span.rb:195-205 | raises exactly when the point belongs to another timeline; otherwise the timeline stays consistent, the point is indexed at `pos` and sits in slot `pos`, that slot is its old contents plus the point (no duplicates), a new last slot appears only when `pos` is one past the end, and every other slot and index entry is unchanged |
| TimeLines.Placed | lib/time_span.rb:197-204 | the timeline a successful `insert_at` writes: the index gains the point at `pos`, slot `pos` is its old contents (none one past the end) plus the point, the list grows by one only at the end, and every other slot is unchanged |
| TimeLines.PlacedKeepsValid | lib/time_span.rb:197-204 | the slot list and index written by a successful `insert_at` agree |
| TimeLines.Append | lib/time_span.rb:177-179 | raises exactly for a foreign point; otherwise the point is alone in a new last slot, indexed after every point already placed, and the timeline stays consistent |
| TimeLines.AppendAll | lib/time_span.rb:177-179 | repeated appends succeed exactly when every point belongs to the timeline, and keep it consistent |
| TimeLines.AppendAllPlacesInOrder | lib/time_span.rb:177-179 | repeated appends put each point alone in its own new slot in call order, with strictly increasing positions; earlier slots and index entries are kept |
| TimeLines.AppendToNext | lib/time_span.rb:182-184 | raises when the anchor has no position (nil + relative); otherwise raises exactly for a foreign point; on success the point is indexed `relative` after the anchor, simultaneous with every point already in that slot; the target slot is its old contents plus the point, a new last slot appears only when the target is one past the end, every other slot and index entry is unchanged, and the timeline stays consistent |
| TimeLines.OpenSlot | lib/time_span.rb:189-190 | shifting the index from `at` and splicing an empty slot at `at` gives one more slot, an empty slot at `at`, and the same indexed points |
| TimeLines.OpenSlotKeepsValid | lib/time_span.rb:189-190 | the opened timeline is consistent; slots before `at` stay, slots from `at` on move up by one |
| TimeLines.OpenSlotMovesSlots | lib/time_span.rb:190 | slots before `at` stay and slots from `at` on move up by one |
| TimeLines.OpenSlotIndexedInSlots | lib/time_span.rb:189-190 | after the shift and splice every indexed point still sits in the slot its entry names |
| TimeLines.OpenSlotSlotsIndexed | lib/time_span.rb:189-190 | after the shift and splice every slot occupant is indexed at its new slot |
| TimeLines.InsertBeforeNext | lib/time_span.rb:187-192 | raises when the anchor has no position; otherwise raises exactly for a foreign point; on success the point is indexed right after the anchor, it is the only new indexed point, and the timeline stays consistent |
| TimeLines.InsertBeforeNextSplicesSlot | lib/time_span.rb:187-192 | a new slot holding only the point is spliced right after the anchor's slot; earlier slots stay, later slots move up by one unchanged |
| TimeLines.SpliceKeepsEarlierSlots | lib/time_span.rb:187-192 | slots up to the anchor's stay in place |
| TimeLines.SpliceShiftsLaterSlots | lib/time_span.rb:187-192 | slots after the anchor's move up by one, unchanged |
| TimeLines.SpliceFillsOpenedSlot | lib/time_span.rb:190-191 | the spliced slot holds the inserted point alone |
| TimeLines.InsertBeforeNextShiftsLater | lib/time_span.rb:187-192 | points at or before the anchor keep their positions; every point after it moves up by exactly one |
| TimeLines.InsertBeforeNextExample | lib/time_span.rb:187-192 | `[[a],[b],[c]]` becomes `[[a],[d],[b],[c]]` under `insert_before_next(a, d)`, and b moves to position 2 |
| TimeLines.ThreeSingletonsValid | lib/time_span.rb:148-160 | three distinct points, each alone in its own slot and indexed there, form a consistent timeline |
| TimeLines.Remove | lib/time_span.rb:209-215 | an unplaced point changes nothing; otherwise the point leaves its slot and the index, the slot list keeps its length (nothing renumbered), every other index entry is unchanged, and the timeline stays consistent |
| TimeLines.RemoveAsWritten | lib/time_span.rb:209-215 | `Array#delete` with the overridden `==` empties the removed point's whole slot while only that point leaves the index; every other slot and every remaining index entry is unchanged, and an unindexed point changes nothing |
| TimeLines.RemoveAsWrittenBreaksConsistency | lib/time_span.rb:212 | with two simultaneous points, the source's `remove` leaves one indexed at a slot that no longer holds it; the corrected removal keeps it there |
| TimeLines.RemoveUndoesInsertAt | lib/time_span.rb:195-215 | the corrected removal (not the as-written `remove`, see Findings) of a point that `insert_at` added to an existing slot gives back the original timeline |
| TimeLines.RemoveThenAppend | lib/time_span.rb:177-215 | removing an appended point leaves an empty last slot and the old index; appending it again places it one slot later |
| Compaction.EmptiesBelow | lib/time_span.rb:222-225 | the running deficit is at most the number of slots walked and is zero exactly when none of them is empty |
| Compaction.KeptBelow | lib/time_span.rb:232 | the kept slots number the slots walked minus the empty ones, and none of them is empty |
| Compaction.Compressed | lib/time_span.rb:219-233 | the compressed timeline has no empty slot, the same indexed points, as many slots as non-empty ones before, and each point's position lowered by the number of empty slots before it |
| Compaction.DeficitOffsets | lib/time_span.rb:220-226 | the loop's `offsets[i]` is minus the number of empty slots among slots 0..i |
| Compaction.DeleteEmptySlots | lib/time_span.rb:232 | `@line.delete([])` keeps exactly the non-empty slots, in order |
| Compaction.Compress | lib/time_span.rb:219-233 | the source's two passes compute the compressed timeline |
| Compaction.CompressedIs | lib/time_span.rb:227-231 | a timeline with the kept slots and every entry lowered by its deficit is the compressed timeline |
| Compaction.EmptiesGrowth | lib/time_span.rb:222-225 | the deficit grows with the prefix, by at most the number of slots added |
| Compaction.KeptAt | lib/time_span.rb:227-232 | a non-empty slot survives at its old number minus the empty slots before it |
| Compaction.KeptFrom | lib/time_span.rb:232 | every surviving slot is a non-empty old slot at that renumbered place |
| Compaction.RankIncreasing | lib/time_span.rb:227-232 | a later non-empty slot lands strictly later after renumbering |
| Compaction.CompressKeepsValid | lib/time_span.rb:219-233 | `compress!` keeps the slot list and index consistent |
| Compaction.CompressKeepsIndexedInSlots | lib/time_span.rb:219-233 | after `compress!` every indexed point sits in the slot its entry names |
| Compaction.CompressKeepsSlotsIndexed | lib/time_span.rb:219-233 | after `compress!` every slot occupant is indexed at its slot |
| Compaction.CompressPreservesOrder | lib/time_span.rb:219-233 | for any two placed points, before stays before and simultaneous stays simultaneous, in both directions |
| Compaction.CompressWithoutEmptiesIsIdentity | lib/time_span.rb:219-233 | without empty slots `compress!` changes nothing |
| Compaction.KeptAllWhenNoneEmpty | lib/time_span.rb:232 | deleting empty slots from a list without any keeps the whole list |
| Compaction.CompressIdempotent | lib/time_span.rb:219-233 | a second `compress!` right after the first changes nothing |
| Compaction.CompressAfterAppendsIsIdentity | lib/time_span.rb:177-233 | a timeline built only by appends has no empty slot, so `compress!` changes nothing |
| RelativeTimes.Positioned | lib/time_span.rb:278-280 | on a consistent world a point is positioned exactly when it has a timeline held by the world and occupies a slot of it |
| RelativeTimes.ColinearWith | lib/time_span.rb:282-284 | a colinear point has a timeline held by the world; on a consistent world two points are colinear exactly when they share a timeline and both occupy slots of it |
| RelativeTimes.ValidAndComparableWith | lib/time_span.rb:289-291 | the nil checks add nothing: the answer is exactly `colinear_with?` |
| RelativeTimes.Position | lib/time_span.rb:274 | `position_of` on a positioned point names, on a consistent world, a slot that holds the point |
| RelativeTimes.Holds | lib/time_span.rb:271-274 | the integer comparison sent by name: `<` accepts below, `<=` below or equal, `==` equal, `!=` below or above, `>=` equal or above, `>` above |
| RelativeTimes.PositionOrderIsSlotOrder | lib/time_span.rb:271-276 | on a consistent timeline, a smaller index entry means an earlier slot and equal entries mean the same slot, both directions |
| RelativeTimes.Compare | lib/time_span.rb:271-276 | a comparator raises exactly when the points are not colinear; otherwise, on a consistent world, `<` means an earlier slot, `==` the same slot, `!=` different slots, `<=`/`>=` not later/not earlier, and `>` a later slot |
| RelativeTimes.ColinearWithSymmetric | lib/time_span.rb:282-284 | `colinear_with?` is symmetric |
| RelativeTimes.CompareConverse | lib/time_span.rb:271-276 | `a < b` is `b > a`, `a <= b` is `b >= a`, and `==`, `!=` are symmetric, failures included |
| RelativeTimes.CompareNonStrict | lib/time_span.rb:271-276 | `<=` is `<` or `==`, `>=` is `>` or `==`, and `!=` is not `==` |
| RelativeTimes.CompareTrichotomy | lib/time_span.rb:271-276 | colinear points satisfy exactly one of `<`, `==`, `>` |
| RelativeTimes.LessTransitive | lib/time_span.rb:271-276 | `<` on points is transitive |
| TimeSpans.NewSpan | lib/time_span.rb:14-19 | raises exactly when the endpoints are not colinear; otherwise the span has the given start and end |
| TimeSpans.Ordered | lib/time_span.rb:18 | the discarded `starting_at <= ending_at`: holds only for colinear endpoints, and then, on a consistent world, exactly when the end does not occupy an earlier slot than the start |
| TimeSpans.NewSpanComparesEnds | lib/time_span.rb:14-18 | after line 15 passes, line 18's comparison cannot raise, and a span or its reverse is ordered |
| TimeSpans.NewSpanIgnoresOrder | lib/time_span.rb:14-19 | endpoints given in either order make a span, since line 18 is not enforced |
| TimeSpans.StartsBefore | lib/time_span.rb:27-29 | raises exactly when the two starts are not colinear; `x.starts_before?(y)` is `y.starts_after?(x)` |
| TimeSpans.StartsAfter | lib/time_span.rb:31-33 | raises exactly when the two starts are not colinear; on a consistent world, true exactly when y's start is in an earlier slot |
| TimeSpans.StartsOnOrAfter | lib/time_span.rb:35-37 | raises exactly when the two starts are not colinear; is the negation of `starts_before?` |
| TimeSpans.StartsWith | lib/time_span.rb:40-42 | raises exactly when the two starts are not colinear; true exactly when their positions are equal |
| TimeSpans.StartsBeforeOrWith | lib/time_span.rb:44-46 | raises exactly when the two starts are not colinear; is the mirror of `starts_on_or_after?` and the negation of `starts_after?` |
| TimeSpans.EndsBefore | lib/time_span.rb:48-50 | raises exactly when the two ends are not colinear; `x.ends_before?(y)` is `y.ends_after?(x)` |
| TimeSpans.EndsOnOrBefore | lib/time_span.rb:52-54 | raises exactly when the two ends are not colinear; is the mirror of `ends_on_or_after?` and the negation of `ends_after?` |
| TimeSpans.EndsOnOrAfter | lib/time_span.rb:56-58 | raises exactly when the two ends are not colinear; is the negation of `ends_before?` |
| TimeSpans.EndsAfter | lib/time_span.rb:60-62 | raises exactly when the two ends are not colinear; on a consistent world, true exactly when y's end is in an earlier slot |
| TimeSpans.EndsWith | lib/time_span.rb:64-66 | raises exactly when the two ends are not colinear; true exactly when their positions are equal |
| TimeSpans.EndsBeforeOtherStarts | lib/time_span.rb:68-70 | raises exactly when x's end and y's start are not colinear; is `y.starts_after_other_ends?(x)` |
| TimeSpans.EndsAsOtherStarts | lib/time_span.rb:72-74 | raises exactly when x's end and y's start are not colinear; is `y.starts_as_other_ends?(x)` |
| TimeSpans.StartsAfterOtherEnds | lib/time_span.rb:76-78 | raises exactly when x's start and y's end are not colinear; on a consistent world, true exactly when y's end is in an earlier slot than x's start |
| TimeSpans.StartsAsOtherEnds | lib/time_span.rb:80-82 | raises exactly when x's start and y's end are not colinear; true exactly when their positions are equal |
| TimeSpans.SpanEqual | lib/time_span.rb:94-96 | true exactly when both pairs of endpoints are colinear with equal positions; raises exactly when the ends are not colinear, or they are equal and the starts are not colinear |
| TimeSpans.SpanDiffersAsWritten | lib/time_span.rb:98-100 | every call raises, because the body calls a method nobody defines |
| TimeSpans.SpanDiffersAsWrittenRaises | lib/time_span.rb:98-100 | a positioned span compared with itself: the intended `!=` answers false, the source's raises |
| TimeSpans.SpanDiffers | lib/time_span.rb:98-100 | the intended `!=` is the negation of `==`, failures included |
| TimeSpans.Precedes | lib/time_span.rb:102-104 | raises exactly when x's end and y's start are not colinear; otherwise, on a consistent world, `x < y` is true exactly when x's end occupies an earlier slot than y's start; `x < y` is `y > x` |
| TimeSpans.Follows | lib/time_span.rb:106-108 | raises exactly when x's start and y's end are not colinear; otherwise, on a consistent world, `x > y` is true exactly when y's end occupies an earlier slot than x's start |
| TimeSpans.ContainedFullyInside | lib/time_span.rb:110-112 | true exactly when both pairs are colinear, x starts strictly after y and ends strictly before it; raises exactly when the starts are not colinear, or x starts after y and the ends are not colinear |
| TimeSpans.ContainedInside | lib/time_span.rb:114-116 | true exactly when both pairs are colinear, x starts on or after y and ends on or before it; raises on the same short-circuit pattern |
| TimeSpans.ContainsFully | lib/time_span.rb:118-120 | `x.contains_fully?(y)` answers exactly what `y.contained_fully_inside?(x)` answers, raising included |
| TimeSpans.Contains | lib/time_span.rb:122-124 | `x.contains?(y)` answers exactly what `y.contained_inside?(x)` answers, raising included |
| TimeSpans.SpanEqualReflexive | lib/time_span.rb:94-96 | a span with positioned endpoints equals itself |
| TimeSpans.SpanEqualSymmetric | lib/time_span.rb:94-96 | `==` on spans is symmetric, failures included |
| TimeSpans.SpanEqualTransitive | lib/time_span.rb:94-96 | `==` on spans is transitive |
| TimeSpans.StrictContainmentIsContainment | lib/time_span.rb:110-124 | `contains_fully?` implies `contains?`, and `contained_fully_inside?` implies `contained_inside?` |
| TimeSpans.PrecedesExcludesFollowsAndContains | lib/time_span.rb:102-124 | between ordered spans, `x < y` excludes `x > y` and `x.contains?(y)` |
| TimeSpans.ContainsTransitive | lib/time_span.rb:122-124 | `contains?` is transitive |
| TimeSpans.RemovedEndpointNotComparable | lib/time_span.rb:209-215 | once a span's start is removed from its timeline, `starts_before?` raises instead of answering |
| TimeSpans.OnePerSlotPositions | lib/time_span.rb:164-166 | in the scenario world, point k is positioned at k |
| TimeSpans.SingleEndpointScenario | spec/time_span/time_span_spec.rb:24-82 | alpha starting before beta and ending with it: `starts_before?` and `ends_with?` hold, the other eight endpoint comparators are false |
| TimeSpans.SpanScenarios | spec/time_span/time_span_spec.rb:87-146 | the test file's span scenarios: `==`, `<`, `>`, `contained_fully_inside?`, `contained_inside?`, `contains_fully?` and `contains?` hold where it expects them, and the strict relations fail on a shared endpoint |
| TimeSpans.ForeignEndpointRefused | lib/time_span.rb:14-15 | two positioned points on different timelines cannot make a span |

## Left out

- Display code is not modelled: `to_s`, the timeline `name` and the `reference_to` payload of a RelativeTime. None of them plays a part in ordering.
- The `define_method` loop that generates the six comparators is one function, `Compare`, with the operator as a parameter.
- The `kind_of?` tests in `colinear_with?` and line 18 are not modelled. Dafny's types already rule out a non-RelativeTime argument.
- The `< Array` superclass of TimeLine is not modelled. No Array method of the timeline itself is used.
- Hash identity is not modelled: a point is compared by value, which stands for object identity.
- TimeLines.InsertAt: requires `0 <= pos <= |line|`. Ruby accepts a later position and leaves nil holes, which `compress!` then crashes on. A negative position is also excluded.
- TimeLines.InsertAt: requires the point not to be indexed yet. Re-inserting a placed point in Ruby leaves a stale copy in its old slot.
- TimeLines.Append, TimeLines.AppendAll, TimeLines.AppendToNext, TimeLines.InsertBeforeNext: require the point not to be indexed yet, for the same reason, since each ends in `insert_at`. `AppendAll` requires this of every point and also requires the points to be distinct.
- TimeLines.InsertBeforeNext: models only the default offset 1. With a larger offset Ruby shifts the index by the offset but splices only one slot.
- TimeLines.InsertBeforeNext: a call that raises for a foreign point returns `Err(ForeignPoint)` and no timeline, so the caller keeps the timeline it had. In Ruby, the index has already been shifted and a nil spliced before `insert_at` raises.
- TimeLines.InsertBeforeNext: the spliced placeholder is an empty slot, while Ruby splices nil. `insert_at` fills both the same way, so the result is the same on success.
- TimeLines.AppendToNext: requires that the target slot `pos(anchor) + relative` is between 0 and one past the end. Further slots would leave nil holes, and a negative one would index the slot list from its end.
- Interruption halfway through `compress!` is not modelled. The source's comment speaks of a "poor man's transaction", but `indices = indices_of` (line 227) names the same Hash, which line 229 rewrites in place, and line 231 only sets a local variable. The model computes the new index all at once. The result is the same as the source's, because the offsets are computed before any entry changes and each entry is read once.

## Findings

| source | as written | input that shows it | evidently intended | confidence | as-written member | corrected member |
|---|---|---|---|---|---|---|
| lib/time_span.rb:212 | `@line[pos].delete(obj)`: `Array#delete` tests each occupant with RelativeTime's overridden `==`, which compares positions, so every occupant of the slot is deleted while only `obj` leaves the index | a and b simultaneous in slot 0; `remove(a)` empties the slot, b stays indexed at 0 | only `obj` leaves its slot | high, not executed | TimeLines.RemoveAsWrittenBreaksConsistency | TimeLines.Remove |
| lib/time_span.rb:98-100 | `!end_with(b) \|\| !starts_with(b)` calls two methods no class defines, so every call raises NoMethodError | any two spans, e.g. a positioned span and itself | `!ends_with?(b) \|\| !starts_with?(b)`, the negation of `==` | high, not executed | TimeSpans.SpanDiffersAsWrittenRaises | TimeSpans.SpanDiffers |
