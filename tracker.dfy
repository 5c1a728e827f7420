/** The centroid tracker of tracker.py (class EuclideanDistTracker).

    The tracker keeps an insertion-ordered dictionary from object id to the
    last known centre of that object, and a counter from which new ids are
    drawn. In each frame every tracked id, in dictionary order, claims the
    nearest still-unmatched detection that lies strictly within the distance
    threshold (the earliest one on ties); leftover detections get fresh,
    consecutive ids; ids that claimed nothing are dropped.

    The dictionary is a sequence of `Track` entries with distinct ids, kept in
    insertion order. Distances are compared squared, which over the reals
    orders exactly as `math.hypot` does (lemma `SquaredComparison`).

    The functions `Nearest`, `Step`, `MatchPass` and `UpdateSpec` state what
    one `update` call computes; the method `EuclideanDistTracker.Update` runs
    the loops of the source and is proved to agree with `UpdateSpec`; the
    lemmas state what the source promises about `UpdateSpec`. */
module Tracker {
  import opened Wrappers

  /** A centre point in the top-down (x, y) plane. */
  datatype Point2 = Point2(x: real, y: real)

  /** A detection handed to `update`: `[x, y, w, h]`. */
  datatype Rect = Rect(x: real, y: real, w: real, h: real)

  /** A detection as `update` returns it: `[x, y, w, h, object_id]`. */
  datatype TrackedRect = TrackedRect(x: real, y: real, w: real, h: real, id: int)

  /** One dictionary entry `object_id: (center_x, center_y)`. */
  datatype Track = Track(id: int, centre: Point2)

  /** Detection number `det` of the frame receives `id`. */
  datatype Pairing = Pairing(det: nat, id: int)

  /** What the inner scan for one tracked id found: nothing strictly within
      the threshold, or the position (in the unmatched list) and squared
      distance of the best detection. */
  datatype Choice = NoMatch | Best(pos: nat, sq: real)

  /** The matching pass after some tracked ids were processed: the pairings
      made so far, the processed dictionary entries (centres replaced where
      matched) and the detections still unmatched. */
  datatype Pass = Pass(pairs: seq<Pairing>, tracks: seq<Track>, unmatched: seq<nat>)

  /** What one `update` call produces: the returned list, the new dictionary
      and the new id counter. */
  datatype Outcome = Outcome(output: seq<TrackedRect>, tracks: seq<Track>, count: nat)

  /** Default `dist_thresh` of `update`. */
  const DefaultDistThresh: real := 5.0

  function Centre(r: Rect): Point2
  {
    Point2(r.x + r.w / 2.0, r.y + r.h / 2.0)
  }

  function SqDist(p: Point2, q: Point2): real
  {
    (p.x - q.x) * (p.x - q.x) + (p.y - q.y) * (p.y - q.y)
  }

  /** The value a squared distance must stay strictly below to be closer
      than `bound`. No distance is below a bound that is not positive. */
  function Limit(bound: real): real
  {
    if bound > 0.0 then bound * bound else 0.0
  }

  /** A Euclidean distance (never negative) is below `bound` exactly when its
      square is below `Limit(bound)`. This covers the first comparison, with
      `dist_thresh`, and the later ones, with a `min_dist` that is itself a
      distance: each squared comparison of the model agrees with the
      corresponding `math.hypot` comparison of the source. */
  lemma {:induction false} SquaredComparison(dist: real, bound: real)
    requires dist >= 0.0
    ensures dist < bound <==> dist * dist < Limit(bound)
  {
    if bound > 0.0 {
      if dist < bound {
        SquareBelow(dist, bound);
      } else {
        SquareBelow(bound, dist);
      }
    }
  }

  /** Squaring preserves the order of non-negative reals. */
  lemma {:induction false} SquareBelow(a: real, b: real)
    requires 0.0 <= a <= b
    ensures a * a <= b * b && (a < b ==> a * a < b * b)
  {
    var x, y := b - a, b + a;
    assert x >= 0.0 && y >= 0.0;
    assert x * y >= 0.0;
    assert x * y == b * b - a * a;
    if a < b {
      assert x > 0.0 && y > 0.0;
      assert x * y > 0.0;
    }
  }

  /** Squared distance from the centre of detection `i` to `p`. */
  function DetDist(rects: seq<Rect>, i: nat, p: Point2): real
    requires i < |rects|
  {
    SqDist(Centre(rects[i]), p)
  }

  predicate InRange(s: seq<nat>, n: nat)
  {
    forall k :: 0 <= k < |s| ==> s[k] < n
  }

  predicate Increasing(s: seq<nat>)
  {
    forall j, k :: 0 <= j < k < |s| ==> s[j] < s[k]
  }

  predicate PairsIn(ps: seq<Pairing>, n: nat)
  {
    forall j :: 0 <= j < |ps| ==> ps[j].det < n
  }

  predicate DistinctIds(s: seq<Track>)
  {
    forall i, j :: 0 <= i < j < |s| ==> s[i].id != s[j].id
  }

  /** The tracker's invariant: the dictionary's keys are distinct and every
      key is an id already issued, that is, one of 1 .. count. */
  predicate WellFormed(tracks: seq<Track>, count: nat)
  {
    DistinctIds(tracks) && forall i :: 0 <= i < |tracks| ==> 1 <= tracks[i].id <= count
  }

  /** `list(range(n))` */
  function Indices(n: nat): seq<nat>
  {
    seq(n, i requires 0 <= i < n => i)
  }

  /** The inner loop for one tracked id with centre `p`: scan the unmatched
      detections in order, keeping the current best; a detection replaces it
      only when strictly closer, and the first bound is the threshold. */
  function Nearest(rects: seq<Rect>, um: seq<nat>, p: Point2, thresh: real): (c: Choice)
    requires InRange(um, |rects|)
    ensures c.Best? ==> c.pos < |um|
    decreases |um|
  {
    if um == [] then NoMatch
    else
      var prev := Nearest(rects, um[..|um| - 1], p, thresh);
      var d := DetDist(rects, um[|um| - 1], p);
      if d < (if prev.Best? then prev.sq else Limit(thresh)) then Best(|um| - 1, d) else prev
  }

  /** One iteration of the outer loop: tracked entry `tr` claims its nearest
      unmatched detection, if any; the entry is kept either way (the source
      drops unmatched ids only after the loop). */
  function Step(rects: seq<Rect>, thresh: real, st: Pass, tr: Track): (r: Pass)
    requires InRange(st.unmatched, |rects|) && PairsIn(st.pairs, |rects|)
    ensures InRange(r.unmatched, |rects|) && PairsIn(r.pairs, |rects|)
  {
    match Nearest(rects, st.unmatched, tr.centre, thresh)
    case NoMatch => Pass(st.pairs, st.tracks + [tr], st.unmatched)
    case Best(pos, _) =>
      var i := st.unmatched[pos];
      Pass(st.pairs + [Pairing(i, tr.id)], st.tracks + [Track(tr.id, Centre(rects[i]))],
           st.unmatched[..pos] + st.unmatched[pos + 1..])
  }

  /** The matching pass over the tracked entries `tracks`, in order. */
  function MatchPass(rects: seq<Rect>, thresh: real, tracks: seq<Track>): (st: Pass)
    ensures InRange(st.unmatched, |rects|) && PairsIn(st.pairs, |rects|)
    decreases |tracks|
  {
    if tracks == [] then Pass([], [], Indices(|rects|))
    else Step(rects, thresh, MatchPass(rects, thresh, tracks[..|tracks| - 1]), tracks[|tracks| - 1])
  }

  /** The leftover detections `um` get ids count + 1, count + 2, ... in order. */
  function SpawnPairs(um: seq<nat>, count: nat): seq<Pairing>
  {
    seq(|um|, k requires 0 <= k < |um| => Pairing(um[k], count + k + 1))
  }

  function Tag(r: Rect, id: int): TrackedRect
  {
    TrackedRect(r.x, r.y, r.w, r.h, id)
  }

  function RectOf(t: TrackedRect): Rect
  {
    Rect(t.x, t.y, t.w, t.h)
  }

  /** The returned list for the pairings `ps`. */
  function Emit(rects: seq<Rect>, ps: seq<Pairing>): seq<TrackedRect>
    requires PairsIn(ps, |rects|)
  {
    seq(|ps|, j requires 0 <= j < |ps| => Tag(rects[ps[j].det], ps[j].id))
  }

  /** The dictionary entries stored for the pairings `ps`. */
  function Placed(rects: seq<Rect>, ps: seq<Pairing>): seq<Track>
    requires PairsIn(ps, |rects|)
  {
    seq(|ps|, j requires 0 <= j < |ps| => Track(ps[j].id, Centre(rects[ps[j].det])))
  }

  /** One more pairing adds one returned entry and one dictionary entry at the end. */
  lemma {:induction false} AppendPairing(rects: seq<Rect>, ps: seq<Pairing>, p: Pairing)
    requires PairsIn(ps, |rects|) && p.det < |rects|
    ensures PairsIn(ps + [p], |rects|)
    ensures Emit(rects, ps + [p]) == Emit(rects, ps) + [Tag(rects[p.det], p.id)]
    ensures Placed(rects, ps + [p]) == Placed(rects, ps) + [Track(p.id, Centre(rects[p.det]))]
  {
  }

  function Dets(ps: seq<Pairing>): seq<nat>
  {
    seq(|ps|, j requires 0 <= j < |ps| => ps[j].det)
  }

  /** `{obj[4] for obj in tracked_objects}` */
  function IdSet(out: seq<TrackedRect>): set<int>
  {
    set j | 0 <= j < |out| :: out[j].id
  }

  /** The key set of the dictionary. */
  function Keys(s: seq<Track>): set<int>
  {
    set j | 0 <= j < |s| :: s[j].id
  }

  /** Dictionary lookup (the last entry with the key wins, as a later
      assignment to a Python dictionary key would). */
  function Lookup(s: seq<Track>, id: int): Option<Point2>
    decreases |s|
  {
    if s == [] then None
    else if s[|s| - 1].id == id then Some(s[|s| - 1].centre)
    else Lookup(s[..|s| - 1], id)
  }

  /** The dictionary comprehension that keeps only the entries whose key is in `keep`. */
  function Retain(s: seq<Track>, keep: set<int>): seq<Track>
    decreases |s|
  {
    if s == [] then []
    else Retain(s[..|s| - 1], keep) + (if s[|s| - 1].id in keep then [s[|s| - 1]] else [])
  }

  /** All pairings of one `update` call, in the order of the returned list:
      first the matched ones in dictionary order, then the new ones. */
  function UpdatePairs(tracks: seq<Track>, count: nat, rects: seq<Rect>, thresh: real): (ps: seq<Pairing>)
    ensures PairsIn(ps, |rects|)
  {
    var st := MatchPass(rects, thresh, tracks);
    st.pairs + SpawnPairs(st.unmatched, count)
  }

  /** The dictionary just before the final clean-up: the entries after the
      matching pass, followed by one entry per new id. */
  function Staged(tracks: seq<Track>, count: nat, rects: seq<Rect>, thresh: real): seq<Track>
  {
    var st := MatchPass(rects, thresh, tracks);
    st.tracks + Placed(rects, SpawnPairs(st.unmatched, count))
  }

  /** What `update(rects, thresh)` returns and leaves behind, from dictionary
      `tracks` and counter `count`. */
  function UpdateSpec(tracks: seq<Track>, count: nat, rects: seq<Rect>, thresh: real): Outcome
  {
    var out := Emit(rects, UpdatePairs(tracks, count, rects, thresh));
    Outcome(out, Retain(Staged(tracks, count, rects, thresh), IdSet(out)),
            count + |MatchPass(rects, thresh, tracks).unmatched|)
  }

  /** The tracker object: `center_points` and `id_count`. */
  class EuclideanDistTracker {
    var centerPoints: seq<Track>
    var idCount: nat

    predicate Valid()
      reads this
    {
      WellFormed(centerPoints, idCount)
    }

    constructor ()
      ensures Valid()
      ensures centerPoints == [] && idCount == 0
    {
      centerPoints := [];
      idCount := 0;
    }

    /** `update(objects_rects, dist_thresh)` */
    method Update(objectsRects: seq<Rect>, distThresh: real) returns (trackedObjects: seq<TrackedRect>)
      requires Valid()
      modifies this
      ensures Valid()
      ensures Outcome(trackedObjects, centerPoints, idCount)
              == UpdateSpec(old(centerPoints), old(idCount), objectsRects, distThresh)
    {
      ghost var tracks0 := centerPoints;
      ghost var count0 := idCount;
      var unmatched;
      trackedObjects, unmatched := MatchTracked(objectsRects, distThresh);
      ghost var st := MatchPass(objectsRects, distThresh, tracks0);
      trackedObjects := SpawnUnmatched(objectsRects, unmatched, trackedObjects, st.pairs);

      var activeIds := set j | 0 <= j < |trackedObjects| :: trackedObjects[j].id;
      centerPoints := Retain(centerPoints, activeIds);
      UpdateKeysAreOutputIds(tracks0, count0, objectsRects, distThresh);
      UpdateWellFormed(tracks0, count0, objectsRects, distThresh);
    }

    /** The first part of `update`: every tracked id in turn claims the
        closest unmatched detection strictly within the threshold; its
        entry is overwritten with that detection's centre. */
    method MatchTracked(objectsRects: seq<Rect>, distThresh: real)
      returns (trackedObjects: seq<TrackedRect>, unmatched: seq<nat>)
      modifies this
      ensures var st := MatchPass(objectsRects, distThresh, old(centerPoints));
        && trackedObjects == Emit(objectsRects, st.pairs)
        && centerPoints == st.tracks && unmatched == st.unmatched
      ensures idCount == old(idCount)
    {
      trackedObjects := [];
      unmatched := Indices(|objectsRects|);
      if |centerPoints| > 0 {
        var points;
        points, trackedObjects, unmatched := MatchEntries(objectsRects, distThresh, centerPoints);
        centerPoints := points;
      }
    }

    /** The second part of `update`: each detection left unmatched gets the
        next id, in order; `ps` are the pairings returned so far. */
    method SpawnUnmatched(objectsRects: seq<Rect>, unmatched: seq<nat>, before: seq<TrackedRect>,
                          ghost ps: seq<Pairing>)
      returns (trackedObjects: seq<TrackedRect>)
      requires InRange(unmatched, |objectsRects|) && PairsIn(ps, |objectsRects|)
      requires before == Emit(objectsRects, ps)
      modifies this
      ensures idCount == old(idCount) + |unmatched|
      ensures trackedObjects == Emit(objectsRects, ps + SpawnPairs(unmatched, old(idCount)))
      ensures centerPoints == old(centerPoints) + Placed(objectsRects, SpawnPairs(unmatched, old(idCount)))
    {
      ghost var count0 := idCount;
      trackedObjects := before;
      for k := 0 to |unmatched|
        invariant idCount == count0 + k
        invariant trackedObjects == Emit(objectsRects, ps + SpawnPairs(unmatched[..k], count0))
        invariant centerPoints == old(centerPoints) + Placed(objectsRects, SpawnPairs(unmatched[..k], count0))
      {
        var p := Pairing(unmatched[k], count0 + k + 1);
        assert unmatched[..k + 1] == unmatched[..k] + [unmatched[k]];
        assert SpawnPairs(unmatched[..k + 1], count0) == SpawnPairs(unmatched[..k], count0) + [p];
        AppendPairing(objectsRects, SpawnPairs(unmatched[..k], count0), p);
        AppendPairing(objectsRects, ps + SpawnPairs(unmatched[..k], count0), p);
        assert ps + SpawnPairs(unmatched[..k + 1], count0)
               == (ps + SpawnPairs(unmatched[..k], count0)) + [p];
        var i := unmatched[k];
        var r := objectsRects[i];
        idCount := idCount + 1;
        centerPoints := centerPoints + [Track(idCount, Centre(r))];
        trackedObjects := trackedObjects + [Tag(r, idCount)];
      }
      assert unmatched[..|unmatched|] == unmatched;
    }
  }

  /** The loop state of `update` after its first `t` dictionary entries:
      the entries seen so far are rewritten as `MatchPass` says, the rest
      are still as they were. */
  ghost predicate Matched(rects: seq<Rect>, thresh: real, tracks: seq<Track>, t: nat,
                          points: seq<Track>, emitted: seq<TrackedRect>, unmatched: seq<nat>)
  {
    && t <= |tracks|
    && var st := MatchPass(rects, thresh, tracks[..t]);
    && |st.tracks| == t && points == st.tracks + tracks[t..]
    && emitted == Emit(rects, st.pairs) && unmatched == st.unmatched
  }

  lemma {:induction false} MatchPassSnoc(rects: seq<Rect>, thresh: real, tracks: seq<Track>, t: nat)
    requires t < |tracks|
    ensures MatchPass(rects, thresh, tracks[..t + 1])
         == Step(rects, thresh, MatchPass(rects, thresh, tracks[..t]), tracks[t])
  {
    assert tracks[..t + 1][..t] == tracks[..t];
  }

  /** One pass of the outer loop of `update` over the entry at position `t`. */
  method MatchNext(rects: seq<Rect>, thresh: real, tracks: seq<Track>, t: nat,
                   points: seq<Track>, emitted: seq<TrackedRect>, unmatched: seq<nat>)
    returns (points': seq<Track>, emitted': seq<TrackedRect>, unmatched': seq<nat>)
    requires t < |tracks| && Matched(rects, thresh, tracks, t, points, emitted, unmatched)
    ensures Matched(rects, thresh, tracks, t + 1, points', emitted', unmatched')
  {
    ghost var st := MatchPass(rects, thresh, tracks[..t]);
    MatchPassOrdered(rects, thresh, tracks[..t]);
    assert points[t] == tracks[t];
    var entry;
    entry, emitted', unmatched' := ClaimNearest(rects, thresh, points[t], emitted, unmatched, st);
    ReplaceNext(st.tracks, tracks[t..], entry);
    points' := points[t := entry];
    assert tracks[t..][1..] == tracks[t + 1..];
    MatchPassSnoc(rects, thresh, tracks, t);
  }

  /** The outer loop of `update` over the dictionary `tracks`, in order,
      starting from the empty returned list with all detections unmatched. */
  method MatchEntries(objectsRects: seq<Rect>, distThresh: real, tracks: seq<Track>)
    returns (points: seq<Track>, trackedObjects: seq<TrackedRect>, unmatched: seq<nat>)
    ensures var st := MatchPass(objectsRects, distThresh, tracks);
      && trackedObjects == Emit(objectsRects, st.pairs)
      && points == st.tracks && unmatched == st.unmatched
  {
    points, trackedObjects, unmatched := tracks, [], Indices(|objectsRects|);
    assert tracks[..0] == [];
    var t := 0;
    while t < |points|
      invariant |points| == |tracks|
      invariant Matched(objectsRects, distThresh, tracks, t, points, trackedObjects, unmatched)
    {
      points, trackedObjects, unmatched := MatchNext(objectsRects, distThresh, tracks, t, points, trackedObjects, unmatched);
      t := t + 1;
    }
    assert tracks[..t] == tracks && tracks[t..] == [];
  }

  /** One iteration of the outer loop of `update`, for the tracked entry
      `tr`: claim the closest unmatched detection, if any, append it to the
      returned list, remove it from the unmatched list, and give back the
      entry with its new centre (the old one when nothing was claimed). */
  method ClaimNearest(objectsRects: seq<Rect>, distThresh: real, tr: Track,
                      trackedObjects: seq<TrackedRect>, unmatched: seq<nat>, ghost st: Pass)
    returns (entry: Track, trackedObjects': seq<TrackedRect>, unmatched': seq<nat>)
    requires InRange(st.unmatched, |objectsRects|) && PairsIn(st.pairs, |objectsRects|)
    requires Increasing(st.unmatched)
    requires trackedObjects == Emit(objectsRects, st.pairs) && unmatched == st.unmatched
    ensures var next := Step(objectsRects, distThresh, st, tr);
      && trackedObjects' == Emit(objectsRects, next.pairs) && unmatched' == next.unmatched
      && next.tracks == st.tracks + [entry]
  {
    var objId, pt := tr.id, tr.centre;
    entry, trackedObjects', unmatched' := tr, trackedObjects, unmatched;
    ghost var c := Nearest(objectsRects, unmatched, pt, distThresh);
    var bestMatchIdx := ClosestUnmatched(objectsRects, unmatched, pt, distThresh);
    if bestMatchIdx != -1 {
      RemoveFirst(unmatched, c.pos);
      var r := objectsRects[bestMatchIdx];
      AppendPairing(objectsRects, st.pairs, Pairing(bestMatchIdx, objId));
      entry := Track(objId, Centre(r));
      trackedObjects' := trackedObjects + [Tag(r, objId)];
      unmatched' := Remove(unmatched, bestMatchIdx);
    }
  }

  /** Overwriting the entry just after `a` in `a + b`. */
  lemma {:induction false} ReplaceNext(a: seq<Track>, b: seq<Track>, x: Track)
    requires b != []
    ensures (a + b)[|a| := x] == (a + [x]) + b[1..]
  {
  }

  /** The inner loop of `update`: scan the unmatched detections for the
      closest one strictly within the threshold; -1 when there is none. */
  method ClosestUnmatched(rects: seq<Rect>, unmatched: seq<nat>, pt: Point2, thresh: real)
    returns (bestMatchIdx: int)
    requires InRange(unmatched, |rects|)
    ensures var c := Nearest(rects, unmatched, pt, thresh);
      bestMatchIdx == if c.NoMatch? then -1 else unmatched[c.pos]
  {
    bestMatchIdx := -1;
    var minSq := Limit(thresh);
    for k := 0 to |unmatched|
      invariant var c := Nearest(rects, unmatched[..k], pt, thresh);
                (c.NoMatch? ==> bestMatchIdx == -1 && minSq == Limit(thresh))
                && (c.Best? ==> bestMatchIdx == unmatched[c.pos] && minSq == c.sq)
    {
      assert unmatched[..k + 1][..k] == unmatched[..k];
      var i := unmatched[k];
      var d := SqDist(Centre(rects[i]), pt);
      if d < minSq {
        minSq := d;
        bestMatchIdx := i;
      }
    }
    assert unmatched[..|unmatched|] == unmatched;
  }

  /** `list.remove(v)`: drop the first occurrence of `v`. */
  function Remove(s: seq<nat>, v: nat): (r: seq<nat>)
    requires v in s
    ensures |r| == |s| - 1
    decreases |s|
  {
    if s[0] == v then s[1..] else [s[0]] + Remove(s[1..], v)
  }

  /** Removing the value at a position of an increasing list removes that position. */
  lemma {:induction false} RemoveFirst(s: seq<nat>, pos: nat)
    requires Increasing(s) && pos < |s|
    ensures Remove(s, s[pos]) == s[..pos] + s[pos + 1..]
  {
    if pos > 0 {
      var t := s[1..];
      assert t[pos - 1] == s[pos];
      assert s[0] < s[pos];
      assert Increasing(t);
      RemoveFirst(t, pos - 1);
      assert Remove(s, s[pos]) == [s[0]] + Remove(t, s[pos]);
      assert t[..pos - 1] + t[pos..] == s[1..pos] + s[pos + 1..];
      assert [s[0]] + s[1..pos] == s[..pos];
    }
  }

  // ---------------------------------------------------------------------
  // The inner scan

  /** The inner scan of `update` finds the detection at minimum distance
      among the unmatched ones, strictly within the threshold, and the
      earliest one on ties; it finds nothing exactly when no unmatched
      detection is strictly within the threshold. */
  lemma {:induction false} NearestIsEarliestMinimum(rects: seq<Rect>, um: seq<nat>, p: Point2, thresh: real)
    requires InRange(um, |rects|)
    ensures var c := Nearest(rects, um, p, thresh);
      && (c.NoMatch? <==> forall k :: 0 <= k < |um| ==> DetDist(rects, um[k], p) >= Limit(thresh))
      && (c.Best? ==>
            && c.sq == DetDist(rects, um[c.pos], p)
            && c.sq < Limit(thresh)
            && (forall k :: 0 <= k < |um| ==> c.sq <= DetDist(rects, um[k], p))
            && (forall k :: 0 <= k < c.pos ==> c.sq < DetDist(rects, um[k], p)))
  {
    if um != [] {
      var init := um[..|um| - 1];
      NearestIsEarliestMinimum(rects, init, p, thresh);
      assert forall k :: 0 <= k < |init| ==> init[k] == um[k];
    }
  }

  // ---------------------------------------------------------------------
  // Dictionary helpers

  lemma {:induction false} LookupAt(s: seq<Track>, i: nat)
    requires DistinctIds(s) && i < |s|
    ensures Lookup(s, s[i].id) == Some(s[i].centre)
  {
    if i < |s| - 1 {
      LookupAt(s[..|s| - 1], i);
    }
  }

  lemma {:induction false} LookupFound(s: seq<Track>, id: int)
    requires Lookup(s, id).Some?
    ensures exists i :: 0 <= i < |s| && s[i] == Track(id, Lookup(s, id).value)
  {
    if s[|s| - 1].id != id {
      var init := s[..|s| - 1];
      LookupFound(init, id);
      var i :| 0 <= i < |init| && init[i] == Track(id, Lookup(init, id).value);
      assert s[i] == init[i];
    } else {
      assert s[|s| - 1] == Track(id, Lookup(s, id).value);
    }
  }

  lemma {:induction false} LookupAbsent(s: seq<Track>, id: int)
    requires forall i :: 0 <= i < |s| ==> s[i].id != id
    ensures Lookup(s, id) == None
  {
    if s != [] {
      LookupAbsent(s[..|s| - 1], id);
    }
  }

  /** The kept entries come from the dictionary and carry a kept key. */
  lemma {:induction false} RetainSubset(s: seq<Track>, keep: set<int>)
    ensures multiset(Retain(s, keep)) <= multiset(s)
    ensures forall i :: 0 <= i < |Retain(s, keep)| ==> Retain(s, keep)[i].id in keep
    decreases |s|
  {
    if s != [] {
      var init := s[..|s| - 1];
      RetainSubset(init, keep);
      assert s == init + [s[|s| - 1]];
    }
  }

  lemma {:induction false} RetainDistinct(s: seq<Track>, keep: set<int>)
    requires DistinctIds(s)
    ensures DistinctIds(Retain(s, keep))
    decreases |s|
  {
    if s != [] {
      var init := s[..|s| - 1];
      var last := s[|s| - 1];
      RetainDistinct(init, keep);
      RetainSubset(init, keep);
      var r0 := Retain(init, keep);
      if last.id in keep {
        forall i | 0 <= i < |r0|
          ensures r0[i].id != last.id
        {
          assert r0[i] in multiset(r0);
          assert r0[i] in init;
          var k :| 0 <= k < |init| && init[k] == r0[i];
          assert s[k] == init[k];
        }
      }
    }
  }

  lemma {:induction false} RetainLookup(s: seq<Track>, keep: set<int>, id: int)
    ensures Lookup(Retain(s, keep), id) == if id in keep then Lookup(s, id) else None
    decreases |s|
  {
    if s != [] {
      var init := s[..|s| - 1];
      var last := s[|s| - 1];
      RetainLookup(init, keep, id);
      var r0 := Retain(init, keep);
      if last.id in keep {
        assert Retain(s, keep) == r0 + [last];
        assert (r0 + [last])[..|r0|] == r0;
      } else {
        assert Retain(s, keep) == r0;
      }
    }
  }

  // ---------------------------------------------------------------------
  // The matching pass

  /** The pairings made and the detections left form a permutation of all
      detection indices. */
  lemma {:induction false} MatchPassPermutes(rects: seq<Rect>, thresh: real, tracks: seq<Track>)
    ensures var st := MatchPass(rects, thresh, tracks);
      multiset(Dets(st.pairs)) + multiset(st.unmatched) == multiset(Indices(|rects|))
    decreases |tracks|
  {
    if tracks != [] {
      var prev := MatchPass(rects, thresh, tracks[..|tracks| - 1]);
      MatchPassPermutes(rects, thresh, tracks[..|tracks| - 1]);
      var tr := tracks[|tracks| - 1];
      var um := prev.unmatched;
      var c := Nearest(rects, um, tr.centre, thresh);
      if c.Best? {
        var pos := c.pos;
        var st := MatchPass(rects, thresh, tracks);
        assert st.pairs == prev.pairs + [Pairing(um[pos], tr.id)];
        SliceOutMultiset(um, pos);
        DetsAppend(prev.pairs, Pairing(um[pos], tr.id));
      }
    }
  }

  lemma {:induction false} SliceOutMultiset(s: seq<nat>, pos: nat)
    requires pos < |s|
    ensures multiset(s) == multiset(s[..pos] + s[pos + 1..]) + multiset{s[pos]}
  {
    assert s == s[..pos] + [s[pos]] + s[pos + 1..];
  }

  lemma {:induction false} DetsAppend(ps: seq<Pairing>, p: Pairing)
    ensures Dets(ps + [p]) == Dets(ps) + [p.det]
  {
  }

  /** The detections left unmatched stay in input order. */
  lemma {:induction false} MatchPassOrdered(rects: seq<Rect>, thresh: real, tracks: seq<Track>)
    ensures Increasing(MatchPass(rects, thresh, tracks).unmatched)
    decreases |tracks|
  {
    if tracks != [] {
      var prev := MatchPass(rects, thresh, tracks[..|tracks| - 1]);
      MatchPassOrdered(rects, thresh, tracks[..|tracks| - 1]);
      var tr := tracks[|tracks| - 1];
      var c := Nearest(rects, prev.unmatched, tr.centre, thresh);
      if c.Best? {
        SliceOutIncreasing(prev.unmatched, c.pos);
      }
    }
  }

  /** One more tracked entry, in the terms the loop of `update` uses:
      `list.remove` of the claimed detection index. */
  lemma {:induction false} MatchPassNext(rects: seq<Rect>, thresh: real, tracks: seq<Track>, t: nat)
    requires t < |tracks|
    ensures var st := MatchPass(rects, thresh, tracks[..t]);
            var next := MatchPass(rects, thresh, tracks[..t + 1]);
            var c := Nearest(rects, st.unmatched, tracks[t].centre, thresh);
      && (c.NoMatch? ==> next == Pass(st.pairs, st.tracks + [tracks[t]], st.unmatched))
      && (c.Best? ==>
            && st.unmatched[c.pos] < |rects|
            && next == Pass(st.pairs + [Pairing(st.unmatched[c.pos], tracks[t].id)],
                            st.tracks + [Track(tracks[t].id, Centre(rects[st.unmatched[c.pos]]))],
                            Remove(st.unmatched, st.unmatched[c.pos])))
  {
    assert tracks[..t + 1][..t] == tracks[..t];
    var st := MatchPass(rects, thresh, tracks[..t]);
    var c := Nearest(rects, st.unmatched, tracks[t].centre, thresh);
    if c.Best? {
      MatchPassOrdered(rects, thresh, tracks[..t]);
      RemoveFirst(st.unmatched, c.pos);
    }
  }

  lemma {:induction false} SliceOutIncreasing(s: seq<nat>, pos: nat)
    requires Increasing(s) && pos < |s|
    ensures Increasing(s[..pos] + s[pos + 1..])
  {
    var r := s[..pos] + s[pos + 1..];
    forall j, k | 0 <= j < k < |r|
      ensures r[j] < r[k]
    {
      var j' := if j < pos then j else j + 1;
      var k' := if k < pos then k else k + 1;
      assert r[j] == s[j'] && r[k] == s[k'];
    }
  }

  /** The matching pass keeps every entry's key and position. */
  lemma {:induction false} MatchPassKeepsKeys(rects: seq<Rect>, thresh: real, tracks: seq<Track>)
    ensures var st := MatchPass(rects, thresh, tracks);
      |st.tracks| == |tracks| && forall i :: 0 <= i < |tracks| ==> st.tracks[i].id == tracks[i].id
    decreases |tracks|
  {
    if tracks != [] {
      var init, tr := tracks[..|tracks| - 1], tracks[|tracks| - 1];
      MatchPassKeepsKeys(rects, thresh, init);
      var prev := MatchPass(rects, thresh, init);
      var st := MatchPass(rects, thresh, tracks);
      assert st == Step(rects, thresh, prev, tr);
      StepShape(rects, thresh, prev, tr);
      forall i | 0 <= i < |tracks|
        ensures st.tracks[i].id == tracks[i].id
      {
        if i < |init| {
          assert st.tracks[..|prev.tracks|][i] == prev.tracks[i];
          assert init[i] == tracks[i];
        }
      }
    }
  }

  /** One step keeps the processed entries and appends one entry with the same key. */
  lemma {:induction false} StepShape(rects: seq<Rect>, thresh: real, st: Pass, tr: Track)
    requires InRange(st.unmatched, |rects|) && PairsIn(st.pairs, |rects|)
    ensures var r := Step(rects, thresh, st, tr);
      && |r.tracks| == |st.tracks| + 1 && r.tracks[..|st.tracks|] == st.tracks
      && r.tracks[|st.tracks|].id == tr.id
  {
  }

  /** Every pairing carries a key of `tracks`. */
  predicate PairedKeys(ps: seq<Pairing>, tracks: seq<Track>)
  {
    forall j :: 0 <= j < |ps| ==> ps[j].id in Keys(tracks)
  }

  /** No id is paired twice. */
  predicate DistinctPairIds(ps: seq<Pairing>)
  {
    forall j, k :: 0 <= j < k < |ps| ==> ps[j].id != ps[k].id
  }

  /** Each pairing of the matching pass carries the key of an entry, and no
      key is paired twice. */
  lemma {:induction false} MatchPassPairsOnce(rects: seq<Rect>, thresh: real, tracks: seq<Track>)
    requires DistinctIds(tracks)
    ensures PairedKeys(MatchPass(rects, thresh, tracks).pairs, tracks)
    ensures DistinctPairIds(MatchPass(rects, thresh, tracks).pairs)
    decreases |tracks|
  {
    if tracks != [] {
      var init := tracks[..|tracks| - 1];
      var tr := tracks[|tracks| - 1];
      MatchPassPairsOnce(rects, thresh, init);
      var prev := MatchPass(rects, thresh, init);
      PrefixKeys(tracks, prev.pairs);
      assert tr.id in Keys(tracks) by {
        assert tracks[|tracks| - 1].id == tr.id;
      }
      var c := Nearest(rects, prev.unmatched, tr.centre, thresh);
      if c.Best? {
        var st := MatchPass(rects, thresh, tracks);
        assert st.pairs == prev.pairs + [Pairing(prev.unmatched[c.pos], tr.id)];
      }
    }
  }

  /** Ids that are keys of all but the last entry are keys of the whole
      dictionary, and differ from the last entry's key. */
  lemma {:induction false} PrefixKeys(tracks: seq<Track>, ps: seq<Pairing>)
    requires DistinctIds(tracks) && tracks != []
    requires PairedKeys(ps, tracks[..|tracks| - 1])
    ensures forall j :: 0 <= j < |ps| ==> ps[j].id in Keys(tracks) && ps[j].id != tracks[|tracks| - 1].id
  {
    var init := tracks[..|tracks| - 1];
    forall j | 0 <= j < |ps|
      ensures ps[j].id in Keys(tracks) && ps[j].id != tracks[|tracks| - 1].id
    {
      var i :| 0 <= i < |init| && init[i].id == ps[j].id;
      assert tracks[i] == init[i];
    }
  }

  /** Each paired id is stored in `tracks` with the centre of its detection. */
  predicate CentresStored(rects: seq<Rect>, ps: seq<Pairing>, tracks: seq<Track>)
    requires PairsIn(ps, |rects|)
  {
    forall j :: 0 <= j < |ps| ==> Lookup(tracks, ps[j].id) == Some(Centre(rects[ps[j].det]))
  }

  /** After the matching pass, each paired id is stored with the centre of its detection. */
  lemma {:induction false} MatchPassCentres(rects: seq<Rect>, thresh: real, tracks: seq<Track>)
    requires DistinctIds(tracks)
    ensures var st := MatchPass(rects, thresh, tracks);
      CentresStored(rects, st.pairs, st.tracks)
    decreases |tracks|
  {
    if tracks != [] {
      var n := |tracks| - 1;
      var init := tracks[..n];
      MatchPassCentres(rects, thresh, init);
      MatchPassPairsOnce(rects, thresh, init);
      MatchPassNext(rects, thresh, tracks, n);
      assert tracks[..n + 1] == tracks;
      var prev := MatchPass(rects, thresh, init);
      var st := MatchPass(rects, thresh, tracks);
      PrefixKeys(tracks, prev.pairs);
      assert st.tracks[..|st.tracks| - 1] == prev.tracks;
      forall j | 0 <= j < |prev.pairs|
        ensures Lookup(st.tracks, prev.pairs[j].id) == Lookup(prev.tracks, prev.pairs[j].id)
      {
      }
    }
  }

  /** Each paired id is a key of `tracks` whose stored centre lies strictly
      within the threshold of its detection's centre. */
  predicate WithinThreshold(rects: seq<Rect>, ps: seq<Pairing>, tracks: seq<Track>, thresh: real)
    requires PairsIn(ps, |rects|)
  {
    forall j :: 0 <= j < |ps| ==>
      Lookup(tracks, ps[j].id).Some? && DetDist(rects, ps[j].det, Lookup(tracks, ps[j].id).value) < Limit(thresh)
  }

  /** Every pairing of the matching pass joins a tracked id to a detection
      whose centre is strictly within the threshold of the id's old centre. */
  lemma {:induction false} MatchPassWithinThreshold(rects: seq<Rect>, thresh: real, tracks: seq<Track>)
    requires DistinctIds(tracks)
    ensures WithinThreshold(rects, MatchPass(rects, thresh, tracks).pairs, tracks, thresh)
    decreases |tracks|
  {
    if tracks != [] {
      var init := tracks[..|tracks| - 1];
      var tr := tracks[|tracks| - 1];
      MatchPassWithinThreshold(rects, thresh, init);
      MatchPassPairsOnce(rects, thresh, init);
      var prev := MatchPass(rects, thresh, init);
      PrefixKeys(tracks, prev.pairs);
      NearestIsEarliestMinimum(rects, prev.unmatched, tr.centre, thresh);
    }
  }

  // ---------------------------------------------------------------------
  // What one update call promises

  /** Every input detection appears exactly once in the returned list, with
      its x, y, w and h unchanged: the detection indices behind the returned
      entries are a permutation of 0 .. |rects| - 1. */
  lemma {:induction false} UpdateKeepsEveryDetection(tracks: seq<Track>, count: nat, rects: seq<Rect>, thresh: real)
    ensures var out := UpdateSpec(tracks, count, rects, thresh).output;
            var ps := UpdatePairs(tracks, count, rects, thresh);
      && |out| == |rects| && |ps| == |rects|
      && multiset(Dets(ps)) == multiset(Indices(|rects|))
      && (forall i :: 0 <= i < |rects| ==> multiset(Dets(ps))[i] == 1)
      && (forall j :: 0 <= j < |out| ==> RectOf(out[j]) == rects[ps[j].det] && out[j].id == ps[j].id)
  {
    var st := MatchPass(rects, thresh, tracks);
    var ps := UpdatePairs(tracks, count, rects, thresh);
    var out := UpdateSpec(tracks, count, rects, thresh).output;
    assert out == Emit(rects, ps);
    MatchPassPermutes(rects, thresh, tracks);
    DetsSplit(st.pairs, st.unmatched, count);
    assert multiset(Dets(ps)) == multiset(Indices(|rects|));
    IndicesOnce(|rects|);
    assert |Dets(ps)| == |multiset(Dets(ps))| == |Indices(|rects|)|;
  }

  lemma {:induction false} DetsSplit(ps: seq<Pairing>, um: seq<nat>, count: nat)
    ensures Dets(ps + SpawnPairs(um, count)) == Dets(ps) + um
  {
    var l := Dets(ps + SpawnPairs(um, count));
    var r := Dets(ps) + um;
    assert |l| == |r|;
    forall j | 0 <= j < |l|
      ensures l[j] == r[j]
    {
      if j >= |ps| {
        assert (ps + SpawnPairs(um, count))[j] == SpawnPairs(um, count)[j - |ps|];
      }
    }
  }

  /** Each index below n occurs once in `list(range(n))`. */
  lemma {:induction false} IndicesOnce(n: nat)
    ensures forall i :: 0 <= i < n ==> multiset(Indices(n))[i] == 1
    ensures forall i :: multiset(Indices(n))[i] > 0 ==> 0 <= i < n
  {
    forall i
      ensures multiset(Indices(n))[i] == if 0 <= i < n then 1 else 0
    {
      IndicesCount(n, i);
    }
  }

  /** How often one value occurs in `list(range(n))`. */
  lemma {:induction false} IndicesCount(n: nat, i: int)
    ensures multiset(Indices(n))[i] == if 0 <= i < n then 1 else 0
    decreases n
  {
    if n > 0 {
      IndicesCount(n - 1, i);
      var s, last := Indices(n - 1), n - 1;
      assert Indices(n) == s + [last];
      assert multiset(s + [last]) == multiset(s) + multiset{last};
    } else {
      assert Indices(n) == [];
    }
  }

  /** The pairings of one call, split at the boundary between matched and
      new ids: matched ids are keys of the old dictionary, paired at most
      once each; new ids are count + 1, count + 2, ... for the leftover
      detections in input order. */
  lemma {:induction false} UpdatePairsIds(tracks: seq<Track>, count: nat, rects: seq<Rect>, thresh: real)
    requires WellFormed(tracks, count)
    ensures var st := MatchPass(rects, thresh, tracks);
            var ps := UpdatePairs(tracks, count, rects, thresh);
      && ps == st.pairs + SpawnPairs(st.unmatched, count)
      && (forall j :: 0 <= j < |st.pairs| ==> ps[j].id in Keys(tracks) && 1 <= ps[j].id <= count)
      && (forall j :: |st.pairs| <= j < |ps| ==> ps[j].id == count + (j - |st.pairs|) + 1)
      && (forall j, k :: |st.pairs| <= j < k < |ps| ==> ps[j].det < ps[k].det)
      && (forall j, k :: 0 <= j < k < |ps| ==> ps[j].id != ps[k].id)
  {
    var st := MatchPass(rects, thresh, tracks);
    MatchPassPairsOnce(rects, thresh, tracks);
    MatchPassOrdered(rects, thresh, tracks);
    forall j | 0 <= j < |st.pairs|
      ensures 1 <= st.pairs[j].id <= count
    {
      var i :| 0 <= i < |tracks| && tracks[i].id == st.pairs[j].id;
    }
  }

  /** The ids in the returned list are pairwise distinct and positive. */
  lemma {:induction false} UpdateIdsDistinct(tracks: seq<Track>, count: nat, rects: seq<Rect>, thresh: real)
    requires WellFormed(tracks, count)
    ensures var out := UpdateSpec(tracks, count, rects, thresh).output;
      && (forall j :: 0 <= j < |out| ==> out[j].id >= 1)
      && (forall j, k :: 0 <= j < k < |out| ==> out[j].id != out[k].id)
  {
    UpdatePairsIds(tracks, count, rects, thresh);
  }

  /** The counter grows by the number k of new ids; the last k entries of
      the returned list carry ids count + 1 .. count + k in input order, every
      one greater than any id issued before; the other entries keep ids
      already in the dictionary. */
  lemma {:induction false} UpdateSpawnsFreshIds(tracks: seq<Track>, count: nat, rects: seq<Rect>, thresh: real)
    requires WellFormed(tracks, count)
    ensures var u := UpdateSpec(tracks, count, rects, thresh);
            var ps := UpdatePairs(tracks, count, rects, thresh);
            var m := |u.output| - (u.count - count);
      && count <= u.count && 0 <= m
      && (forall j :: 0 <= j < m ==> u.output[j].id in Keys(tracks))
      && (forall j :: m <= j < |u.output| ==> u.output[j].id == count + (j - m) + 1)
      && (forall j, k :: m <= j < k < |u.output| ==> ps[j].det < ps[k].det)
      && (forall j, i :: m <= j < |u.output| && 0 <= i < |tracks| ==> tracks[i].id < u.output[j].id)
  {
    UpdatePairsIds(tracks, count, rects, thresh);
  }

  /** Dropping entries keeps the dictionary well formed. */
  lemma {:induction false} RetainWellFormed(s: seq<Track>, keep: set<int>, count: nat)
    requires WellFormed(s, count)
    ensures WellFormed(Retain(s, keep), count)
  {
    var r := Retain(s, keep);
    RetainSubset(s, keep);
    RetainDistinct(s, keep);
    forall i | 0 <= i < |r|
      ensures 1 <= r[i].id <= count
    {
      assert r[i] in multiset(r);
      assert r[i] in s;
    }
  }

  /** A key the dictionary resolves is one of its keys. */
  lemma {:induction false} LookupKey(s: seq<Track>, id: int)
    requires Lookup(s, id).Some?
    ensures id in Keys(s)
  {
    LookupFound(s, id);
    var i :| 0 <= i < |s| && s[i] == Track(id, Lookup(s, id).value);
    assert s[i].id == id;
  }

  /** After the call the tracker's invariant still holds: distinct keys,
      each within 1 .. the new counter. */
  lemma {:induction false} UpdateWellFormed(tracks: seq<Track>, count: nat, rects: seq<Rect>, thresh: real)
    requires WellFormed(tracks, count)
    ensures var u := UpdateSpec(tracks, count, rects, thresh);
      WellFormed(u.tracks, u.count)
  {
    var u := UpdateSpec(tracks, count, rects, thresh);
    StagedWellFormed(tracks, count, rects, thresh);
    RetainWellFormed(Staged(tracks, count, rects, thresh), IdSet(u.output), u.count);
  }

  /** After the call the dictionary's keys are exactly the ids returned in
      this call: ids that matched nothing are discarded. */
  lemma {:induction false} UpdateKeysAreOutputIds(tracks: seq<Track>, count: nat, rects: seq<Rect>, thresh: real)
    requires WellFormed(tracks, count)
    ensures var u := UpdateSpec(tracks, count, rects, thresh);
      Keys(u.tracks) == IdSet(u.output)
  {
    var u := UpdateSpec(tracks, count, rects, thresh);
    var all := Staged(tracks, count, rects, thresh);
    var ps := UpdatePairs(tracks, count, rects, thresh);
    StagedCentres(tracks, count, rects, thresh);
    RetainSubset(all, IdSet(u.output));
    UpdateKeepsEveryDetection(tracks, count, rects, thresh);
    forall x | x in IdSet(u.output)
      ensures x in Keys(u.tracks)
    {
      var j :| 0 <= j < |u.output| && u.output[j].id == x;
      assert x == ps[j].id;
      assert Lookup(all, x).Some?;
      RetainLookup(all, IdSet(u.output), x);
      LookupKey(u.tracks, x);
    }
  }

  /** Before the final clean-up, the dictionary holds distinct keys within
      1 .. the new counter. */
  lemma {:induction false} StagedWellFormed(tracks: seq<Track>, count: nat, rects: seq<Rect>, thresh: real)
    requires WellFormed(tracks, count)
    ensures WellFormed(Staged(tracks, count, rects, thresh), count + |MatchPass(rects, thresh, tracks).unmatched|)
  {
    var st := MatchPass(rects, thresh, tracks);
    var spawned := SpawnPairs(st.unmatched, count);
    var all := Staged(tracks, count, rects, thresh);
    MatchPassKeepsKeys(rects, thresh, tracks);
    assert forall i :: 0 <= i < |st.tracks| ==> all[i].id == tracks[i].id;
    assert forall i :: |st.tracks| <= i < |all| ==> all[i].id == count + (i - |st.tracks|) + 1;
    forall i, j | 0 <= i < j < |all|
      ensures all[i].id != all[j].id
    {
      if j < |st.tracks| {
        assert all[i].id == tracks[i].id && all[j].id == tracks[j].id;
      } else if i < |st.tracks| {
        assert all[i].id <= count;
      }
    }
  }

  /** Before the final clean-up, each id paired this frame is stored with
      the centre of its detection. */
  lemma {:induction false} StagedCentres(tracks: seq<Track>, count: nat, rects: seq<Rect>, thresh: real)
    requires WellFormed(tracks, count)
    ensures CentresStored(rects, UpdatePairs(tracks, count, rects, thresh), Staged(tracks, count, rects, thresh))
  {
    var st := MatchPass(rects, thresh, tracks);
    var spawned := SpawnPairs(st.unmatched, count);
    var all := Staged(tracks, count, rects, thresh);
    var ps := UpdatePairs(tracks, count, rects, thresh);
    MatchPassCentres(rects, thresh, tracks);
    StagedWellFormed(tracks, count, rects, thresh);
    forall j | 0 <= j < |ps|
      ensures Lookup(all, ps[j].id) == Some(Centre(rects[ps[j].det]))
    {
      if j < |st.pairs| {
        assert ps[j] == st.pairs[j];
        LookupFound(st.tracks, ps[j].id);
        var i :| 0 <= i < |st.tracks| && st.tracks[i] == Track(ps[j].id, Centre(rects[ps[j].det]));
        assert all[i] == st.tracks[i];
        LookupAt(all, i);
      } else {
        var k := j - |st.pairs|;
        assert ps[j] == spawned[k];
        assert all[|st.tracks| + k] == Track(ps[j].id, Centre(rects[ps[j].det]));
        LookupAt(all, |st.tracks| + k);
      }
    }
  }

  /** After the call, each returned id is stored with the centre
      (x + w/2, y + h/2) of its detection. */
  lemma {:induction false} UpdateStoresCentres(tracks: seq<Track>, count: nat, rects: seq<Rect>, thresh: real)
    requires WellFormed(tracks, count)
    ensures var u := UpdateSpec(tracks, count, rects, thresh);
      forall j :: 0 <= j < |u.output| ==> Lookup(u.tracks, u.output[j].id) == Some(Centre(RectOf(u.output[j])))
  {
    var u := UpdateSpec(tracks, count, rects, thresh);
    var st := MatchPass(rects, thresh, tracks);
    var all := Staged(tracks, count, rects, thresh);
    StagedWellFormed(tracks, count, rects, thresh);
    StagedCentres(tracks, count, rects, thresh);
    UpdateKeepsEveryDetection(tracks, count, rects, thresh);
    forall j | 0 <= j < |u.output|
      ensures Lookup(u.tracks, u.output[j].id) == Some(Centre(RectOf(u.output[j])))
    {
      assert u.output[j].id in IdSet(u.output);
      RetainLookup(all, IdSet(u.output), u.output[j].id);
    }
  }

  /** An id of the old dictionary keeps going only by claiming a detection
      whose centre is strictly within the threshold of its old centre. */
  lemma {:induction false} UpdateMatchesWithinThreshold(tracks: seq<Track>, count: nat, rects: seq<Rect>, thresh: real)
    requires WellFormed(tracks, count)
    ensures var out := UpdateSpec(tracks, count, rects, thresh).output;
      forall j :: 0 <= j < |out| && out[j].id in Keys(tracks) ==>
        Lookup(tracks, out[j].id).Some?
        && SqDist(Centre(RectOf(out[j])), Lookup(tracks, out[j].id).value) < Limit(thresh)
  {
    var st := MatchPass(rects, thresh, tracks);
    UpdatePairsIds(tracks, count, rects, thresh);
    UpdateKeepsEveryDetection(tracks, count, rects, thresh);
    MatchPassWithinThreshold(rects, thresh, tracks);
  }

  /** `update([])` returns `[]`, empties the dictionary and keeps the counter. */
  lemma {:induction false} UpdateEmpty(tracks: seq<Track>, count: nat, thresh: real)
    ensures UpdateSpec(tracks, count, [], thresh) == Outcome([], [], count)
  {
    var st := MatchPass([], thresh, tracks);
    MatchPassNoDetections(tracks, thresh);
    assert SpawnPairs(st.unmatched, count) == [];
    assert Placed([], []) == [];
    PassParts(tracks, count, [], thresh, st);
    UpdateSpecParts(tracks, count, [], thresh, [], st.tracks, []);
    assert Emit([], []) == [];
    assert IdSet([]) == {};
    RetainNone(st.tracks);
  }

  /** Keeping no key empties the dictionary. */
  lemma {:induction false} RetainNone(s: seq<Track>)
    ensures Retain(s, {}) == []
    decreases |s|
  {
    if s != [] {
      RetainNone(s[..|s| - 1]);
    }
  }

  lemma {:induction false} MatchPassNoDetections(tracks: seq<Track>, thresh: real)
    ensures MatchPass([], thresh, tracks).pairs == [] && MatchPass([], thresh, tracks).unmatched == []
    decreases |tracks|
  {
    if tracks != [] {
      MatchPassNoDetections(tracks[..|tracks| - 1], thresh);
    }
  }

  /** Some entry of `out` is `r` with a positive id. */
  predicate Returned(out: seq<TrackedRect>, r: Rect)
  {
    exists j :: 0 <= j < |out| && RectOf(out[j]) == r && out[j].id >= 1
  }

  /** Each detection comes back with a positive id and its rectangle unchanged. */
  lemma {:induction false} UpdateReturnsDetection(tracks: seq<Track>, count: nat, rects: seq<Rect>, thresh: real, d: nat)
    requires WellFormed(tracks, count) && d < |rects|
    ensures Returned(UpdateSpec(tracks, count, rects, thresh).output, rects[d])
  {
    var out := UpdateSpec(tracks, count, rects, thresh).output;
    var ps := UpdatePairs(tracks, count, rects, thresh);
    UpdateKeepsEveryDetection(tracks, count, rects, thresh);
    UpdateIdsDistinct(tracks, count, rects, thresh);
    assert d in multiset(Dets(ps));
    var j :| 0 <= j < |Dets(ps)| && Dets(ps)[j] == d;
    assert RectOf(out[j]) == rects[d];
  }

  // ---------------------------------------------------------------------
  // A worked example

  /** A fresh tracker sees one 2 x 2 box at the origin: it gets id 1 and
      its centre (1, 1) is stored. */
  lemma UpdateFirstFrame()
    ensures UpdateSpec([], 0, [Rect(0.0, 0.0, 2.0, 2.0)], DefaultDistThresh)
            == Outcome([TrackedRect(0.0, 0.0, 2.0, 2.0, 1)], [Track(1, Point2(1.0, 1.0))], 1)
  {
    var rects := [Rect(0.0, 0.0, 2.0, 2.0)];
    assert Indices(1) == [0];
    var st := MatchPass(rects, DefaultDistThresh, []);
    assert st == Pass([], [], [0]);
    assert SpawnPairs([0], 0) == [Pairing(0, 1)];
    assert UpdatePairs([], 0, rects, DefaultDistThresh) == [Pairing(0, 1)];
    var out := Emit(rects, [Pairing(0, 1)]);
    assert out == [TrackedRect(0.0, 0.0, 2.0, 2.0, 1)];
    assert out[0].id == 1;
    assert IdSet(out) == {1} by {
      assert 1 in IdSet(out);
      forall x | x in IdSet(out) ensures x == 1 { }
    }
    assert Staged([], 0, rects, DefaultDistThresh) == [Track(1, Point2(1.0, 1.0))];
    var s := [Track(1, Point2(1.0, 1.0))];
    assert Retain(s, {1}) == Retain(s[..0], {1}) + [s[0]];
  }

  /** The matching pass of the next frame: id 1 claims the nearby box. */
  lemma SecondFrameMatch()
    ensures MatchPass([Rect(0.2, 0.1, 2.0, 2.0), Rect(9.0, 9.0, 1.0, 1.0)], DefaultDistThresh, [Track(1, Point2(1.0, 1.0))])
            == Pass([Pairing(0, 1)], [Track(1, Point2(1.2, 1.1))], [1])
  {
    var rects := [Rect(0.2, 0.1, 2.0, 2.0), Rect(9.0, 9.0, 1.0, 1.0)];
    var tracks := [Track(1, Point2(1.0, 1.0))];
    assert Indices(2) == [0, 1];
    var st0 := MatchPass(rects, DefaultDistThresh, []);
    assert st0 == Pass([], [], [0, 1]);
    assert Nearest(rects, [0], Point2(1.0, 1.0), DefaultDistThresh) == Best(0, DetDist(rects, 0, Point2(1.0, 1.0)));
    assert [0, 1][..1] == [0];
    assert Nearest(rects, [0, 1], Point2(1.0, 1.0), DefaultDistThresh) == Best(0, DetDist(rects, 0, Point2(1.0, 1.0)));
    assert tracks[..0] == [];
    assert MatchPass(rects, DefaultDistThresh, tracks) == Step(rects, DefaultDistThresh, st0, tracks[0]);
  }

  /** `UpdatePairs` and `Staged` from the result of the matching pass. */
  lemma {:induction false} PassParts(tracks: seq<Track>, count: nat, rects: seq<Rect>, thresh: real, st: Pass)
    requires MatchPass(rects, thresh, tracks) == st
    ensures UpdatePairs(tracks, count, rects, thresh) == st.pairs + SpawnPairs(st.unmatched, count)
    ensures Staged(tracks, count, rects, thresh) == st.tracks + Placed(rects, SpawnPairs(st.unmatched, count))
  {
  }

  /** The pairings of the next frame and its dictionary before the
      clean-up: id 1 for the moved box, the new id 2 for the far-away one. */
  lemma SecondFramePairs()
    ensures UpdatePairs([Track(1, Point2(1.0, 1.0))], 1, [Rect(0.2, 0.1, 2.0, 2.0), Rect(9.0, 9.0, 1.0, 1.0)], DefaultDistThresh)
            == [Pairing(0, 1), Pairing(1, 2)]
  {
    var rects := [Rect(0.2, 0.1, 2.0, 2.0), Rect(9.0, 9.0, 1.0, 1.0)];
    var st := Pass([Pairing(0, 1)], [Track(1, Point2(1.2, 1.1))], [1]);
    SecondFrameMatch();
    PassParts([Track(1, Point2(1.0, 1.0))], 1, rects, DefaultDistThresh, st);
    assert SpawnPairs([1], 1) == [Pairing(1, 2)];
  }

  lemma SecondFrameStaged()
    ensures Staged([Track(1, Point2(1.0, 1.0))], 1, [Rect(0.2, 0.1, 2.0, 2.0), Rect(9.0, 9.0, 1.0, 1.0)], DefaultDistThresh)
            == [Track(1, Point2(1.2, 1.1)), Track(2, Point2(9.5, 9.5))]
  {
    var rects := [Rect(0.2, 0.1, 2.0, 2.0), Rect(9.0, 9.0, 1.0, 1.0)];
    var st := Pass([Pairing(0, 1)], [Track(1, Point2(1.2, 1.1))], [1]);
    SecondFrameMatch();
    PassParts([Track(1, Point2(1.0, 1.0))], 1, rects, DefaultDistThresh, st);
    assert SpawnPairs([1], 1) == [Pairing(1, 2)];
    assert Placed(rects, [Pairing(1, 2)]) == [Track(2, Point2(9.5, 9.5))];
  }


  /** The returned list of the next frame, and the clean-up keeping both ids. */
  lemma SecondFrameCleanup()
    ensures Emit([Rect(0.2, 0.1, 2.0, 2.0), Rect(9.0, 9.0, 1.0, 1.0)], [Pairing(0, 1), Pairing(1, 2)])
            == [TrackedRect(0.2, 0.1, 2.0, 2.0, 1), TrackedRect(9.0, 9.0, 1.0, 1.0, 2)]
    ensures Retain([Track(1, Point2(1.2, 1.1)), Track(2, Point2(9.5, 9.5))],
                   IdSet([TrackedRect(0.2, 0.1, 2.0, 2.0, 1), TrackedRect(9.0, 9.0, 1.0, 1.0, 2)]))
            == [Track(1, Point2(1.2, 1.1)), Track(2, Point2(9.5, 9.5))]
  {
    var out := [TrackedRect(0.2, 0.1, 2.0, 2.0, 1), TrackedRect(9.0, 9.0, 1.0, 1.0, 2)];
    assert IdSet(out) == {1, 2} by {
      assert out[0].id == 1 && out[1].id == 2;
      assert 1 in IdSet(out) && 2 in IdSet(out);
      forall x | x in IdSet(out) ensures x == 1 || x == 2 { }
    }
    var s := [Track(1, Point2(1.2, 1.1)), Track(2, Point2(9.5, 9.5))];
    assert s[..1] == [s[0]] && s[..1][..0] == [];
    assert Retain(s, {1, 2}) == s;
  }

  /** `UpdateSpec` assembled from its parts. */
  lemma {:induction false} UpdateSpecParts(tracks: seq<Track>, count: nat, rects: seq<Rect>, thresh: real,
                        ps: seq<Pairing>, staged: seq<Track>, um: seq<nat>)
    requires MatchPass(rects, thresh, tracks).unmatched == um
    requires UpdatePairs(tracks, count, rects, thresh) == ps && Staged(tracks, count, rects, thresh) == staged
    ensures PairsIn(ps, |rects|)
    ensures UpdateSpec(tracks, count, rects, thresh)
            == Outcome(Emit(rects, ps), Retain(staged, IdSet(Emit(rects, ps))), count + |um|)
  {
  }

  /** The next frame: a box moved by (0.2, 0.1) keeps id 1 and its new
      centre; a far-away box gets the next id, 2. */
  lemma UpdateSecondFrame()
    ensures UpdateSpec([Track(1, Point2(1.0, 1.0))], 1, [Rect(0.2, 0.1, 2.0, 2.0), Rect(9.0, 9.0, 1.0, 1.0)], DefaultDistThresh)
            == Outcome([TrackedRect(0.2, 0.1, 2.0, 2.0, 1), TrackedRect(9.0, 9.0, 1.0, 1.0, 2)],
                       [Track(1, Point2(1.2, 1.1)), Track(2, Point2(9.5, 9.5))], 2)
  {
    var rects := [Rect(0.2, 0.1, 2.0, 2.0), Rect(9.0, 9.0, 1.0, 1.0)];
    SecondFrameMatch();
    SecondFramePairs();
    SecondFrameStaged();
    SecondFrameCleanup();
    UpdateSpecParts([Track(1, Point2(1.0, 1.0))], 1, rects, DefaultDistThresh,
                    [Pairing(0, 1), Pairing(1, 2)], [Track(1, Point2(1.2, 1.1)), Track(2, Point2(9.5, 9.5))], [1]);
  }
}
