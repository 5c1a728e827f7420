/** The per-frame glue of the main script.

    For one frame with at least one cluster, the non-noise features become
    the tracker's detections `[min_x, min_y, width, length]`; after the
    tracker's `update`, each non-noise feature takes the id of the first
    returned tuple whose corner lies within 0.1 of its box corner on both
    axes; the records written out are the non-noise features in order.
    A frame with no cluster updates the tracker with no detections; a frame
    that cannot be read, or that has no non-ground point, is skipped
    without touching the tracker. */
module Pipeline {
  import opened Wrappers
  import opened Tracker
  import opened ObjectFeatures

  // ---------------------------------------------------------------------
  // Cluster count

  /** `n_clusters`: the number of distinct labels, not counting -1. */
  function ClusterCount(labels: seq<int>): int
  {
    |set x | x in labels| - (if NoiseLabel in labels then 1 else 0)
  }

  function LabelSet(fs: seq<Feature>): set<int>
  {
    set i | 0 <= i < |fs| :: fs[i].clusterLabel
  }

  /** Extending the records by one adds that record's label. */
  lemma {:induction false} LabelSetSnoc(fs: seq<Feature>)
    requires fs != []
    ensures LabelSet(fs) == LabelSet(fs[..|fs| - 1]) + {fs[|fs| - 1].clusterLabel}
  {
    var init := fs[..|fs| - 1];
    forall x | x in LabelSet(fs)
      ensures x in LabelSet(init) + {fs[|fs| - 1].clusterLabel}
    {
      var i :| 0 <= i < |fs| && fs[i].clusterLabel == x;
      if i < |init| {
        assert init[i] == fs[i];
      }
    }
    forall x | x in LabelSet(init)
      ensures x in LabelSet(fs)
    {
      var i :| 0 <= i < |init| && init[i].clusterLabel == x;
      assert fs[i] == init[i];
    }
  }

  /** Records with strictly ascending labels carry as many labels as records. */
  lemma {:induction false} AscendingLabelsCount(fs: seq<Feature>)
    requires LabelsAscending(fs)
    ensures |LabelSet(fs)| == |fs|
    decreases |fs|
  {
    if fs != [] {
      var init := fs[..|fs| - 1];
      var last := fs[|fs| - 1];
      assert LabelsAscending(init);
      AscendingLabelsCount(init);
      LabelSetSnoc(fs);
      assert last.clusterLabel !in LabelSet(init) by {
        forall i | 0 <= i < |init|
          ensures init[i].clusterLabel != last.clusterLabel
        {
          assert fs[i] == init[i];
        }
      }
    }
  }

  /** The labels of the records are the distinct labels other than -1. */
  lemma {:induction false} FeatureLabels(points: seq<Point>, labels: seq<int>)
    requires |points| == |labels|
    ensures LabelSet(Features(points, labels)) == (set x | x in labels) - {NoiseLabel}
  {
    var fs := Features(points, labels);
    FeaturesOnePerCluster(points, labels);
    forall x | x in (set x | x in labels) - {NoiseLabel}
      ensures x in LabelSet(fs)
    {
      var i :| 0 <= i < |fs| && fs[i].clusterLabel == x;
    }
  }

  lemma {:induction false} RemoveOneCount(all: set<int>, v: int)
    ensures |all - {v}| == |all| - (if v in all then 1 else 0)
  {
    if v in all {
      assert all == (all - {v}) + {v};
    } else {
      assert all - {v} == all;
    }
  }

  /** There are exactly `n_clusters` feature records, so the branch on
      `n_clusters > 0` is the branch on whether any record exists. */
  lemma {:induction false} FeatureCountIsClusterCount(points: seq<Point>, labels: seq<int>)
    requires |points| == |labels|
    ensures |Features(points, labels)| == ClusterCount(labels)
  {
    var fs := Features(points, labels);
    FeaturesOnePerCluster(points, labels);
    AscendingLabelsCount(fs);
    FeatureLabels(points, labels);
    var all := set x | x in labels;
    RemoveOneCount(all, NoiseLabel);
    assert NoiseLabel in all <==> NoiseLabel in labels;
  }

  // ---------------------------------------------------------------------
  // Detections for the tracker

  /** The class given to each feature, in feature order. */
  function Classes(fs: seq<Feature>): seq<Category>
  {
    seq(|fs|, i requires 0 <= i < |fs| => Classify(fs[i]))
  }

  /** `[min_x, min_y, w, h]` with `w = width` and `h = length`. */
  function ToDetection(f: Feature): Rect
  {
    Rect(f.bboxMin.x, f.bboxMin.y, f.width, f.length)
  }

  /** The positions of the non-noise entries, in order. */
  function Kept(cs: seq<Category>): seq<nat>
    decreases |cs|
  {
    if cs == [] then []
    else Kept(cs[..|cs| - 1]) + (if cs[|cs| - 1] != Noise then [|cs| - 1] else [])
  }

  /** `detections_for_tracker` */
  function Detections(fs: seq<Feature>, cs: seq<Category>): seq<Rect>
    requires |cs| == |fs|
    decreases |fs|
  {
    if fs == [] then []
    else
      var n := |fs| - 1;
      Detections(fs[..n], cs[..n]) + (if cs[n] != Noise then [ToDetection(fs[n])] else [])
  }

  /** The kept positions are ascending, each in range, and are exactly the
      positions whose class is not noise. */
  lemma {:induction false} KeptIsNonNoise(cs: seq<Category>)
    ensures Increasing(Kept(cs)) && InRange(Kept(cs), |cs|)
    ensures forall i :: 0 <= i < |cs| ==> (i in Kept(cs) <==> cs[i] != Noise)
    decreases |cs|
  {
    if cs != [] {
      var n := |cs| - 1;
      KeptIsNonNoise(cs[..n]);
      var prev := Kept(cs[..n]);
      var last := if cs[n] != Noise then [n] else [];
      assert Kept(cs) == prev + last;
      assert forall k :: 0 <= k < |prev| ==> prev[k] < n;
      forall i | 0 <= i < |cs|
        ensures i in Kept(cs) <==> cs[i] != Noise
      {
        if i < n {
          assert cs[..n][i] == cs[i];
          assert i !in last;
        }
      }
    }
  }

  /** The tracker's detections are the non-noise features, in feature order. */
  lemma {:induction false} DetectionsAreKept(fs: seq<Feature>, cs: seq<Category>)
    requires |cs| == |fs|
    ensures |Detections(fs, cs)| == |Kept(cs)|
    ensures forall j :: 0 <= j < |Kept(cs)| ==> Kept(cs)[j] < |fs| && Detections(fs, cs)[j] == ToDetection(fs[Kept(cs)[j]])
    decreases |fs|
  {
    if fs != [] {
      var n := |fs| - 1;
      DetectionsAreKept(fs[..n], cs[..n]);
      KeptIsNonNoise(cs[..n]);
      var prev := Kept(cs[..n]);
      assert Kept(cs) == prev + (if cs[n] != Noise then [n] else []);
      forall j | 0 <= j < |Kept(cs)|
        ensures Kept(cs)[j] < |fs| && Detections(fs, cs)[j] == ToDetection(fs[Kept(cs)[j]])
      {
        if j < |prev| {
          assert prev[j] < n && fs[..n][prev[j]] == fs[prev[j]];
        }
      }
    }
  }

  /** The first loop of the frame: classify every feature, and collect the
      detection of every non-noise one. */
  method CollectDetections(features: seq<Feature>) returns (classes: seq<Category>, detections: seq<Rect>)
    ensures classes == Classes(features)
    ensures detections == Detections(features, classes)
  {
    classes := [];
    detections := [];
    for k := 0 to |features|
      invariant classes == Classes(features[..k])
      invariant detections == Detections(features[..k], classes)
    {
      assert features[..k + 1][..k] == features[..k];
      var feat := features[k];
      var cls := Classify(feat);
      assert classes + [cls] == Classes(features[..k + 1]);
      classes := classes + [cls];
      assert classes[..k] == Classes(features[..k]);
      if cls != Noise {
        var minX, minY := feat.bboxMin.x, feat.bboxMin.y;
        detections := detections + [Rect(minX, minY, feat.width, feat.length)];
      }
    }
    assert features[..|features|] == features;
  }

  // ---------------------------------------------------------------------
  // Linking tracker ids back to features

  /** The tolerance on both axes when matching a box corner to a returned tuple. */
  const LinkTolerance: real := 0.1

  function Abs(v: real): real
  {
    if v < 0.0 then -v else v
  }

  predicate Near(f: Feature, t: TrackedRect)
  {
    Abs(f.bboxMin.x - t.x) < LinkTolerance && Abs(f.bboxMin.y - t.y) < LinkTolerance
  }

  /** The position of the first tuple within tolerance of `f`, or |tracked|
      when there is none. */
  function FirstNear(f: Feature, tracked: seq<TrackedRect>): (k: nat)
    ensures k <= |tracked|
    ensures forall j :: 0 <= j < k ==> !Near(f, tracked[j])
    ensures k < |tracked| ==> Near(f, tracked[k])
    decreases |tracked|
  {
    if tracked == [] then 0
    else if Near(f, tracked[0]) then 0
    else 1 + FirstNear(f, tracked[1..])
  }

  /** Tuple `j` is within tolerance of `f` and no earlier one is. */
  predicate FirstNearAt(f: Feature, tracked: seq<TrackedRect>, j: int)
  {
    0 <= j < |tracked| && Near(f, tracked[j]) && forall k :: 0 <= k < j ==> !Near(f, tracked[k])
  }

  /** The `object_id` a feature of class `c` ends with. */
  function LinkOf(f: Feature, c: Category, tracked: seq<TrackedRect>): int
  {
    if c == Noise then -1
    else
      var k := FirstNear(f, tracked);
      if k < |tracked| then tracked[k].id else -1
  }

  /** The ids of all features, in feature order. */
  function Links(fs: seq<Feature>, cs: seq<Category>, tracked: seq<TrackedRect>): seq<int>
    requires |cs| == |fs|
  {
    seq(|fs|, i requires 0 <= i < |fs| => LinkOf(fs[i], cs[i], tracked))
  }

  /** The second loop of the frame: every feature gets -1, and a non-noise
      one then takes the id of the first tuple within tolerance. */
  method LinkIds(features: seq<Feature>, classes: seq<Category>, trackedObjects: seq<TrackedRect>)
    returns (ids: seq<int>)
    requires |classes| == |features|
    ensures ids == Links(features, classes, trackedObjects)
  {
    ids := [];
    for i := 0 to |features|
      invariant |ids| == i
      invariant forall k :: 0 <= k < i ==> ids[k] == LinkOf(features[k], classes[k], trackedObjects)
    {
      var objectId := -1;
      if classes[i] != Noise {
        var minX, minY := features[i].bboxMin.x, features[i].bboxMin.y;
        var k := 0;
        while k < |trackedObjects|
          invariant k <= |trackedObjects|
          invariant forall j :: 0 <= j < k ==> !Near(features[i], trackedObjects[j])
          invariant objectId == -1
        {
          var tobj := trackedObjects[k];
          if Abs(minX - tobj.x) < LinkTolerance && Abs(minY - tobj.y) < LinkTolerance {
            objectId := tobj.id;
            assert FirstNear(features[i], trackedObjects) == k;
            break;
          }
          k := k + 1;
        }
      }
      ids := ids + [objectId];
    }
  }

  /** A noise feature ends with -1; a non-noise one ends with the id of the
      first tuple within tolerance, or with -1 when no tuple is. */
  lemma {:induction false} LinksMeaning(fs: seq<Feature>, cs: seq<Category>, tracked: seq<TrackedRect>, i: nat)
    requires |cs| == |fs| && i < |fs|
    ensures var ids := Links(fs, cs, tracked);
      && |ids| == |fs|
      && (cs[i] == Noise ==> ids[i] == -1)
      && (cs[i] != Noise && (forall j :: 0 <= j < |tracked| ==> !Near(fs[i], tracked[j])) ==> ids[i] == -1)
      && (forall j :: cs[i] != Noise && FirstNearAt(fs[i], tracked, j) ==> ids[i] == tracked[j].id)
  {
    var k := FirstNear(fs[i], tracked);
    forall j | cs[i] != Noise && FirstNearAt(fs[i], tracked, j)
      ensures Links(fs, cs, tracked)[i] == tracked[j].id
    {
      assert k <= j;
      assert k >= j;
    }
  }

  /** Linking does not use a tuple up: two non-noise features whose first
      tuple within tolerance is the same tuple both take its id. */
  lemma {:induction false} LinkSharesTuples(f1: Feature, c1: Category, f2: Feature, c2: Category, tracked: seq<TrackedRect>, k: nat)
    requires c1 != Noise && c2 != Noise && k < |tracked|
    requires Near(f1, tracked[k]) && Near(f2, tracked[k])
    requires forall j :: 0 <= j < k ==> !Near(f1, tracked[j]) && !Near(f2, tracked[j])
    ensures LinkOf(f1, c1, tracked) == tracked[k].id && LinkOf(f2, c2, tracked) == tracked[k].id
  {
  }

  /** A non-noise feature whose corner comes back in a list of positive ids
      is linked to one of those ids. */
  lemma {:induction false} LinkOfReturned(f: Feature, c: Category, out: seq<TrackedRect>)
    requires c != Noise && Returned(out, ToDetection(f))
    requires forall j :: 0 <= j < |out| ==> out[j].id >= 1
    ensures LinkOf(f, c, out) >= 1 && LinkOf(f, c, out) in IdSet(out)
  {
    var m :| 0 <= m < |out| && RectOf(out[m]) == ToDetection(f) && out[m].id >= 1;
    assert Near(f, out[m]);
    var k := FirstNear(f, out);
    assert k <= m;
  }

  /** With the tracker's own output, every non-noise feature gets an id of
      the tracker, never -1: the tracker returns its detection with the
      corner unchanged, so some tuple is within tolerance. */
  lemma {:induction false} NonNoiseAlwaysLinked(tracks: seq<Track>, count: nat, fs: seq<Feature>, i: nat)
    requires WellFormed(tracks, count) && i < |fs| && Classify(fs[i]) != Noise
    ensures var cs := Classes(fs);
            var out := UpdateSpec(tracks, count, Detections(fs, cs), DefaultDistThresh).output;
            var id := LinkOf(fs[i], cs[i], out);
      id >= 1 && id in IdSet(out)
  {
    var cs := Classes(fs);
    var dets := Detections(fs, cs);
    var out := UpdateSpec(tracks, count, dets, DefaultDistThresh).output;
    KeptIsNonNoise(cs);
    DetectionsAreKept(fs, cs);
    assert i in Kept(cs);
    var j :| 0 <= j < |Kept(cs)| && Kept(cs)[j] == i;
    assert dets[j] == ToDetection(fs[i]);
    UpdateReturnsDetection(tracks, count, dets, DefaultDistThresh, j);
    UpdateIdsDistinct(tracks, count, dets, DefaultDistThresh);
    LinkOfReturned(fs[i], cs[i], out);
  }

  // ---------------------------------------------------------------------
  // Output records

  /** One entry of the frame's analysis file. */
  datatype Record = Record(objectId: int, clusterId: int, category: Category, numPoints: nat,
                           width: real, length: real, height: real, avgIntensity: int)

  function RecordOf(f: Feature, c: Category, id: int): Record
  {
    Record(id, f.clusterLabel, c, f.numPoints, f.width, f.length, f.height, f.avgIntensity)
  }

  /** `output_data`: the records of the non-noise features, in order. */
  function OutputRecords(fs: seq<Feature>, cs: seq<Category>, ids: seq<int>): seq<Record>
    requires |cs| == |fs| && |ids| == |fs|
    decreases |fs|
  {
    if fs == [] then []
    else
      var n := |fs| - 1;
      OutputRecords(fs[..n], cs[..n], ids[..n]) + (if cs[n] != Noise then [RecordOf(fs[n], cs[n], ids[n])] else [])
  }

  /** The records are those of the non-noise features, in feature order,
      each copying the feature's label, count, extents and intensity. */
  lemma {:induction false} OutputRecordsAreKept(fs: seq<Feature>, cs: seq<Category>, ids: seq<int>)
    requires |cs| == |fs| && |ids| == |fs|
    ensures |OutputRecords(fs, cs, ids)| == |Kept(cs)|
    ensures forall j :: 0 <= j < |Kept(cs)| ==>
      Kept(cs)[j] < |fs| && OutputRecords(fs, cs, ids)[j] == RecordOf(fs[Kept(cs)[j]], cs[Kept(cs)[j]], ids[Kept(cs)[j]])
    decreases |fs|
  {
    if fs != [] {
      var n := |fs| - 1;
      OutputRecordsAreKept(fs[..n], cs[..n], ids[..n]);
      KeptIsNonNoise(cs[..n]);
      var prev := Kept(cs[..n]);
      assert Kept(cs) == prev + (if cs[n] != Noise then [n] else []);
      forall j | 0 <= j < |Kept(cs)|
        ensures Kept(cs)[j] < |fs|
          && OutputRecords(fs, cs, ids)[j] == RecordOf(fs[Kept(cs)[j]], cs[Kept(cs)[j]], ids[Kept(cs)[j]])
      {
        if j < |prev| {
          var p := prev[j];
          assert p < n && fs[..n][p] == fs[p] && cs[..n][p] == cs[p] && ids[..n][p] == ids[p];
        }
      }
    }
  }

  /** No record is noise: `class` is one of pedestrian, cyclist, car, unknown. */
  lemma {:induction false} OutputRecordsHaveNoNoise(fs: seq<Feature>, cs: seq<Category>, ids: seq<int>)
    requires |cs| == |fs| && |ids| == |fs|
    ensures forall r :: r in OutputRecords(fs, cs, ids) ==> r.category != Noise
  {
    OutputRecordsAreKept(fs, cs, ids);
    KeptIsNonNoise(cs);
    forall r | r in OutputRecords(fs, cs, ids)
      ensures r.category != Noise
    {
      var j :| 0 <= j < |OutputRecords(fs, cs, ids)| && OutputRecords(fs, cs, ids)[j] == r;
      assert Kept(cs)[j] in Kept(cs);
    }
  }

  // ---------------------------------------------------------------------
  // One frame

  /** What the frame's reader and the stages before feature extraction
      deliver: nothing for an unreadable file, otherwise the non-ground
      points with their cluster labels. */
  datatype FrameData = Unreadable | Read(nonGround: seq<Point>, labels: seq<int>)

  /** The records written for a frame with at least one cluster, from the
      tracker's state before the frame. */
  function FrameRecords(tracks: seq<Track>, count: nat, points: seq<Point>, labels: seq<int>): seq<Record>
    requires |points| == |labels|
  {
    var fs := Features(points, labels);
    var cs := Classes(fs);
    var out := UpdateSpec(tracks, count, Detections(fs, cs), DefaultDistThresh).output;
    OutputRecords(fs, cs, Links(fs, cs, out))
  }

  /** Every record written for a frame carries a positive id that the
      tracker returned for this frame, and so still tracks afterwards. */
  lemma {:induction false} FrameRecordsTracked(tracks: seq<Track>, count: nat, points: seq<Point>, labels: seq<int>)
    requires WellFormed(tracks, count) && |points| == |labels|
    ensures var fs := Features(points, labels);
            var u := UpdateSpec(tracks, count, Detections(fs, Classes(fs)), DefaultDistThresh);
      forall r :: r in FrameRecords(tracks, count, points, labels) ==>
        r.category != Noise && r.objectId >= 1 && r.objectId in Keys(u.tracks)
  {
    var fs := Features(points, labels);
    var cs := Classes(fs);
    var dets := Detections(fs, cs);
    var u := UpdateSpec(tracks, count, dets, DefaultDistThresh);
    var ids := Links(fs, cs, u.output);
    var recs := OutputRecords(fs, cs, ids);
    OutputRecordsAreKept(fs, cs, ids);
    KeptIsNonNoise(cs);
    UpdateKeysAreOutputIds(tracks, count, dets, DefaultDistThresh);
    forall r | r in recs
      ensures r.category != Noise && r.objectId >= 1 && r.objectId in Keys(u.tracks)
    {
      var j :| 0 <= j < |recs| && recs[j] == r;
      var i := Kept(cs)[j];
      assert i in Kept(cs);
      NonNoiseAlwaysLinked(tracks, count, fs, i);
    }
  }

  /** One pass of the frame loop, after the file has been read, the ground
      removed and the rest clustered. `None` is a skipped frame. */
  method ProcessFrame(tracker: EuclideanDistTracker, frame: FrameData) returns (records: Option<seq<Record>>)
    requires tracker.Valid()
    requires frame.Read? ==> |frame.labels| == |frame.nonGround|
    modifies tracker
    ensures tracker.Valid()
    ensures frame.Unreadable? || |frame.nonGround| == 0 ==>
      records == None && tracker.centerPoints == old(tracker.centerPoints) && tracker.idCount == old(tracker.idCount)
    ensures frame.Read? && |frame.nonGround| > 0 && ClusterCount(frame.labels) <= 0 ==>
      records == Some([]) && tracker.centerPoints == [] && tracker.idCount == old(tracker.idCount)
    ensures frame.Read? && |frame.nonGround| > 0 && ClusterCount(frame.labels) > 0 ==>
      var fs := Features(frame.nonGround, frame.labels);
      var u := UpdateSpec(old(tracker.centerPoints), old(tracker.idCount), Detections(fs, Classes(fs)), DefaultDistThresh);
      && tracker.centerPoints == u.tracks && tracker.idCount == u.count
      && records == Some(FrameRecords(old(tracker.centerPoints), old(tracker.idCount), frame.nonGround, frame.labels))
  {
    if frame.Unreadable? {
      return None;
    }
    var nonGroundPoints, labels := frame.nonGround, frame.labels;
    if |nonGroundPoints| == 0 {
      return None;
    }
    var nClusters := ClusterCount(labels);
    var features, classes, ids;
    if nClusters > 0 {
      features := ExtractFeatures(nonGroundPoints, labels);
      var detectionsForTracker;
      classes, detectionsForTracker := CollectDetections(features);
      var trackedObjects := tracker.Update(detectionsForTracker, DefaultDistThresh);
      ids := LinkIds(features, classes, trackedObjects);
    } else {
      features, classes, ids := [], [], [];
      ghost var tracks0, count0 := tracker.centerPoints, tracker.idCount;
      var _ := tracker.Update([], DefaultDistThresh);
      UpdateEmpty(tracks0, count0, DefaultDistThresh);
    }
    records := Some(OutputRecords(features, classes, ids));
  }
}
