/** Per-cluster features and the rule-based classifier.

    `ExtractFeatures` walks the distinct cluster labels in ascending order,
    skips the noise label -1 and builds one `Feature` record per cluster:
    the point count, the per-axis bounding box, its extents and the mean
    intensity truncated toward zero. The record for one label is the function
    `FeatureOf`; the whole list is the function `Features`.

    `Classify` is the ordered chain of rules over the point count and the
    three extents, after ordering the two horizontal extents. */
module ObjectFeatures {

  /** One non-ground point: X, Y, Z and the reflection intensity. */
  datatype Point = Point(x: real, y: real, z: real, intensity: real)

  datatype Vec3 = Vec3(x: real, y: real, z: real)

  /** A column of the point array. */
  datatype Axis = X | Y | Z | Intensity

  /** The label the clustering gives to points that belong to no cluster. */
  const NoiseLabel: int := -1

  /** The record built for one cluster (rounding to two decimals is not modelled). */
  datatype Feature = Feature(clusterLabel: int, numPoints: nat, width: real, length: real, height: real,
                             avgIntensity: int, bboxMin: Vec3, bboxMax: Vec3)

  function Coord(p: Point, a: Axis): real
  {
    match a
    case X => p.x
    case Y => p.y
    case Z => p.z
    case Intensity => p.intensity
  }

  /** `cluster_points[:, a]` */
  function Column(pts: seq<Point>, a: Axis): seq<real>
  {
    seq(|pts|, i requires 0 <= i < |pts| => Coord(pts[i], a))
  }

  // ---------------------------------------------------------------------
  // Distinct labels

  predicate Ascending(s: seq<int>)
  {
    forall j, k :: 0 <= j < k < |s| ==> s[j] < s[k]
  }

  /** Adds `v` to an ascending list of distinct values. */
  function Insert(s: seq<int>, v: int): (r: seq<int>)
    requires Ascending(s)
    ensures Ascending(r)
    ensures forall x :: x in r <==> x in s || x == v
  {
    if s == [] then [v]
    else if v < s[0] then [v] + s
    else if v == s[0] then s
    else
      var rest := Insert(s[1..], v);
      assert forall k :: 0 <= k < |rest| ==> s[0] < rest[k] by {
        forall k | 0 <= k < |rest|
          ensures s[0] < rest[k]
        {
          assert rest[k] in rest;
          if rest[k] in s[1..] {
            var j :| 0 <= j < |s[1..]| && s[1..][j] == rest[k];
            assert s[j + 1] == rest[k];
          }
        }
      }
      [s[0]] + rest
  }

  /** `np.unique(labels)`: the distinct labels in ascending order. */
  function Unique(labels: seq<int>): (u: seq<int>)
    ensures Ascending(u)
    ensures forall x :: x in u <==> x in labels
    decreases |labels|
  {
    if labels == [] then []
    else
      var init := labels[..|labels| - 1];
      assert labels == init + [labels[|labels| - 1]];
      Insert(Unique(init), labels[|labels| - 1])
  }

  // ---------------------------------------------------------------------
  // One cluster

  /** `points[labels == l]`: the points carrying label `l`, in input order. */
  function Members(points: seq<Point>, labels: seq<int>, l: int): seq<Point>
    requires |points| == |labels|
    decreases |labels|
  {
    if labels == [] then []
    else
      var n := |labels| - 1;
      Members(points[..n], labels[..n], l) + (if labels[n] == l then [points[n]] else [])
  }

  /** The cluster has as many points as there are occurrences of its label. */
  lemma {:induction false} MembersCount(points: seq<Point>, labels: seq<int>, l: int)
    requires |points| == |labels|
    ensures |Members(points, labels, l)| == multiset(labels)[l]
    decreases |labels|
  {
    if labels != [] {
      var n := |labels| - 1;
      assert labels == labels[..n] + [labels[n]];
      MembersCount(points[..n], labels[..n], l);
    }
  }

  /** The smallest value of a non-empty column (`np.min`). */
  function MinOf(s: seq<real>): real
    requires |s| > 0
    decreases |s|
  {
    if |s| == 1 then s[0]
    else
      var m0 := MinOf(s[..|s| - 1]);
      if s[|s| - 1] < m0 then s[|s| - 1] else m0
  }

  /** `MinOf` is below every value of the column and is one of them. */
  lemma {:induction false} MinOfIsLeast(s: seq<real>)
    requires |s| > 0
    ensures forall i :: 0 <= i < |s| ==> MinOf(s) <= s[i]
    ensures exists i :: 0 <= i < |s| && s[i] == MinOf(s)
    decreases |s|
  {
    if |s| > 1 {
      var init := s[..|s| - 1];
      MinOfIsLeast(init);
      var k :| 0 <= k < |init| && init[k] == MinOf(init);
      assert forall i :: 0 <= i < |init| ==> s[i] == init[i];
      if s[|s| - 1] < MinOf(init) {
        assert s[|s| - 1] == MinOf(s);
      } else {
        assert s[k] == MinOf(s);
      }
    } else {
      assert s[0] == MinOf(s);
    }
  }

  /** The largest value of a non-empty column (`np.max`). */
  function MaxOf(s: seq<real>): real
    requires |s| > 0
    decreases |s|
  {
    if |s| == 1 then s[0]
    else
      var m0 := MaxOf(s[..|s| - 1]);
      if s[|s| - 1] > m0 then s[|s| - 1] else m0
  }

  /** `MaxOf` is above every value of the column and is one of them. */
  lemma {:induction false} MaxOfIsGreatest(s: seq<real>)
    requires |s| > 0
    ensures forall i :: 0 <= i < |s| ==> s[i] <= MaxOf(s)
    ensures exists i :: 0 <= i < |s| && s[i] == MaxOf(s)
    decreases |s|
  {
    if |s| > 1 {
      var init := s[..|s| - 1];
      MaxOfIsGreatest(init);
      var k :| 0 <= k < |init| && init[k] == MaxOf(init);
      assert forall i :: 0 <= i < |init| ==> s[i] == init[i];
      if s[|s| - 1] > MaxOf(init) {
        assert s[|s| - 1] == MaxOf(s);
      } else {
        assert s[k] == MaxOf(s);
      }
    } else {
      assert s[0] == MaxOf(s);
    }
  }

  function SumOf(s: seq<real>): real
    decreases |s|
  {
    if s == [] then 0.0 else SumOf(s[..|s| - 1]) + s[|s| - 1]
  }

  /** `int(v)`: truncation toward zero. */
  function Trunc(v: real): (t: int)
    ensures v >= 0.0 ==> 0 <= t && t as real <= v < t as real + 1.0
    ensures v < 0.0 ==> t <= 0 && t as real - 1.0 < v <= t as real
  {
    if v >= 0.0 then v.Floor else -((-v).Floor)
  }

  function BoxMin(c: seq<Point>): Vec3
    requires |c| > 0
  {
    Vec3(MinOf(Column(c, X)), MinOf(Column(c, Y)), MinOf(Column(c, Z)))
  }

  function BoxMax(c: seq<Point>): Vec3
    requires |c| > 0
  {
    Vec3(MaxOf(Column(c, X)), MaxOf(Column(c, Y)), MaxOf(Column(c, Z)))
  }

  /** The record built for label `l`, which occurs in `labels`. */
  function FeatureOf(points: seq<Point>, labels: seq<int>, l: int): Feature
    requires |points| == |labels| && l in labels
  {
    var c := Members(points, labels, l);
    MembersNonEmpty(points, labels, l);
    var lo, hi := BoxMin(c), BoxMax(c);
    Feature(l, |c|, hi.x - lo.x, hi.y - lo.y, hi.z - lo.z,
            Trunc(SumOf(Column(c, Intensity)) / |c| as real), lo, hi)
  }

  // ---------------------------------------------------------------------
  // All clusters

  /** Every label of `us` occurs in `labels`. */
  predicate Occurring(us: seq<int>, labels: seq<int>)
  {
    forall x :: x in us ==> x in labels
  }

  /** The records for the labels `us`, in that order, skipping the noise label. */
  function FeaturesFor(points: seq<Point>, labels: seq<int>, us: seq<int>): seq<Feature>
    requires |points| == |labels| && Occurring(us, labels)
    decreases |us|
  {
    if us == [] then []
    else
      var l := us[|us| - 1];
      assert us == us[..|us| - 1] + [l];
      FeaturesFor(points, labels, us[..|us| - 1]) + (if l == NoiseLabel then [] else [FeatureOf(points, labels, l)])
  }

  /** What `extract_features(points, labels)` returns. */
  function Features(points: seq<Point>, labels: seq<int>): seq<Feature>
    requires |points| == |labels|
  {
    FeaturesFor(points, labels, Unique(labels))
  }

  lemma {:induction false} MembersNonEmpty(points: seq<Point>, labels: seq<int>, l: int)
    requires |points| == |labels| && l in labels
    ensures |Members(points, labels, l)| > 0
  {
    MembersCount(points, labels, l);
    assert l in multiset(labels);
  }

  /** One more label of `us`: its record, unless it is the noise label. */
  lemma {:induction false} FeaturesForNext(points: seq<Point>, labels: seq<int>, us: seq<int>, k: nat)
    requires |points| == |labels| && Occurring(us, labels) && k < |us|
    ensures Occurring(us[..k], labels) && Occurring(us[..k + 1], labels)
    ensures FeaturesFor(points, labels, us[..k + 1])
            == FeaturesFor(points, labels, us[..k]) + (if us[k] == NoiseLabel then [] else [FeatureOf(points, labels, us[k])])
  {
    assert us[..k + 1][..k] == us[..k];
    assert forall x :: x in us[..k + 1] ==> x in us;
  }

  /** `extract_features(points, labels)` */
  method ExtractFeatures(points: seq<Point>, labels: seq<int>) returns (features: seq<Feature>)
    requires |points| == |labels|
    ensures features == Features(points, labels)
  {
    features := [];
    var uniqueLabels := Unique(labels);
    assert Occurring(uniqueLabels[..0], labels);
    for k := 0 to |uniqueLabels|
      invariant Occurring(uniqueLabels[..k], labels)
      invariant features == FeaturesFor(points, labels, uniqueLabels[..k])
    {
      FeaturesForNext(points, labels, uniqueLabels, k);
      var clusterLabel := uniqueLabels[k];
      if clusterLabel == NoiseLabel {
        continue;
      }
      var clusterPoints := Members(points, labels, clusterLabel);
      MembersNonEmpty(points, labels, clusterLabel);
      var avgIntensity := Trunc(SumOf(Column(clusterPoints, Intensity)) / |clusterPoints| as real);
      var minBound, maxBound := BoxMin(clusterPoints), BoxMax(clusterPoints);
      var feature := Feature(clusterLabel, |clusterPoints|,
                             maxBound.x - minBound.x, maxBound.y - minBound.y, maxBound.z - minBound.z,
                             avgIntensity, minBound, maxBound);
      assert feature == FeatureOf(points, labels, clusterLabel);
      features := features + [feature];
    }
    assert uniqueLabels[..|uniqueLabels|] == uniqueLabels;
  }

  // ---------------------------------------------------------------------
  // Properties of the records

  /** The mask keeps exactly the points that carry label `l`. */
  lemma {:induction false} MembersAreCluster(points: seq<Point>, labels: seq<int>, l: int)
    requires |points| == |labels|
    ensures forall q :: q in Members(points, labels, l) ==>
              exists i :: 0 <= i < |points| && labels[i] == l && points[i] == q
    ensures forall i :: 0 <= i < |points| && labels[i] == l ==> points[i] in Members(points, labels, l)
    decreases |labels|
  {
    if labels != [] {
      var n := |labels| - 1;
      MembersAreCluster(points[..n], labels[..n], l);
      forall q | q in Members(points, labels, l)
        ensures exists i :: 0 <= i < |points| && labels[i] == l && points[i] == q
      {
        if q in Members(points[..n], labels[..n], l) {
          var i :| 0 <= i < n && labels[..n][i] == l && points[..n][i] == q;
          assert labels[i] == l && points[i] == q;
        } else {
          assert labels[n] == l && points[n] == q;
        }
      }
      forall i | 0 <= i < |points| && labels[i] == l
        ensures points[i] in Members(points, labels, l)
      {
        if i < n {
          assert labels[..n][i] == l && points[..n][i] == points[i];
        }
      }
    }
  }

  /** `lo <= p <= hi` on the three spatial axes. */
  predicate InBox(p: Point, lo: Vec3, hi: Vec3)
  {
    lo.x <= p.x <= hi.x && lo.y <= p.y <= hi.y && lo.z <= p.z <= hi.z
  }

  function Component(v: Vec3, a: Axis): real
    requires a != Intensity
  {
    match a
    case X => v.x
    case Y => v.y
    case Z => v.z
  }

  /** The record for label `l` carries that label and counts exactly the
      points with that label, so at least one. */
  lemma {:induction false} FeatureCount(points: seq<Point>, labels: seq<int>, l: int)
    requires |points| == |labels| && l in labels
    ensures var f := FeatureOf(points, labels, l);
      f.clusterLabel == l && f.numPoints == multiset(labels)[l] && f.numPoints >= 1
  {
    MembersCount(points, labels, l);
    MembersNonEmpty(points, labels, l);
  }

  /** The extents are the max - min of x, y and z, hence never negative, and
      the box holds every point of the cluster. */
  lemma {:induction false} FeatureBox(points: seq<Point>, labels: seq<int>, l: int)
    requires |points| == |labels| && l in labels
    ensures var f := FeatureOf(points, labels, l);
      && f.width == f.bboxMax.x - f.bboxMin.x >= 0.0
      && f.length == f.bboxMax.y - f.bboxMin.y >= 0.0
      && f.height == f.bboxMax.z - f.bboxMin.z >= 0.0
      && forall i :: 0 <= i < |points| && labels[i] == l ==> InBox(points[i], f.bboxMin, f.bboxMax)
  {
    var c := Members(points, labels, l);
    var f := FeatureOf(points, labels, l);
    MembersNonEmpty(points, labels, l);
    MembersAreCluster(points, labels, l);
    MinOfIsLeast(Column(c, X));
    MinOfIsLeast(Column(c, Y));
    MinOfIsLeast(Column(c, Z));
    MaxOfIsGreatest(Column(c, X));
    MaxOfIsGreatest(Column(c, Y));
    MaxOfIsGreatest(Column(c, Z));
    assert Column(c, X)[0] == c[0].x && Column(c, Y)[0] == c[0].y && Column(c, Z)[0] == c[0].z;
    forall i | 0 <= i < |points| && labels[i] == l
      ensures InBox(points[i], f.bboxMin, f.bboxMax)
    {
      var k :| 0 <= k < |c| && c[k] == points[i];
      assert Column(c, X)[k] == points[i].x;
      assert Column(c, Y)[k] == points[i].y;
      assert Column(c, Z)[k] == points[i].z;
    }
  }

  /** On each spatial axis the box touches the cluster on both sides. */
  lemma {:induction false} FeatureBoxTight(points: seq<Point>, labels: seq<int>, l: int, a: Axis)
    requires |points| == |labels| && l in labels && a != Intensity
    ensures var f := FeatureOf(points, labels, l);
      && (exists i :: 0 <= i < |points| && labels[i] == l && Coord(points[i], a) == Component(f.bboxMin, a))
      && (exists i :: 0 <= i < |points| && labels[i] == l && Coord(points[i], a) == Component(f.bboxMax, a))
  {
    var c := Members(points, labels, l);
    var f := FeatureOf(points, labels, l);
    MembersNonEmpty(points, labels, l);
    MembersAreCluster(points, labels, l);
    var col := Column(c, a);
    MinOfIsLeast(col);
    MaxOfIsGreatest(col);
    assert Component(f.bboxMin, a) == MinOf(col) && Component(f.bboxMax, a) == MaxOf(col);
    var kmin :| 0 <= kmin < |c| && col[kmin] == MinOf(col);
    assert c[kmin] in c;
    var kmax :| 0 <= kmax < |c| && col[kmax] == MaxOf(col);
    assert c[kmax] in c;
  }

  /** The mean intensity of the cluster with label `l`. */
  function MeanIntensity(points: seq<Point>, labels: seq<int>, l: int): real
    requires |points| == |labels| && l in labels
  {
    var c := Members(points, labels, l);
    MembersNonEmpty(points, labels, l);
    SumOf(Column(c, Intensity)) / |c| as real
  }

  /** The intensity of the record is the cluster's mean intensity truncated
      toward zero: within one of the mean, on the side of zero. */
  lemma {:induction false} FeatureIntensity(points: seq<Point>, labels: seq<int>, l: int)
    requires |points| == |labels| && l in labels
    ensures var mean := MeanIntensity(points, labels, l);
            var avg := FeatureOf(points, labels, l).avgIntensity as real;
      && (mean >= 0.0 ==> avg <= mean < avg + 1.0)
      && (mean < 0.0 ==> avg - 1.0 < mean <= avg)
  {
  }

  /** Each record is built by `FeatureOf` for a label of `us` other than -1. */
  predicate Built(points: seq<Point>, labels: seq<int>, us: seq<int>, fs: seq<Feature>)
    requires |points| == |labels|
  {
    forall i :: 0 <= i < |fs| ==>
      && fs[i].clusterLabel in us && fs[i].clusterLabel != NoiseLabel
      && fs[i].clusterLabel in labels && fs[i] == FeatureOf(points, labels, fs[i].clusterLabel)
  }

  /** The records come in strictly ascending label order, so one per label. */
  predicate LabelsAscending(fs: seq<Feature>)
  {
    forall i, j :: 0 <= i < j < |fs| ==> fs[i].clusterLabel < fs[j].clusterLabel
  }

  /** Every label of `us` other than -1 has a record. */
  predicate Covers(us: seq<int>, fs: seq<Feature>)
  {
    forall l :: l in us && l != NoiseLabel ==> exists i :: 0 <= i < |fs| && fs[i].clusterLabel == l
  }

  lemma {:induction false} FeaturesForBuilt(points: seq<Point>, labels: seq<int>, us: seq<int>)
    requires |points| == |labels| && Occurring(us, labels)
    ensures Built(points, labels, us, FeaturesFor(points, labels, us))
    decreases |us|
  {
    if us != [] {
      var init := us[..|us| - 1];
      var l := us[|us| - 1];
      assert us == init + [l];
      assert Occurring(init, labels);
      FeaturesForBuilt(points, labels, init);
      var fs0 := FeaturesFor(points, labels, init);
      var fs := FeaturesFor(points, labels, us);
      if l != NoiseLabel {
        FeatureCount(points, labels, l);
        assert fs == fs0 + [FeatureOf(points, labels, l)];
      } else {
        assert fs == fs0;
      }
      forall i | 0 <= i < |fs|
        ensures && fs[i].clusterLabel in us && fs[i].clusterLabel != NoiseLabel
                && fs[i].clusterLabel in labels && fs[i] == FeatureOf(points, labels, fs[i].clusterLabel)
      {
        if i < |fs0| {
          assert fs[i] == fs0[i];
          var k :| 0 <= k < |init| && init[k] == fs0[i].clusterLabel;
          assert us[k] == init[k];
        } else {
          assert fs[i] == FeatureOf(points, labels, l);
        }
      }
    }
  }

  /** For ascending labels `us` the records come in ascending label order. */
  lemma {:induction false} FeaturesForOrdered(points: seq<Point>, labels: seq<int>, us: seq<int>)
    requires |points| == |labels| && Ascending(us) && Occurring(us, labels)
    ensures LabelsAscending(FeaturesFor(points, labels, us))
    decreases |us|
  {
    if us != [] {
      var init := us[..|us| - 1];
      var l := us[|us| - 1];
      assert us == init + [l];
      assert Ascending(init) && Occurring(init, labels);
      FeaturesForOrdered(points, labels, init);
      FeaturesForBuilt(points, labels, init);
      var fs0 := FeaturesFor(points, labels, init);
      var fs := FeaturesFor(points, labels, us);
      if l != NoiseLabel {
        FeatureCount(points, labels, l);
        assert fs == fs0 + [FeatureOf(points, labels, l)];
        BuiltBelow(points, labels, us, fs0);
        AscendingSnoc(fs0, FeatureOf(points, labels, l));
      } else {
        assert fs == fs0;
      }
    }
  }

  /** Records built for the labels before the last of an ascending list
      all carry labels below the last one. */
  lemma {:induction false} BuiltBelow(points: seq<Point>, labels: seq<int>, us: seq<int>, fs0: seq<Feature>)
    requires |points| == |labels| && Ascending(us) && us != []
    requires Built(points, labels, us[..|us| - 1], fs0)
    ensures forall i :: 0 <= i < |fs0| ==> fs0[i].clusterLabel < us[|us| - 1]
  {
    var init := us[..|us| - 1];
    forall i | 0 <= i < |fs0|
      ensures fs0[i].clusterLabel < us[|us| - 1]
    {
      assert fs0[i].clusterLabel in init;
      var k :| 0 <= k < |init| && init[k] == fs0[i].clusterLabel;
      assert us[k] == init[k];
    }
  }

  lemma {:induction false} AscendingSnoc(fs0: seq<Feature>, f: Feature)
    requires LabelsAscending(fs0)
    requires forall i :: 0 <= i < |fs0| ==> fs0[i].clusterLabel < f.clusterLabel
    ensures LabelsAscending(fs0 + [f])
  {
  }

  lemma {:induction false} FeaturesForComplete(points: seq<Point>, labels: seq<int>, us: seq<int>)
    requires |points| == |labels| && Occurring(us, labels)
    ensures Covers(us, FeaturesFor(points, labels, us))
    decreases |us|
  {
    if us != [] {
      var init := us[..|us| - 1];
      var l := us[|us| - 1];
      assert us == init + [l];
      assert Occurring(init, labels);
      FeaturesForComplete(points, labels, init);
      var fs0 := FeaturesFor(points, labels, init);
      var fs := FeaturesFor(points, labels, us);
      if l != NoiseLabel {
        FeatureCount(points, labels, l);
        assert fs == fs0 + [FeatureOf(points, labels, l)];
        assert fs[|fs| - 1].clusterLabel == l;
      } else {
        assert fs == fs0;
      }
      forall x | x in us && x != NoiseLabel
        ensures exists i :: 0 <= i < |fs| && fs[i].clusterLabel == x
      {
        if x in init {
          var i :| 0 <= i < |fs0| && fs0[i].clusterLabel == x;
          assert fs[i] == fs0[i];
        } else {
          assert x == l;
          assert fs[|fs| - 1].clusterLabel == x;
        }
      }
    }
  }

  /** `extract_features` emits exactly one record per distinct label other
      than -1, in ascending label order, each built by `FeatureOf`. */
  lemma {:induction false} FeaturesOnePerCluster(points: seq<Point>, labels: seq<int>)
    requires |points| == |labels|
    ensures Built(points, labels, labels, Features(points, labels))
    ensures LabelsAscending(Features(points, labels))
    ensures Covers(labels, Features(points, labels))
  {
    var u := Unique(labels);
    var fs := Features(points, labels);
    FeaturesForBuilt(points, labels, u);
    FeaturesForOrdered(points, labels, u);
    FeaturesForComplete(points, labels, u);
    assert forall l :: l in labels <==> l in u;
  }

  // ---------------------------------------------------------------------
  // The classifier

  /** The classifier's constants. */
  const MinClusterPoints: int := 20
  const TinySize: real := 0.2
  const UprightHeight: real := 1.0
  const NarrowSize: real := 1.5
  const CyclistLength: real := 1.0
  const CarLength: real := 1.5
  const CarWidth: real := 1.0
  const CarMinHeight: real := 0.8
  const CarMaxHeight: real := 3.0

  /** The five class names "noise", "pedestrian", "cyclist", "car", "unknown". */
  datatype Category = Noise | Pedestrian | Cyclist | Car | Unknown

  /** `classify_object_advanced(feature)`. The contract states each class
      directly on `width` and `length` as given, without ordering them. */
  function Classify(f: Feature): (c: Category)
    ensures c == Noise <==>
      f.numPoints < MinClusterPoints || (f.width < TinySize && f.length < TinySize && f.height < TinySize)
    ensures c == Pedestrian <==>
      c != Noise && f.height > UprightHeight && f.width <= CyclistLength && f.length <= CyclistLength
    ensures c == Cyclist <==>
      c != Noise && f.height > UprightHeight && f.width < NarrowSize && f.length < NarrowSize
      && (f.width > CyclistLength || f.length > CyclistLength)
    ensures c == Car <==>
      f.numPoints >= MinClusterPoints && (f.width > CarLength || f.length > CarLength)
      && f.width > CarWidth && f.length > CarWidth && CarMinHeight < f.height < CarMaxHeight
  {
    var width := if f.width <= f.length then f.width else f.length;
    var length := if f.width <= f.length then f.length else f.width;
    var height := f.height;
    if f.numPoints < MinClusterPoints || (length < TinySize && width < TinySize && height < TinySize) then Noise
    else if height > UprightHeight && length < NarrowSize && width < NarrowSize then
      (if length > CyclistLength then Cyclist else Pedestrian)
    else if length > CarLength && width > CarWidth && height > CarMinHeight && height < CarMaxHeight then Car
    else Unknown
  }

  /** Swapping width and length does not change the class. */
  lemma {:induction false} ClassifyIgnoresOrientation(f: Feature)
    ensures Classify(f) == Classify(f.(width := f.length, length := f.width))
  {
  }


  /** Typical clusters: a car-sized box lying either way, a person, a bike,
      a too-sparse cluster and a tall wide box that fits no rule. */
  lemma {:induction false} ClassifyExamples(lo: Vec3, hi: Vec3)
    ensures Classify(Feature(1, 150, 1.8, 4.2, 1.5, 40, lo, hi)) == Car
    ensures Classify(Feature(1, 150, 4.2, 1.8, 1.5, 40, lo, hi)) == Car
    ensures Classify(Feature(2, 60, 0.6, 0.5, 1.7, 20, lo, hi)) == Pedestrian
    ensures Classify(Feature(3, 60, 0.6, 1.3, 1.6, 20, lo, hi)) == Cyclist
    ensures Classify(Feature(4, 19, 1.8, 4.2, 1.5, 40, lo, hi)) == Noise
    ensures Classify(Feature(5, 300, 2.5, 8.0, 3.5, 30, lo, hi)) == Unknown
  {
  }
}
