# LiDAR frame pipeline: tracker, features, classifier and per-frame glue

This project is a Dafny model of the algorithmic core of a frame-by-frame
LiDAR perception script. The model covers four parts:

- **`EuclideanDistTracker`** (`tracker.dfy`, module `Tracker`). The centroid tracker
  keeps an insertion-ordered dictionary from object id to the last known centre,
  plus an id counter. In each `update` call:
  - every tracked id, in dictionary order, claims the nearest still-unmatched
    detection strictly within the distance threshold, taking the earliest on ties;
  - leftover detections get fresh consecutive ids;
  - ids that claimed nothing are dropped.

  The class keeps the source's fields and loops. Its methods are proved against
  the function `UpdateSpec`, and the lemmas state what one call guarantees:
  - every detection comes back exactly once;
  - ids are distinct and positive;
  - matched pairs lie within the threshold;
  - stored centres are those of the returned boxes;
  - the dictionary's keys are exactly the returned ids;
  - the invariant "distinct keys, all at most the counter" is preserved.
- **`extract_features`** (`object_features.dfy`, module `ObjectFeatures`). For each
  distinct cluster label in ascending order except the noise label -1, it builds
  one record: the point count, the axis-aligned box, the three extents and the
  mean intensity truncated toward zero. It is an imperative loop (`ExtractFeatures`)
  proved equal to the function `Features`. The lemmas prove:
  - exactly one record per non-noise label, in ascending label order;
  - the box is the tightest box around the cluster's points;
  - the point count equals the number of occurrences of the label.
- **`classify_object_advanced`** (`Classify`). This is the ordered rule chain over
  the point count and the extents, after sorting width and length. Its contract
  states each class directly as an if-and-only-if on the unsorted width and length.
- **The per-frame glue of the main script** (`pipeline.dfy`, module `Pipeline`):
  - the cluster count;
  - the detections handed to the tracker, which are the non-noise features as
    `[min_x, min_y, width, length]`;
  - the first-match linkage of tracker ids back to features;
  - the output records;
  - the skip and empty-frame branches of one pass of the frame loop.

  The lemmas prove three things. The feature count equals the cluster count. With
  the tracker's own output, every non-noise feature is linked to a live id, never
  to -1. No noise record is written.

`wrappers.dfy` holds the `Option` type.

Floating-point values are modelled as mathematical reals. The tracker compares
squared distances instead of `math.hypot` distances. The lemma `SquaredComparison`
shows that, over the reals, each squared comparison agrees with the corresponding
`math.hypot` comparison.

Two behaviours of the code are worth stating outright, and the model keeps both:

- **Linkage does not use a tuple up.** Each feature takes the id of the first
  tracker tuple within tolerance, whether or not an earlier feature already took
  it, so two features can share one id (`Pipeline.LinkSharesTuples`).
- **A frame with no non-ground point is skipped (`main.py:78-80`).** It is skipped
  before the tracker is called, so tracked ids do not decay on that frame
  (`Pipeline.ProcessFrame`). Only a frame with points but no cluster calls
  `update([])` (`main.py:129-132`).

## Model

| member | source | states |
|---|---|---|
| Tracker.EuclideanDistTracker.constructor | tracker.py:8-13 | a new tracker has an empty dictionary and counter 0, and satisfies the tracker invariant |
| Tracker.EuclideanDistTracker.Update | tracker.py:15-86 | the returned list, the new dictionary and the new counter are exactly `UpdateSpec` of the old dictionary and counter; the invariant (distinct keys, every key in 1..counter) is preserved |
| Tracker.EuclideanDistTracker.MatchTracked | tracker.py:29-67 | after the matching loop, the returned list holds the matched detections tagged with their ids in dictionary order, matched entries carry their detection's centre, the unmatched list is what `MatchPass` leaves, and the counter is unchanged |
| Tracker.EuclideanDistTracker.SpawnUnmatched | tracker.py:69-79 | each leftover detection, in order, is appended with id counter+1, counter+2, ...; its centre is appended to the dictionary; the counter grows by the number of leftovers |
| Tracker.MatchEntries | tracker.py:35-67 | the outer loop over the dictionary entries, starting from an empty list and all detections unmatched, ends in the state `MatchPass` describes |
| Tracker.MatchNext | tracker.py:37-67 | one pass of the outer loop extends the matched prefix by one dictionary entry, as `Step` describes |
| Tracker.ClaimNearest | tracker.py:38-67 | one tracked id claims the nearest unmatched detection (if any), appends it with its id, removes it from the unmatched list and gets that detection's centre |
| Tracker.ClosestUnmatched | tracker.py:38-52 | the inner scan returns the detection index chosen by `Nearest`, or -1 when there is none |
| Tracker.NearestIsEarliestMinimum | tracker.py:38-52 | the scan finds nothing iff no unmatched detection is strictly within the threshold; otherwise it finds one at minimum distance, strictly within the threshold, and strictly closer than every earlier one (first wins ties) |
| Tracker.SquaredComparison | tracker.py:47-52 | for a non-negative distance, `dist < bound` iff its square is below `Limit(bound)`, so squared comparisons choose as the `hypot` comparisons do |
| Tracker.IndicesOnce | tracker.py:32 | each of 0..n-1 occurs exactly once in `list(range(n))` and nothing else occurs |
| Tracker.RemoveFirst | tracker.py:67 | on an ascending list, `remove(v)` of the value at a position drops exactly that position |
| Tracker.MatchPassPermutes | tracker.py:32-67 | during matching, the claimed detections plus the unmatched ones are always a permutation of 0..n-1 |
| Tracker.MatchPassOrdered | tracker.py:32-67 | the unmatched list stays strictly ascending |
| Tracker.MatchPassNext | tracker.py:37-67 | processing one more entry either keeps everything and adds the entry unchanged, or pairs it with the chosen detection, stores that centre and removes exactly that detection |
| Tracker.MatchPassKeepsKeys | tracker.py:37-63 | overwriting matched centres keeps the dictionary's keys and their order |
| Tracker.MatchPassPairsOnce | tracker.py:37-65 | every pairing carries a key of the dictionary and no key is paired twice |
| Tracker.MatchPassCentres | tracker.py:57-63 | after matching, each paired id is stored with its detection's centre |
| Tracker.MatchPassWithinThreshold | tracker.py:39-55 | each pairing joins an id to a detection whose centre is strictly within the threshold of the id's old centre |
| Tracker.MatchPassNoDetections | tracker.py:42-55 | with no detections nothing is paired and nothing is unmatched |
| Tracker.UpdateKeepsEveryDetection | tracker.py:29-79 | every input detection appears exactly once in the returned list, with x, y, w and h unchanged |
| Tracker.UpdatePairsIds | tracker.py:65-79 | the returned ids are first the matched ids (existing keys, at most the counter) and then counter+1, counter+2, ... in order |
| Tracker.UpdateIdsDistinct | tracker.py:65-79 | all returned ids are positive and pairwise distinct |
| Tracker.UpdateSpawnsFreshIds | tracker.py:69-79 | the counter never decreases; the returned entries before the new ones carry existing keys; the new ones get counter+1, counter+2, ... for leftover detections in ascending index order, each larger than every old key |
| Tracker.StagedWellFormed | tracker.py:69-79 | before clean-up the dictionary has distinct keys, all within 1..new counter |
| Tracker.StagedCentres | tracker.py:63-78 | before clean-up every returned id is stored with the centre of its detection |
| Tracker.RetainSubset | tracker.py:84 | the clean-up keeps a sub-multiset of the entries, all with a kept key |
| Tracker.RetainDistinct | tracker.py:84 | the clean-up keeps keys distinct |
| Tracker.RetainLookup | tracker.py:84 | after clean-up a key maps to its old centre if it is kept, and is absent otherwise |
| Tracker.RetainWellFormed | tracker.py:84 | the clean-up preserves the tracker invariant |
| Tracker.UpdateWellFormed | tracker.py:15-86 | `update` preserves the tracker invariant |
| Tracker.UpdateKeysAreOutputIds | tracker.py:83-84 | after `update`, the dictionary's keys are exactly the ids returned by that call |
| Tracker.UpdateStoresCentres | tracker.py:63-84 | after `update`, every returned id maps to the centre of its returned box |
| Tracker.UpdateMatchesWithinThreshold | tracker.py:47-63 | a returned id that was tracked before had its old centre strictly within the threshold of its new box's centre |
| Tracker.UpdateEmpty | tracker.py:29-86 | `update([])` returns nothing, empties the dictionary and keeps the counter |
| Tracker.UpdateReturnsDetection | tracker.py:65-79 | every detection comes back as some returned entry with its box and a positive id |
| Tracker.UpdateFirstFrame | tracker.py:69-79 | on a new tracker, one box [0,0,2,2] gets id 1 with centre (1,1) |
| Tracker.SecondFrameMatch | tracker.py:37-67 | id 1 at (1,1) claims the box at [0.2,0.1,2,2] (centre (1.2,1.1)) and leaves the far box unmatched |
| Tracker.SecondFramePairs | tracker.py:29-79 | in that frame detection 0 keeps id 1 and detection 1 gets the fresh id 2 |
| Tracker.SecondFrameStaged | tracker.py:63-79 | before clean-up, the dictionary is id 1 at (1.2,1.1) and id 2 at (9.5,9.5) |
| Tracker.SecondFrameCleanup | tracker.py:65-84 | the returned list of that frame is the two boxes with ids 1 and 2, and clean-up keeps both entries |
| Tracker.UpdateSecondFrame | tracker.py:15-86 | the whole second `update` returns both boxes with ids 1 and 2, stores both centres and leaves the counter at 2 |
| ObjectFeatures.Unique | object_features.py:17 | the distinct labels are strictly ascending and are exactly the labels that occur |
| ObjectFeatures.ExtractFeatures | object_features.py:3-48 | the loop over the distinct labels returns exactly `Features`: one record per label, in ascending order, skipping -1 |
| ObjectFeatures.MembersCount | object_features.py:25 | the masked cluster has as many points as the label has occurrences |
| ObjectFeatures.MembersAreCluster | object_features.py:25 | the mask keeps exactly the points that carry the label |
| ObjectFeatures.MinOfIsLeast | object_features.py:32 | the column minimum is at most every value and is one of them |
| ObjectFeatures.MaxOfIsGreatest | object_features.py:33 | the column maximum is at least every value and is one of them |
| ObjectFeatures.Trunc | object_features.py:29 | `int(v)` truncates toward zero: it is the integer next to v on the side of zero |
| ObjectFeatures.FeatureCount | object_features.py:36-38 | the record carries its label, and its point count equals the label's occurrences and is at least 1 |
| ObjectFeatures.FeatureBox | object_features.py:32-41 | each extent is box max minus box min, is non-negative, and every point of the cluster lies in the box |
| ObjectFeatures.FeatureBoxTight | object_features.py:32-33 | on each spatial axis some cluster point attains the box minimum and some attains the maximum |
| ObjectFeatures.FeatureIntensity | object_features.py:29 | the stored intensity is the mean intensity truncated toward zero |
| ObjectFeatures.FeaturesOnePerCluster | object_features.py:16-48 | every record is built for a non-noise label that occurs, records come in strictly ascending label order, and every non-noise label has a record |
| ObjectFeatures.Classify | object_features.py:51-92 | noise iff fewer than 20 points or all three extents below 0.2; pedestrian iff not noise, taller than 1.0 and both horizontal extents at most 1.0; cyclist iff not noise, taller than 1.0, both below 1.5 and one above 1.0; car iff at least 20 points, one horizontal extent above 1.5, both above 1.0, height strictly between 0.8 and 3.0 |
| ObjectFeatures.ClassifyIgnoresOrientation | object_features.py:63-66 | swapping width and length does not change the class |
| ObjectFeatures.ClassifyExamples | object_features.py:69-92 | a car-sized box (either way round) is a car, a person-sized one a pedestrian, a bike-sized one a cyclist, 19 points is noise, a 2.5 x 8 x 3.5 box is unknown |
| Pipeline.AscendingLabelsCount | clustering.py:30 | records with strictly ascending labels carry as many distinct labels as records |
| Pipeline.FeatureLabels | clustering.py:30 | the records' labels are exactly the distinct labels other than -1 |
| Pipeline.FeatureCountIsClusterCount | main.py:91-92 | the number of records equals `n_clusters`, so `n_clusters > 0` iff some record exists |
| Pipeline.KeptIsNonNoise | main.py:99 | the kept positions are ascending, in range, and are exactly the non-noise positions |
| Pipeline.DetectionsAreKept | main.py:95-104 | the tracker's detections are `[min_x, min_y, width, length]` of the non-noise features, in feature order |
| Pipeline.CollectDetections | main.py:95-104 | the first loop computes exactly the classes and the detections |
| Pipeline.FirstNear | main.py:115-120 | the position found is the first tuple within 0.1 on both axes, or the end when there is none |
| Pipeline.LinkIds | main.py:110-120 | the linkage loop computes exactly `Links` |
| Pipeline.LinksMeaning | main.py:110-120 | a noise feature gets -1; a non-noise feature gets the id of the first tuple within tolerance, or -1 when no tuple is within tolerance |
| Pipeline.LinkSharesTuples | main.py:115-120 | linkage does not use a tuple up: two features whose first near tuple is the same both take its id |
| Pipeline.LinkOfReturned | main.py:113-120 | a non-noise feature whose box corner comes back among positive ids is linked to one of those ids |
| Pipeline.NonNoiseAlwaysLinked | main.py:95-120 | with the tracker's own output, every non-noise feature gets a positive id the tracker returned, never -1 |
| Pipeline.OutputRecordsAreKept | main.py:149-163 | the records are those of the non-noise features, in order, copying id, label, class, count, extents and intensity |
| Pipeline.OutputRecordsHaveNoNoise | main.py:162 | no record has class noise |
| Pipeline.FrameRecordsTracked | main.py:91-163 | every record written for a frame with clusters is non-noise and carries a positive id that is tracked after the frame |
| Pipeline.ProcessFrame | main.py:62-163 | an unreadable frame or one with no non-ground point is skipped with the tracker untouched; no cluster gives no records and `update([])` (the dictionary empties); otherwise the tracker ends as `UpdateSpec` says and the records are `FrameRecords` |

## Left out

- Reading the CSV frames (`io_utils.py`) is not modelled. A frame is given as already read, or as unreadable.
- The RANSAC ground filter (`ground_filter.py`) is not modelled. It is random; the model takes the non-ground points as input.
- DBSCAN itself (`clustering.py:26-27`) is not modelled. The model takes the labels as input; only the cluster count at `clustering.py:30` is modelled. The empty-input branch at `clustering.py:21-22` is covered, because an empty frame is skipped before clustering.
- The enumeration of frame paths, the `MAX_FRAMES` cut and the outer `for` loop are not modelled. `ProcessFrame` is one pass of that loop.
- Printing, the `Counter` of classes, writing the JSON file (`main.py:165-168`), visualisation and `analyze_results.py` are not modelled, because they are output only.
- ObjectFeatures.ExtractFeatures: `round(·, 2)` on the extents and box corners is not modelled, because reals are exact.
- The model uses mathematical reals rather than IEEE doubles. It also uses squared distances rather than `math.hypot`: over the reals `SquaredComparison` shows each squared comparison agrees with the corresponding `math.hypot` comparison, but float rounding is not captured.
- The dictionary `center_points` is modelled as an insertion-ordered sequence of entries. Distinct keys are a proved invariant, not a property of the type.
- `Pipeline.ProcessFrame` always uses the default `dist_thresh` of 5.0, as the script does.
