# Social-distancing frame analysis, modelled in Dafny

This project models the per-frame proximity analysis of a social-distancing
monitor (`social_distance/core/processing.py`). For each video frame the
program takes the detector's bounding boxes and keeps those of class
"person". It reduces each box to its ground-contact point, the middle of the
bottom edge. Then it flags each person safe or unsafe and counts the pairs
of people closer than a safe distance. Finally it groups violators into
clusters with a disjoint-set structure and tabulates Total, Safe, Unsafe,
Violations and Violation Clusters.

Files and modules:

- `boxes.dfy`, module `Boxes`: boxes, ground-contact points, the person
  filter and the flag-to-colour mapping. These are pure functions, as in the
  source.
- `proximity.dfy`, module `Proximity`: ground points (pairs of `real`) and
  the distance test `Close`. It also holds the classifier: a method that
  updates an array of flags in nested loops with an early `break`, proved
  equal to the specification function `Classification`.
- `disjoint_set.dfy`, module `DisjointSets`: the disjoint-set library the
  statistics step uses. It is a class whose state is the partition of the
  elements seen so far. The module also defines the graph notions used to
  state what the partition means: closed, connected, connected components.
- `statistics.dfy`, module `Statistics`: the statistics step. Its double
  loop keeps a `visited` set, a violation counter and the disjoint-set
  object, and is proved against set-level specifications.

Modelling choices:

- Distance. The source compares a float norm (`np.linalg.norm`, `math.hypot`)
  with the radius. The model uses one predicate in both scans:
  `Close(p, q, r)` is `r > 0 && dx*dx + dy*dy < r*r`, which is exact over the
  reals. `CloseIsNormBelow` shows it equals `d < r` for the norm `d`.
- Floor division. `w // 2` is written `w / 2`. Dafny's `/` with the positive
  divisor 2 rounds down exactly as Python does, negative `w` included.
- Disjoint set. The library's `find` creates an element on first use, and
  `calc_statistics` adds elements only through `union(i, j)`. So `itersets()`
  ranges only over people who took part in at least one violating pair. The
  model rests on this reading of the library: `Find` adds a singleton class,
  `Union` merges two classes, and the cluster count is the number of classes.
  An isolated person is not a cluster. With no violation the count is 0,
  not the number of people.
- The classifier's one-sided scan is kept. For point `i` the source looks at
  earlier points `j < i` and stops (`break`) at the first one within the
  radius. It marks only that pair. A point that is close only to later
  points, each of which stopped at an even earlier partner, stays "safe".
  `ClassifierIsOneSided` exhibits such a frame.
- The classifier does not flag both ends of every close pair; it flags one
  pair per point, as above. An isolated person forms no cluster: with no
  violation the count is 0, and for three people of whom two are close
  `ThreePeopleExample` gives 1 cluster, not 2.
- `Unsafe` is `len(ground_points) - sum(is_safe)`. The source never checks
  that the two lists have the same length, so the model has no such
  `requires`. `Safe + Unsafe == Total` always holds. `Unsafe` is the number
  of false flags when the lengths agree.
- The inner loop of `calc_statistics` is the method `ScanRow`, called once
  per outer index by `CalcStatistics`. The pairs it records, skips and
  unites are those of the source's inner loop.

## Model

| member | source | states |
|---|---|---|
| `Boxes.BoxCenterBottom` | social_distance/core/processing.py:31-33 | the point's y is `y + h`; its x is `x + floor(w/2)`, i.e. `2(px - x) <= w < 2(px - x) + 2`; for `w >= 0` it lies in `[x, x + w]` |
| `Boxes.BbPoint` | social_distance/core/processing.py:62-64 | the duplicate computation gives the same point as `box_center_bottom` |
| `Boxes.BbPoints` | social_distance/core/processing.py:67-68 | same length as the boxes, and element k is the ground-contact point of box k (order kept) |
| `Boxes.SafeFlagToColor` | social_distance/core/processing.py:36-37 | safe gives (0, 230, 0), unsafe gives (0, 0, 230); the blue channel is 0 |
| `Boxes.PersonIndices` | social_distance/core/processing.py:54 | the increasing list of positions k < n whose class id is 0, containing every such k |
| `Boxes.PersonBoxes` | social_distance/core/processing.py:54 | the comprehension over the first n zipped entries yields the boxes at exactly the person positions, in order |
| `Boxes.FilterExceptPerson` | social_distance/core/processing.py:53-54 | the result is the boxes at the person positions among the first min(len(class_ids), len(boxes)) entries, in original order; the tail of the longer list is ignored |
| `Proximity.CloseIsNormBelow` | social_distance/core/processing.py:46 | for any `d >= 0` with `d*d` equal to the squared distance, `Close(p, q, r)` holds exactly when `d < r` (the norm test of both scans) |
| `Proximity.FirstCloseFrom` | social_distance/core/processing.py:43-49 | from inner index j on, the search finds the first earlier index within the radius, or reports that none of j..i-1 is |
| `Proximity.FirstCloseBefore` | social_distance/core/processing.py:43-49 | the inner loop for point i stops at the least j < i within the radius, or finds none |
| `Proximity.Classified` | social_distance/core/processing.py:41-49 | after the outer loop has handled points 0..k-1 the list still has one flag per point, and every point not yet handled is still safe |
| `Proximity.Classification` | social_distance/core/processing.py:41 | one flag per point, so an empty list gives an empty list |
| `Proximity.ClassifySafeUnsafe` | social_distance/core/processing.py:40-50 | the nested-loop method with its `break`s returns exactly `Classification(points, radius)` |
| `Proximity.ClassifiedKeepsUnsafe` | social_distance/core/processing.py:47-48 | a flag once set to False by the outer loop is never reset |
| `Proximity.ClassifiedSound` | social_distance/core/processing.py:42-49 | at every stage of the outer loop, a False flag has some other point within the radius |
| `Proximity.UnsafeHasCloseNeighbour` | social_distance/core/processing.py:42-49 | soundness: if point m is flagged unsafe, some other point is strictly within the radius; so a point with no such neighbour stays safe |
| `Proximity.NonPositiveRadiusAllSafe` | social_distance/core/processing.py:46 | with radius <= 0 every flag stays True |
| `Proximity.EarlierCloseMarksUnsafe` | social_distance/core/processing.py:43-49 | if some earlier point j < i is within the radius of point i, point i ends up unsafe |
| `Proximity.ClassifierIsOneSided` | social_distance/core/processing.py:49 | for points (0,0), (3,0), (1.5,0) and radius 2 the flags are [False, True, False] although points 1 and 2 are within the radius |
| `DisjointSets.MergeFacts` | social_distance/core/processing.py:103 | `union(i, j)` keeps a partition, puts i and j in one set, adds exactly i and j to the elements seen, never leaves the structure empty and adds at most one set |
| `DisjointSets.MergeKeepsComponents` | social_distance/core/processing.py:103 | if the sets are the connected components of the edges met so far, after `union(x, y)` they are the components of those edges plus (x, y) |
| `DisjointSets.ComponentsUnique` | social_distance/core/processing.py:112 | a graph has only one component partition, so the number of sets is determined by the violating pairs alone |
| `DisjointSets.DisjointSet.constructor` | social_distance/core/processing.py:91 | a new structure holds no sets |
| `DisjointSets.DisjointSet.Find` | social_distance/core/processing.py:103 | finding x makes x a singleton set if it was unseen, changes nothing else, and returns the set that holds x |
| `DisjointSets.DisjointSet.Union` | social_distance/core/processing.py:103 | the new partition is `Merge` of the old one with x and y |
| `DisjointSets.DisjointSet.SetCount` | social_distance/core/processing.py:112 | the number of sets `itersets` yields (the size of `classes`); 0 exactly when the structure holds no set, which by `NoClassIffNoElement` is when no element has been seen |
| `DisjointSets.NoClassIffNoElement` | social_distance/core/processing.py:112 | a partition has no set exactly when it holds no element, so `itersets` yields nothing until `find` or `union` has met an element |
| `Statistics.CountSafe` | social_distance/core/processing.py:106 | `sum(is_safe)` is the number of True flags, at most the length |
| `Statistics.BoolCounts` | social_distance/core/processing.py:110 | True flags plus False flags make up the whole list, so `Unsafe` counts the False flags |
| `Statistics.VisitedStep` | social_distance/core/processing.py:96-98 | the test `i == j or (j, i) in visited` skips exactly the j <= i, and each other j adds the one new pair (i, j) |
| `Statistics.ScanStateStep` | social_distance/core/processing.py:98-104 | examining a new pair keeps the counter equal to the number of violating pairs seen and the sets equal to their components, whether or not the pair violates |
| `Statistics.ScanRow` | social_distance/core/processing.py:95-104 | after the inner loop for index i, all pairs of rows 0..i are visited and the counter and the sets still describe the violating pairs among them |
| `Statistics.ScanComplete` | social_distance/core/processing.py:94-104 | once every pair is visited, the counter is the number of violating pairs and the sets are the components of the violation graph |
| `Statistics.CalcStatistics` | social_distance/core/processing.py:89-113 | Total is the number of points; Safe the True flags; Safe + Unsafe = Total; Violations is the number of unordered pairs closer than the safe distance; Violation Clusters is the number of connected components of the violation graph over violators, at most Violations, and 0 exactly when Violations is 0 |
| `Statistics.ColumnSize` | social_distance/core/processing.py:94-98 | the row of pairs (i, m) with i < k has k pairs |
| `Statistics.PairsBelowSize` | social_distance/core/processing.py:94-98 | there are n(n-1)/2 unordered pairs of distinct indices below n |
| `Statistics.ViolationsBound` | social_distance/core/processing.py:102-104 | Violations is at most n(n-1)/2, and 0 when the safe distance is not positive |
| `Statistics.AllSafeIffNoViolations` | social_distance/core/processing.py:40-50 | the classifier flags every point safe exactly when the statistics scan finds no violating pair |
| `Statistics.ThreePeopleExample` | social_distance/core/processing.py:89-113 | for (0,0), (1,0), (10,10) with distance 2: one violating pair, flags [False, False, True], and one cluster |

## Left out

- `draw_bb` and `draw_polygon`: image drawing and blending through OpenCV.
- `project_points` and `filter_except_in_polygon`: thin wrappers over OpenCV's
  perspective transform and point-in-polygon test, which are foreign float
  geometry. The ground points handed to the classifier and the statistics
  are therefore parameters of the model.
- `get_file_path` and the network-name tables: file paths and constants
  with no analysis in them.
- Floating-point rounding of `norm` and `hypot`: distances are exact reals.
- The disjoint-set library's internals (parent links, path compression,
  canonical elements): only its partition is modelled. `Find` returns the
  set that holds the element instead of its canonical element.
- The widgets, the video display, the polygon overlay and the camera thread:
  user interface and I/O around the analysis.
- The frame-processing pipeline that chains the stages: the stage-chaining
  code is not modelled.
