# mahjong-eye core, modelled in Dafny

mahjong-eye finds mahjong tiles in a camera frame. It turns detected contours into axis-aligned
boxes and melds adjacent boxes into larger ones. It then crops each meld out of the image and
labels it with the reference tile image that gives the most feature-match inliers.

This project models the pure core of that pipeline and proves properties of it:

- `box.dfy` (module `Boxes`) covers `Box.java`:
  - construction from an OpenCV rectangle;
  - the `overlap` test;
  - `shortestDistance`;
  - the minimal enclosing box `meld`.
- `mat_box.dfy` (module `MatBoxes`) covers `MatBox.fromImage`. It models only the padded,
  clamped crop rectangle and `submat`'s rejection of a negative extent, not the image.
- `melding.dfy` (module `Melding`) has the `MeldResult` record, plus a reconstruction of
  `Box.meldAdjacent`.
  - `Box.java` has no body for `meldAdjacent`, although `MainController.meld` calls it
    (MainController.java:211). The model defines an algorithm with the behaviour that call and
    the `MeldResult` fields describe.
  - It does not claim to be the original: a single pass unites every pair of boxes closer than
    the threshold, and each cluster is melded.
- `identifier.dfy` (module `Identification`) covers `Identifier.java`:
  - which files are loaded as references;
  - `fileNameToTileName`;
  - the name-to-image map built by `init`, including its failure on a repeated key;
  - the best-match selection in `identify`, with the inlier counts as inputs.
- `main_controller.dfy` (module `Controller`) covers `MainController.java`:
  - the drag-over extension check;
  - `convertIndexesToPoints`;
  - the "apply the processors up to the selected one" loop in `updateImage`;
  - the guard in the meld stage.
- `text.dfy` (module `Text`) holds the `java.lang.String` operations these rely on: `contains`,
  `endsWith`, `replaceAll` with a literal pattern, `split` on a quoted separator, and ASCII
  `toLowerCase`.
- `wrappers.dfy` (module `Wrappers`) holds `Option` and `Result`. Java's exceptions become
  `Failure` values.

How the model represents the source:

- Distances are modelled SQUARED, as exact naturals. The Java `double` is the square root of
  `Boxes.ShortestDistanceSquared`. A threshold comparison `distance < threshold` becomes
  `Melding.Adjacent`.
- `Box.overlap` is modelled with OpenCV's half-open `Rect.contains` (`x <= p.x < x + width`) and
  Guava's closed ranges, as the code uses them. `Rect.contains` is half-open, yet the ten
  tests still decide exactly whether the CLOSED rectangles intersect (`Boxes.Overlap`), so
  boxes that touch along an edge or at a corner overlap.
- The reconstructed `meldAdjacent` compares the distance strictly with the threshold; this is
  the model's choice, since `Box.java` has no body to read it from. Under a strict comparison a
  threshold of 0 makes no pair adjacent, not even overlapping ones
  (`Melding.AdjacentAndThreshold`).
- Proved consequence of the as-written rewrite table:
  - Value "west" and value "white" both become "w", so `<suit>-west.jpg` and `<suit>-white.jpg`
    name the same tile.
  - `Collectors.toMap` therefore throws on a reference directory holding both. In the model,
    `Identification.ReferenceIndex` fails.

## Model

| member | source | states |
|---|---|---|
| Boxes.NewBox | src/main/java/com/chairbender/mahjongeye/Box.java:72-85 | building a box fails exactly when the width or height is negative (Guava rejects an inverted closed range); otherwise the box keeps the rectangle, its end minus start is the width and height, and all four corners lie in its closed region |
| Boxes.CornerInsideMeansIntersect | src/main/java/com/chairbender/mahjongeye/Box.java:154-158 | the corner tests are sound although `Rect.contains` is half-open: a corner of either box inside the other's rectangle means the closed rectangles intersect |
| Boxes.Overlap | src/main/java/com/chairbender/mahjongeye/Box.java:148-181 | the two corner tests and eight edge-crossing tests hold exactly when the closed rectangles intersect, including containment and touching boundaries |
| Boxes.OverlapCatchesIntersection | src/main/java/com/chairbender/mahjongeye/Box.java:153-180 | completeness of the test list: whenever the closed rectangles intersect, one of the corner or edge tests fires |
| Boxes.OverlapSymmetric | src/main/java/com/chairbender/mahjongeye/Box.java:148-181 | `a.overlap(b) == b.overlap(a)` although the tests are not written symmetrically |
| Boxes.ClosedIntersectIffSharedPoint | src/main/java/com/chairbender/mahjongeye/Box.java:148-152 | the interval formulation of overlap is the same as the two boxes sharing a point of the plane |
| Boxes.ContainmentImpliesOverlap | src/main/java/com/chairbender/mahjongeye/Box.java:95-103 | a box containing another overlaps it from either side, and their shortest distance is 0 |
| Boxes.ShortestDistanceSquared | src/main/java/com/chairbender/mahjongeye/Box.java:95-146 | whichever branch runs, the result is the squared Euclidean distance between the closed rectangles (horizontal gap squared plus vertical gap squared); it is 0 exactly when the boxes overlap; side by side it is the horizontal gap squared, stacked the vertical gap squared, and in the diagonal branch both gaps are positive |
| Boxes.DistanceSymmetric | src/main/java/com/chairbender/mahjongeye/Box.java:100-141 | the distance does not depend on which box asks |
| Boxes.EuclidSquared | src/main/java/com/chairbender/mahjongeye/Box.java:143-146 | `euclid` squared is 0 exactly for equal points and is at least the square of each coordinate difference |
| Boxes.MinOf | src/main/java/com/chairbender/mahjongeye/Box.java:189-191 | `stream().min()` of a non-empty stream is one of its elements and no element is smaller |
| Boxes.MaxOf | src/main/java/com/chairbender/mahjongeye/Box.java:190-192 | `stream().max()` of a non-empty stream is one of its elements and no element is larger |
| Boxes.Meld | src/main/java/com/chairbender/mahjongeye/Box.java:183-195 | `meld` fails (`orElseThrow`) exactly on an empty collection; otherwise it is a valid box enclosing every input, each of whose four bounds is attained by some input |
| Boxes.MeldIsMinimal | src/main/java/com/chairbender/mahjongeye/Box.java:183-187 | "minimally enclosing": any box enclosing all inputs encloses their meld |
| Boxes.MeldSingleton | src/main/java/com/chairbender/mahjongeye/Box.java:188-195 | melding one box gives that box back |
| Boxes.MeldOrderIndependent | src/main/java/com/chairbender/mahjongeye/Box.java:188-195 | the meld of a collection depends only on which boxes it holds, not on order or repetition |
| MatBoxes.FromImage | src/main/java/com/chairbender/mahjongeye/MatBox.java:25-34 | the crop covers exactly the image points within `padding` of the box on each axis; when there is no such point the clamped rectangle has a negative extent and `submat` fails; for a box inside the image and a non-negative padding the crop succeeds and encloses the box, and with zero padding it is the box's own rectangle; the returned MatBox keeps the unpadded box |
| MatBoxes.PaddingMonotone | src/main/java/com/chairbender/mahjongeye/MatBox.java:25-32 | for a box inside the image, more padding never gives a smaller crop, and neither crop fails |
| Text.Contains | src/main/java/com/chairbender/mahjongeye/Identifier.java:106-108 | `contains` is true exactly when the pattern occurs at some position |
| Text.ReplaceAll | src/main/java/com/chairbender/mahjongeye/Identifier.java:126-150 | `replaceAll` with a literal pattern takes its characters from the input and the replacement only, and returns the input when the pattern does not occur |
| Text.ReplaceLeftmost | src/main/java/com/chairbender/mahjongeye/Identifier.java:126-150 | `replaceAll` works left to right: the leftmost occurrence of the pattern becomes the replacement, the text before it is kept, and the scan resumes right after it |
| Text.ReplaceIsSplitJoin | src/main/java/com/chairbender/mahjongeye/Identifier.java:129-150 | replacing a pattern is the same as splitting on it and joining with the replacement |
| Text.SplitJoin | src/main/java/com/chairbender/mahjongeye/Identifier.java:126 | splitting on a separator and joining the fields with it gives the input back |
| Text.ReplaceBySelf | src/main/java/com/chairbender/mahjongeye/Identifier.java:129-150 | replacing a pattern by itself changes nothing |
| Text.RemoveTrailingPattern | src/main/java/com/chairbender/mahjongeye/Identifier.java:126 | removing ".jpg" from a stem without '.' followed by ".jpg" gives the stem |
| Text.SplitFieldsFree | src/main/java/com/chairbender/mahjongeye/Identifier.java:126 | no field of a split on one character contains that character |
| Text.SplitTwoFields | src/main/java/com/chairbender/mahjongeye/Identifier.java:126-128 | `a-b` with no '-' in `a` or `b` splits into exactly `[a, b]` |
| Text.SplitNoSeparator | src/main/java/com/chairbender/mahjongeye/Identifier.java:126-128 | a string without the separator is a single field |
| Text.DropTrailingEmpty | src/main/java/com/chairbender/mahjongeye/Identifier.java:126 | `split` drops exactly the empty fields at the end: the result is a prefix not ending in an empty field, and every dropped field is empty |
| Text.JavaSplit | src/main/java/com/chairbender/mahjongeye/Identifier.java:126 | a string without the separator comes back whole as the one field; when the separator occurs the last field kept is non-empty; no field contains a one-character separator; and the fields, with the dropped empty fields put back, joined with the separator give the input |
| Text.JavaSplitFields | src/main/java/com/chairbender/mahjongeye/Identifier.java:126-128 | splitting on one character keeps a second field exactly when some separator is later followed by another character; the first two fields are then the text before the first separator and the text between it and the next |
| Text.ToLower | src/main/java/com/chairbender/mahjongeye/MainController.java:75-77 | lower-casing keeps the length, leaves no upper-case letter, and changes only upper-case letters, each to its lower-case form |
| Text.ToLowerIdempotent | src/main/java/com/chairbender/mahjongeye/MainController.java:75-77 | lower-casing twice is lower-casing once |
| Identification.ApplyRewritesAppend | src/main/java/com/chairbender/mahjongeye/Identifier.java:134-150 | a chain of `replaceAll` calls is the second part of the chain applied to the output of the first |
| Identification.NoRuleApplies | src/main/java/com/chairbender/mahjongeye/Identifier.java:129-150 | a chain none of whose patterns occurs leaves the string unchanged |
| Identification.OnlyRuleApplies | src/main/java/com/chairbender/mahjongeye/Identifier.java:134-150 | when only one rule of the chain finds anything, the chain is that one replacement |
| Identification.ReferenceFileByPosition | src/main/java/com/chairbender/mahjongeye/Identifier.java:106-108 | the loading filter keeps a name exactly when its last four characters are ".jpg" and "resized" starts at no position |
| Identification.TileName | src/main/java/com/chairbender/mahjongeye/Identifier.java:124-154 | a failed conversion names the file it was given |
| Identification.TileNameFields | src/main/java/com/chairbender/mahjongeye/Identifier.java:124-154 | the conversion fails exactly when the stem (".jpg" removed) has no second field split on "-"; otherwise the tile name is the rewritten text between the first and second "-" followed by the rewritten text before the first "-" |
| Identification.NoDashFails | src/main/java/com/chairbender/mahjongeye/Identifier.java:124-128 | a file name without '-' has no `splits[1]`, so the conversion fails |
| Identification.TileNameOfPlainFile | src/main/java/com/chairbender/mahjongeye/Identifier.java:124-154 | for `suit-value.jpg` the tile name is the rewritten value followed by the rewritten suit |
| Identification.WestValue | src/main/java/com/chairbender/mahjongeye/Identifier.java:134-150 | value "west" becomes "w" |
| Identification.WhiteValue | src/main/java/com/chairbender/mahjongeye/Identifier.java:134-150 | value "white" becomes "w" too |
| Identification.HonorSuit | src/main/java/com/chairbender/mahjongeye/Identifier.java:129-133 | suit "honor" becomes the empty string |
| Identification.WestTileName | src/main/java/com/chairbender/mahjongeye/Identifier.java:124-154 | `<suit>-west.jpg` names tile "w" plus the rewritten suit |
| Identification.WhiteTileName | src/main/java/com/chairbender/mahjongeye/Identifier.java:124-154 | `<suit>-white.jpg` names the same tile |
| Identification.WestAndWhiteCollide | src/main/java/com/chairbender/mahjongeye/Identifier.java:146-149 | the conversion is not injective: two different file names give one tile name |
| Identification.PlainFileIsReference | src/main/java/com/chairbender/mahjongeye/Identifier.java:106-108 | a `suit-value.jpg` file passes the loading filter when neither part can form "resized" |
| Identification.IndexFrom | src/main/java/com/chairbender/mahjongeye/Identifier.java:105-110 | building the map succeeds exactly when every loaded file converts and the tile names are pairwise distinct and not already taken; on success every loaded file is stored under its tile name, existing keys are kept, and every new key is the tile name of a loaded file |
| Identification.DuplicateTileNamesFail | src/main/java/com/chairbender/mahjongeye/Identifier.java:109-110 | two different loaded files with the same tile name make building the map fail |
| Identification.WestAndWhiteBreakInit | src/main/java/com/chairbender/mahjongeye/Identifier.java:105-110 | a reference directory with both `<suit>-west.jpg` and `<suit>-white.jpg` cannot be loaded |
| Identification.HonorWestAndWhite | src/main/java/com/chairbender/mahjongeye/Identifier.java:105-110 | in particular `honor-west.jpg` and `honor-white.jpg` cannot be loaded together |
| Identification.SelectBest | src/main/java/com/chairbender/mahjongeye/Identifier.java:180-205 | no result is chosen exactly when no completed task found an inlier; otherwise the choice is the earliest result with the largest count, and failed tasks are skipped |
| Identification.FirstBestUnique | src/main/java/com/chairbender/mahjongeye/Identifier.java:193-196 | the strict `>` makes the chosen result unique, and one exists only when some task found inliers |
| Identification.Identify | src/main/java/com/chairbender/mahjongeye/Identifier.java:164-211 | a meld gets a label exactly when some task for it found inliers, and the label is the name of its best reference |
| Melding.Adjacent | src/main/java/com/chairbender/mahjongeye/MainController.java:210-211 | the threshold test of the reconstructed `meldAdjacent` holds only for a positive threshold |
| Melding.AdjacentIsDistanceBelow | src/main/java/com/chairbender/mahjongeye/Box.java:100-146 | for the source's distance, the square root of the squared distance, adjacency is exactly `distance < threshold` |
| Melding.AdjacentSymmetric | src/main/java/com/chairbender/mahjongeye/Box.java:100-141 | comparing the distance with the threshold does not depend on the order of the boxes |
| Melding.AdjacentAndThreshold | src/main/java/com/chairbender/mahjongeye/Box.java:95-103 | with a positive threshold overlapping boxes (distance 0) are adjacent; with a threshold of 0 or less nothing is adjacent |
| Melding.Label | src/main/java/com/chairbender/mahjongeye/MeldResult.java:14-17 | the union pass leaves every label a representative, adjacent boxes with the same label, every box linked to its label by a chain of adjacent boxes, and `didMeld` true exactly when two boxes share a label, which is exactly when two boxes are adjacent |
| Melding.NumberClusters | src/main/java/com/chairbender/mahjongeye/MainController.java:211 | part of the reconstructed `meldAdjacent` that this line calls: clusters get the numbers 0 to count-1, all used; two boxes get the same number exactly when they have the same label; with no union box k is cluster k |
| Melding.MeldAdjacent | src/main/java/com/chairbender/mahjongeye/MainController.java:208-216 | every box is in exactly one meld and enclosed by it; each meld is the `meld` of its cluster, which is non-empty; adjacent boxes share a meld, and boxes sharing a meld are linked by adjacent boxes; `didMeld` holds exactly when some meld merged two boxes and exactly when two boxes are adjacent; with no adjacent pair the melds are the input boxes |
| Melding.GapOfTenStaysApart | src/main/java/com/chairbender/mahjongeye/Box.java:105-111 | boxes (0,0,10,10) and (20,0,10,10) are 10 apart, so at threshold 5 no two boxes are adjacent |
| Melding.GapOfOneAdjacent | src/main/java/com/chairbender/mahjongeye/Box.java:105-111 | boxes (0,0,10,10) and (11,0,10,10) are adjacent at threshold 5 |
| Melding.GapOfOneMeld | src/main/java/com/chairbender/mahjongeye/Box.java:188-195 | their meld is (0,0,21,10) |
| Melding.OverlapMelds | src/main/java/com/chairbender/mahjongeye/Box.java:100-103 | boxes (0,0,10,10) and (5,5,10,10) are at distance 0, adjacent at every positive threshold, and meld into (0,0,15,15) |
| Melding.DiagonalDistance | src/main/java/com/chairbender/mahjongeye/Box.java:120-139 | diagonal boxes (0,0,10,10) and (20,20,10,10) are at squared distance 10²+10² |
| Controller.DragOver | src/main/java/com/chairbender/mahjongeye/MainController.java:72-86 | an empty file list fails (the first file is read before `hasFiles`); otherwise the drag is accepted for copying exactly when the first name, lower-cased, ends with ".png", ".jpeg" or ".jpg" |
| Controller.EndsWithLowered | src/main/java/com/chairbender/mahjongeye/MainController.java:75-77 | lower-casing the whole name and testing the suffix equals comparing the suffix character by character ignoring case |
| Controller.AcceptedIgnoringCase | src/main/java/com/chairbender/mahjongeye/MainController.java:75-77 | a drag is accepted exactly when the first name ends, ignoring case, with one of the three extensions |
| Controller.DragOverIgnoresCase | src/main/java/com/chairbender/mahjongeye/MainController.java:75-77 | lower-casing the first name beforehand does not change the answer |
| Controller.ConvertIndexesToPoints | src/main/java/com/chairbender/mahjongeye/MainController.java:221-233 | it succeeds exactly when every index is inside the contour, giving one point per index with `contour[indexes[i]]` at position i; otherwise it fails at the first index outside |
| Controller.GatherCompose | src/main/java/com/chairbender/mahjongeye/MainController.java:221-228 | gathering twice is gathering once through the composed indexes |
| Controller.GatherEveryIndex | src/main/java/com/chairbender/mahjongeye/MainController.java:221-228 | gathering the indexes 0..n-1 gives the contour back |
| Controller.ApplyUpTo | src/main/java/com/chairbender/mahjongeye/MainController.java:271-277 | the loop applies, in list order, exactly the processors up to and including the first occurrence of the selected one, or all of them when it is absent |
| Controller.ApplyUpToSelected | src/main/java/com/chairbender/mahjongeye/MainController.java:271-277 | when the selected processor first appears at position k, exactly the first k+1 processors are applied, in list order |
| Controller.ApplyUpToUnselected | src/main/java/com/chairbender/mahjongeye/MainController.java:271-277 | when no processor is the selected one, all are applied |
| Controller.MeldStage | src/main/java/com/chairbender/mahjongeye/MainController.java:202-219 | with no saved contours nothing is drawn; otherwise every saved box lies inside a drawn rectangle, and with no adjacent pair the drawn rectangles are the boxes themselves |

## Left out

- Box.meldAdjacent is not transcribed: `Box.java` has no body for it, although MainController.java:211 calls it. `Melding.MeldAdjacent` is a reconstruction with the behaviour the `MeldResult` fields describe.
- Boxes.ShortestDistanceSquared: 32-bit `int` overflow in the gaps `Math.abs(this.startX - other.endX)` and `Math.abs(this.startY - other.endY)` (Box.java:110,117) is not modelled; the gaps are exact integers, so a pair of boxes far enough apart to overflow gets its true distance.
- Boxes.ShortestDistanceSquared: returns the square of the Java `double`. `Math.sqrt` and `Math.pow` are not modelled, and all comparisons are made on squares.
- Boxes.NewBox, Boxes.Meld and MatBoxes.FromImage: 32-bit `int` overflow in `x + width` and `endX - startX` is not modelled. Coordinates are unbounded integers.
- `Box.boundingContour` calls OpenCV's `boundingRect`, so `Controller.MeldStage` takes the bounding boxes directly.
- The image content is not modelled: the pixels `submat` shares, `getMat`, drawing the rectangles, `Utils`, and the OpenCV preprocessing stages (grayscale, threshold, contour).
- Controller.MeldStage: `Double.parseDouble` of the threshold field is not modelled (it may throw); the threshold is a parameter.
- Controller.DragOver: the `else { e.consume(); }` branch is not modelled. JavaFX's `hasFiles()` is false when the dragboard holds no file list, and then `getFiles()` returns null, so `getFiles().get(0)` has already thrown before the branch is reached. The model represents a dragboard without files as the empty list, which fails the same way.
- Controller.ApplyUpTo: a null selection, which would throw, is not modelled; the selection is a value. Processors are values compared by `==`, matching `MatProcessor`'s identity equality.
- Feature matching is not modelled: KAZE, FLANN, the ratio test, RANSAC (`findInliers`, `drawMatches`), the FLANN YAML configuration and its file write. Inlier counts are inputs to `Identification.SelectBest`.
- Identification.Identify: the thread pool and futures are not modelled. A task whose future threw is an absent (`None`) result. The result map is keyed by meld position instead of `MatBox` identity. The `relevantReferences` debug map and its "(n)" labels are not built.
- Identification.IndexFrom: walking the directory is not modelled; the walk order is the order of the input list. Reading the images (`Utils.scaledImread`) is not modelled; the map stores file names in place of images.
- Text.ReplaceAll and Text.JavaSplit model only literal patterns (no regular-expression metacharacters), which is all the source uses.
- Text.ToLower: only ASCII letters are lower-cased. Locale-dependent and non-ASCII case mapping is not modelled.
- The webcam, the JavaFX user interface, the frame grabber, `resetFeed`, `shutdown`, the drop handler, Spring configuration and the application entry point are not modelled.
