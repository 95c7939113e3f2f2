/** The pure parts of `MainController.java`: the drag-over file check, the
    gathering of hull points by index, the "apply the processors up to the
    selected one" chain, and the meld stage's guard. Images, the webcam and
    the JavaFX scene are not modelled. */
module Controller {
  import opened Wrappers
  import opened Text
  import opened Boxes
  import opened Melding

  // ---------------------------------------------------------------------
  // Drag-over
  // ---------------------------------------------------------------------

  /** What the drag-over handler does: offer to copy the dragged file, or
      leave the gesture alone. */
  datatype DragResponse = AcceptCopy | Ignore

  /** The handler reads the first file's name before checking that there are
      any files, so an empty list raises an index error. */
  datatype DragError = NoFirstFile

  /** The file extensions accepted, compared after lower-casing the name. */
  const ImageExtensions: seq<string> := [".png", ".jpeg", ".jpg"]

  predicate IsImageName(name: string) {
    exists e :: e in ImageExtensions && EndsWith(ToLower(name), e)
  }

  /** The drag-over handler. Only the first file is looked at; it is
      accepted for copying exactly when its lower-cased name ends with one
      of the image extensions, and an empty file list is an error. */
  function DragOver(fileNames: seq<string>): (r: Result<DragResponse, DragError>)
    ensures r.Failure? <==> |fileNames| == 0
    ensures r.Success? ==> (r.value == AcceptCopy <==> IsImageName(fileNames[0]))
  {
    if |fileNames| == 0 then Failure(NoFirstFile)
    else if EndsWith(ToLower(fileNames[0]), ".png")
         || EndsWith(ToLower(fileNames[0]), ".jpeg")
         || EndsWith(ToLower(fileNames[0]), ".jpg") then
      Success(AcceptCopy)
    else
      Success(Ignore)
  }

  /** `name` ends with `ext` when upper-case letters of `name` are read as
      lower-case ones. */
  predicate EndsWithIgnoringCase(name: string, ext: string) {
    |ext| <= |name| && forall i :: 0 <= i < |ext| ==> LowerChar(name[|name| - |ext| + i]) == ext[i]
  }

  /** Lower-casing the whole name and testing the suffix is the same as
      testing the suffix one character at a time, ignoring case. */
  lemma EndsWithLowered(name: string, ext: string)
    ensures EndsWith(ToLower(name), ext) <==> EndsWithIgnoringCase(name, ext)
  {
    var low := ToLower(name);
    if |ext| <= |name| {
      var start := |name| - |ext|;
      assert forall i :: 0 <= i < |ext| ==> low[start..][i] == low[start + i] == LowerChar(name[start + i]);
      if EndsWith(low, ext) {
        forall i | 0 <= i < |ext| ensures LowerChar(name[start + i]) == ext[i] {
          assert low[start..][i] == ext[i];
        }
      }
    }
  }

  /** A file is accepted exactly when its name ends, ignoring case, with one
      of the image extensions: "TILE.JPG" is accepted, "tile.gif" is not. */
  lemma AcceptedIgnoringCase(fileNames: seq<string>)
    requires |fileNames| > 0
    ensures DragOver(fileNames) == Success(AcceptCopy) <==>
      exists e :: e in ImageExtensions && EndsWithIgnoringCase(fileNames[0], e)
  {
    forall e | e in ImageExtensions {
      EndsWithLowered(fileNames[0], e);
    }
  }

  /** Upper-casing or lower-casing letters of the first name does not change
      the answer. */
  lemma DragOverIgnoresCase(name: string, others: seq<string>)
    ensures DragOver([ToLower(name)] + others) == DragOver([name] + others)
  {
    ToLowerIdempotent(name);
  }

  // ---------------------------------------------------------------------
  // Hull points by index
  // ---------------------------------------------------------------------

  /** An index into the contour that is negative or past its end; `position`
      is where it sits in the index list. */
  datatype GatherError = IndexOutOfBounds(position: nat, index: int)

  /** `convertIndexesToPoints`: the contour's points at the given indexes, in
      the order of the indexes, one point per index. The first index outside
      the contour makes it fail (Java raises an index error there). */
  function ConvertIndexesToPoints(contour: seq<Point>, indexes: seq<int>): (r: Result<seq<Point>, GatherError>)
    ensures r.Success? <==> forall i :: 0 <= i < |indexes| ==> 0 <= indexes[i] < |contour|
    ensures r.Success? ==> |r.value| == |indexes|
    ensures r.Success? ==> forall i :: 0 <= i < |indexes| ==> r.value[i] == contour[indexes[i]]
    ensures r.Failure? ==>
      && r.error.position < |indexes|
      && r.error.index == indexes[r.error.position]
      && !(0 <= r.error.index < |contour|)
      && forall i :: 0 <= i < r.error.position ==> 0 <= indexes[i] < |contour|
    decreases |indexes|
  {
    if |indexes| == 0 then
      Success([])
    else if !(0 <= indexes[0] < |contour|) then
      Failure(IndexOutOfBounds(0, indexes[0]))
    else
      match ConvertIndexesToPoints(contour, indexes[1..]) {
        case Success(rest) => Success([contour[indexes[0]]] + rest)
        case Failure(e) => Failure(IndexOutOfBounds(e.position + 1, e.index))
      }
  }

  /** The index list that picks `outer[inner[j]]` at position `j`. */
  function ComposeIndexes(outer: seq<int>, inner: seq<int>): (c: seq<int>)
    requires forall j :: 0 <= j < |inner| ==> 0 <= inner[j] < |outer|
    ensures |c| == |inner| && forall j :: 0 <= j < |inner| ==> c[j] == outer[inner[j]]
  {
    seq(|inner|, j requires 0 <= j < |inner| => outer[inner[j]])
  }

  /** Gathering twice is gathering once through the composed indexes. */
  lemma GatherCompose(contour: seq<Point>, outer: seq<int>, inner: seq<int>)
    requires ConvertIndexesToPoints(contour, outer).Success?
    requires forall j :: 0 <= j < |inner| ==> 0 <= inner[j] < |outer|
    ensures ConvertIndexesToPoints(ConvertIndexesToPoints(contour, outer).value, inner) ==
      ConvertIndexesToPoints(contour, ComposeIndexes(outer, inner))
  {
    var points := ConvertIndexesToPoints(contour, outer).value;
    var composed := ComposeIndexes(outer, inner);
    var lhs := ConvertIndexesToPoints(points, inner);
    var rhs := ConvertIndexesToPoints(contour, composed);
    assert forall j :: 0 <= j < |inner| ==> 0 <= composed[j] < |contour|;
    assert lhs.value == rhs.value;
  }

  /** Gathering every index in order gives the contour back. */
  lemma GatherEveryIndex(contour: seq<Point>)
    ensures ConvertIndexesToPoints(contour, seq(|contour|, i requires 0 <= i < |contour| => i)) == Success(contour)
  {
    var all := seq(|contour|, i requires 0 <= i < |contour| => i);
    assert forall i :: 0 <= i < |all| ==> 0 <= all[i] < |contour|;
    assert ConvertIndexesToPoints(contour, all).value == contour;
  }

  // ---------------------------------------------------------------------
  // The processor chain
  // ---------------------------------------------------------------------

  /** Apply every processor in list order. */
  function ApplyAll<P, M>(processors: seq<P>, apply: (P, M) -> M, image: M): M
    decreases |processors|
  {
    if |processors| == 0 then image else ApplyAll(processors[1..], apply, apply(processors[0], image))
  }

  /** How many processors `updateImage` runs: up to and including the first
      occurrence of the selected one, or all of them when it is absent. */
  function StopAfter<P(==)>(processors: seq<P>, selected: P): (n: nat)
    ensures n <= |processors|
    ensures selected !in processors ==> n == |processors|
    ensures selected in processors ==>
      0 < n && processors[n - 1] == selected && selected !in processors[..n - 1]
    decreases |processors|
  {
    if |processors| == 0 then 0
    else if processors[0] == selected then 1
    else 1 + StopAfter(processors[1..], selected)
  }

  /** `updateImage`'s loop: apply the processors in list order and stop right
      after the selected one. Processors are compared by identity, as
      `MatProcessor` does not override `equals`. The result is the plain
      in-order chain of the processors up to the first occurrence of the
      selected one, or of all of them when it is absent. */
  function ApplyUpTo<P(==), M>(processors: seq<P>, selected: P, apply: (P, M) -> M, image: M): (r: M)
    ensures r == ApplyAll(processors[..StopAfter(processors, selected)], apply, image)
    decreases |processors|
  {
    if |processors| == 0 then
      image
    else
      var next := apply(processors[0], image);
      if processors[0] == selected then
        assert processors[..1][1..] == [];
        next
      else
        var rest := ApplyUpTo(processors[1..], selected, apply, next);
        assert processors[..StopAfter(processors, selected)][1..]
            == processors[1..][..StopAfter(processors[1..], selected)];
        rest
  }

  /** When the selected processor first appears at position `k`, the chain
      is exactly the first `k + 1` processors. */
  lemma {:induction false} ApplyUpToSelected<P, M>(processors: seq<P>, selected: P, apply: (P, M) -> M, image: M, k: nat)
    requires k < |processors| && processors[k] == selected && selected !in processors[..k]
    ensures ApplyUpTo(processors, selected, apply, image) == ApplyAll(processors[..k + 1], apply, image)
    decreases k
  {
    var prefix := processors[..k + 1];
    assert prefix[0] == processors[0];
    if k == 0 {
      assert prefix[1..] == [];
    } else {
      assert processors[0] in processors[..k];
      assert processors[1..][..k - 1] == processors[..k][1..];
      assert prefix[1..] == processors[1..][..k];
      ApplyUpToSelected(processors[1..], selected, apply, apply(processors[0], image), k - 1);
    }
  }

  /** When no processor is the selected one, all of them are applied. */
  lemma {:induction false} ApplyUpToUnselected<P, M>(processors: seq<P>, selected: P, apply: (P, M) -> M, image: M)
    requires selected !in processors
    ensures ApplyUpTo(processors, selected, apply, image) == ApplyAll(processors, apply, image)
    decreases |processors|
  {
    if |processors| > 0 {
      assert processors[0] != selected;
      assert selected !in processors[1..];
      ApplyUpToUnselected(processors[1..], selected, apply, apply(processors[0], image));
    }
  }

  // ---------------------------------------------------------------------
  // The meld stage
  // ---------------------------------------------------------------------

  /** The meld stage, as the rectangles it draws on the image. Before any
      contours have been saved it draws nothing and returns the image
      unchanged; otherwise it draws one rectangle per meld of the saved
      contours' bounding boxes. Every saved box lies inside a drawn
      rectangle, and when no two boxes are adjacent the drawn rectangles are
      the boxes themselves. */
  method MeldStage(savedBoxes: Option<seq<Box>>, threshold: real) returns (drawn: seq<Box>)
    requires savedBoxes.Some? ==> AllValid(savedBoxes.value)
    ensures savedBoxes.None? ==> drawn == []
    ensures savedBoxes.Some? ==> forall k :: 0 <= k < |savedBoxes.value| ==> DrawnAround(drawn, savedBoxes.value[k])
    ensures savedBoxes.Some? && !SomeAdjacent(savedBoxes.value, threshold) ==> drawn == savedBoxes.value
  {
    if savedBoxes.None? {
      return [];
    }
    var result, cluster := MeldAdjacent(savedBoxes.value, threshold);
    drawn := result.melds;
    EveryBoxDrawn(savedBoxes.value, cluster, drawn);
  }

  /** Some drawn rectangle encloses `b`. */
  predicate DrawnAround(drawn: seq<Box>, b: Box) {
    exists m :: 0 <= m < |drawn| && Encloses(drawn[m], b)
  }

  /** A box is inside a drawn rectangle when it is inside the meld its
      cluster number points at. */
  lemma EveryBoxDrawn(boxes: seq<Box>, cluster: seq<nat>, drawn: seq<Box>)
    requires |cluster| == |boxes|
    requires forall k :: 0 <= k < |boxes| ==> cluster[k] < |drawn| && Encloses(drawn[cluster[k]], boxes[k])
    ensures forall k :: 0 <= k < |boxes| ==> DrawnAround(drawn, boxes[k])
  {
    forall k | 0 <= k < |boxes| ensures DrawnAround(drawn, boxes[k]) {
      var m := cluster[k];
      assert 0 <= m < |drawn| && Encloses(drawn[m], boxes[k]);
    }
  }
}
