/**
  Bounding boxes of detected people and the pure helpers of the frame
  processing module that work on them: the ground-contact point of a box,
  the person-class filter and the flag-to-colour mapping.
 */
module Boxes {

  /** A detector bounding box in image pixels: top-left corner, width, height. */
  datatype Box = Box(x: int, y: int, w: int, h: int)

  /** An integer image point, as produced from a box. */
  datatype Pixel = Pixel(x: int, y: int)

  /** An OpenCV colour triple, in blue-green-red channel order. */
  datatype Color = Color(b: int, g: int, r: int)

  /** The detector class id that stands for "person". */
  const PersonClass: int := 0

  /**
    The ground-contact point of a box: the middle of its bottom edge.
    The x offset is `w // 2` with floor division; Dafny's `/` with the
    positive divisor 2 rounds the same way, negative widths included.
   */
  function BoxCenterBottom(box: Box): (p: Pixel)
    ensures p.y == box.y + box.h
    ensures 2 * (p.x - box.x) <= box.w < 2 * (p.x - box.x) + 2
    ensures box.w >= 0 ==> box.x <= p.x <= box.x + box.w
  {
    Pixel(box.x + box.w / 2, box.y + box.h)
  }

  /** The second copy of the same computation, used by the polygon filter and bb_points. */
  function BbPoint(box: Box): (p: Pixel)
    ensures p == BoxCenterBottom(box)
  {
    Pixel(box.x + box.w / 2, box.y + box.h)
  }

  /** The ground-contact points of a list of boxes. */
  function BbPoints(boxes: seq<Box>): (ps: seq<Pixel>)
    ensures |ps| == |boxes|
    ensures forall k :: 0 <= k < |boxes| ==> ps[k] == BoxCenterBottom(boxes[k])
  {
    if boxes == [] then [] else [BbPoint(boxes[0])] + BbPoints(boxes[1..])
  }

  /** Safe detections are drawn green, unsafe ones red; the flag indexes a pair of colours. */
  function SafeFlagToColor(isSafe: bool): (c: Color)
    ensures c.b == 0
    ensures isSafe ==> c == Color(0, 230, 0)
    ensures !isSafe ==> c == Color(0, 0, 230)
  {
    [Color(0, 0, 230), Color(0, 230, 0)][if isSafe then 1 else 0]
  }

  function Min(a: nat, b: nat): (m: nat) {
    if a <= b then a else b
  }

  /**
    The indices k < n, in increasing order, whose class id is the person class.
    This is the reference the filter is stated against.
   */
  ghost function PersonIndices(classIds: seq<int>, n: nat): (idx: seq<nat>)
    requires n <= |classIds|
    ensures forall t :: 0 <= t < |idx| ==> idx[t] < n && classIds[idx[t]] == PersonClass
    ensures forall s, t :: 0 <= s < t < |idx| ==> idx[s] < idx[t]
    ensures forall k :: 0 <= k < n && classIds[k] == PersonClass ==> k in idx
  {
    if n == 0 then []
    else PersonIndices(classIds, n - 1) + (if classIds[n - 1] == PersonClass then [n - 1] else [])
  }

  /** The boxes among the first n zipped entries whose class id is the person class. */
  function PersonBoxes(classIds: seq<int>, boxes: seq<Box>, n: nat): (r: seq<Box>)
    requires n <= |classIds| && n <= |boxes|
    ensures |r| == |PersonIndices(classIds, n)|
    ensures forall t :: 0 <= t < |r| ==> r[t] == boxes[PersonIndices(classIds, n)[t]]
  {
    if n == 0 then []
    else PersonBoxes(classIds, boxes, n - 1) + (if classIds[n - 1] == PersonClass then [boxes[n - 1]] else [])
  }

  /**
    Keeps, in their original order, the boxes whose class id (paired by
    position, as zip does) is the person class; entries past the end of the
    shorter list are dropped.
   */
  function FilterExceptPerson(classIds: seq<int>, boxes: seq<Box>): (r: seq<Box>)
    ensures var idx := PersonIndices(classIds, Min(|classIds|, |boxes|));
      |r| == |idx| && forall t :: 0 <= t < |r| ==> r[t] == boxes[idx[t]]
  {
    PersonBoxes(classIds, boxes, Min(|classIds|, |boxes|))
  }
}
