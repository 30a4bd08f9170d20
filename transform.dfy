/**
  The direct-manipulation session of the canvas
  (apps/web/src/hooks/useTransformController.ts): a drag starts a session,
  every pointer move recomputes the matrix and the bounds of the selection from
  the start of the drag, and ending or cancelling clears it. A move follows the
  pointer, corrected by the snap; a resize scales about the point opposite the
  dragged handle.
 */
module Transform {
  import opened Wrappers
  import opened Geometry
  import opened Snapping

  /** The modes modelled (`'none'`, `'move'`, `'resize'`); rotation is not. */
  datatype Mode = Idle | Move | Resize

  /** `TransformState`. */
  datatype Session = Session(mode: Mode, handle: Option<string>, startBounds: Box, startPoint: Point,
                             currentPoint: Point, constrainAspect: bool, constrainAngle: bool)

  /** What `updateTransform` returns; `NonFinite` stands for the matrix of
      infinite or NaN entries that a resize of a box with no width (or height)
      along the dragged axis produces. */
  datatype Outcome = Transformed(matrix: Matrix, bounds: Box) | NonFinite

  // ---------------------------------------------------------------------------
  // Move

  function Shifted(b: Box, dx: real, dy: real): Box {
    Box(b.x + dx, b.y + dy, b.width, b.height)
  }

  function MoveOutcome(start: Box, dx: real, dy: real, snap: SnapResult): Outcome {
    Transformed(Translate(dx + snap.dx, dy + snap.dy), Shifted(start, dx + snap.dx, dy + snap.dy))
  }

  function Corners(b: Box): (r: seq<Point>)
    ensures |r| == 4
  {
    [Point(b.x, b.y), Point(b.x + b.width, b.y),
     Point(b.x + b.width, b.y + b.height), Point(b.x, b.y + b.height)]
  }

  /** `corners.map(corner => transformPoint(corner, matrix))`. */
  function Image(ps: seq<Point>, m: Matrix): (r: seq<Point>)
    ensures |r| == |ps| && forall i :: 0 <= i < |ps| ==> r[i] == TransformPoint(ps[i], m)
  {
    seq(|ps|, i requires 0 <= i < |ps| => TransformPoint(ps[i], m))
  }

  /** A move keeps the size of the box, and its matrix carries each corner of
      the start box onto the same corner of the new one. */
  lemma MoveCarriesBox(start: Box, dx: real, dy: real, snap: SnapResult)
    ensures var o := MoveOutcome(start, dx, dy, snap);
      o.Transformed? && o.bounds.width == start.width && o.bounds.height == start.height &&
      Image(Corners(start), o.matrix) == Corners(o.bounds)
  {
    var o := MoveOutcome(start, dx, dy, snap);
    forall i | 0 <= i < 4
      ensures Image(Corners(start), o.matrix)[i] == Corners(o.bounds)[i]
    {
      TranslateMoves(Corners(start)[i], dx + snap.dx, dy + snap.dy);
    }
  }

  /** When the snap takes one of the alignments offered by a neighbour for the
      box where the pointer alone would put it, the moved box lines up with that
      neighbour. */
  lemma MoveAligns(start: Box, dx: real, dy: real, n: Box, k: nat)
    requires k < 6
    ensures var potential := Shifted(start, dx, dy);
      var a := Alignments(n, potential)[k];
      var b := MoveOutcome(start, dx, dy, SnapResult(a.dx, a.dy, Some(a.kind), Distance(a))).bounds;
      (k == 0 ==> b.x == n.x) &&
      (k == 1 ==> b.x + b.width == n.x + n.width) &&
      (k == 2 ==> b.x + b.width / 2.0 == n.x + n.width / 2.0) &&
      (k == 3 ==> b.y == n.y) &&
      (k == 4 ==> b.y + b.height == n.y + n.height) &&
      (k == 5 ==> b.y + b.height / 2.0 == n.y + n.height / 2.0) &&
      (k < 3 ==> b.y == start.y + dy) && (k >= 3 ==> b.x == start.x + dx)
  {
    AlignmentsMeet(n, Shifted(start, dx, dy));
  }

  // ---------------------------------------------------------------------------
  // Resize

  /** `(extent ± d) / extent`; `None` where the extent is zero and the division
      gives an infinity or NaN. */
  function Ratio(extent: real, delta: real): Option<real> {
    if extent == 0.0 then None else Some((extent + delta) / extent)
  }

  /** The scales a handle asks for and the point the resize keeps fixed. */
  datatype Pivot = Pivot(scaleX: Option<real>, scaleY: Option<real>, origin: Point)

  function HandlePivot(b: Box, handle: string, dx: real, dy: real): Pivot {
    var right := b.x + b.width;
    var bottom := b.y + b.height;
    var center := Point(b.x + b.width / 2.0, b.y + b.height / 2.0);
    if handle == "nw" then Pivot(Ratio(b.width, -dx), Ratio(b.height, -dy), Point(right, bottom))
    else if handle == "ne" then Pivot(Ratio(b.width, dx), Ratio(b.height, -dy), Point(b.x, bottom))
    else if handle == "se" then Pivot(Ratio(b.width, dx), Ratio(b.height, dy), Point(b.x, b.y))
    else if handle == "sw" then Pivot(Ratio(b.width, -dx), Ratio(b.height, dy), Point(right, b.y))
    else if handle == "n" then Pivot(Some(1.0), Ratio(b.height, -dy), Point(center.x, bottom))
    else if handle == "s" then Pivot(Some(1.0), Ratio(b.height, dy), Point(center.x, b.y))
    else if handle == "w" then Pivot(Ratio(b.width, -dx), Some(1.0), Point(right, center.y))
    else if handle == "e" then Pivot(Ratio(b.width, dx), Some(1.0), Point(b.x, center.y))
    else Pivot(Some(1.0), Some(1.0), center)
  }

  const Handles: seq<string> := ["nw", "ne", "se", "sw", "n", "s", "w", "e"]

  predicate IsCorner(handle: string) {
    handle in ["nw", "ne", "se", "sw"]
  }

  function Sign(s: real): real {
    if s > 0.0 then 1.0 else if s < 0.0 then -1.0 else 0.0
  }

  /** `Math.max(0.1, Math.abs(s)) * Math.sign(s)`. */
  function Floored(s: real): real {
    Max(0.1, Abs(s)) * Sign(s)
  }

  /** Both scales set to the mean of their magnitudes, each keeping its sign. */
  function Averaged(sx: real, sy: real): (real, real) {
    var avg := (Abs(sx) + Abs(sy)) / 2.0;
    (if sx < 0.0 then -avg else avg, if sy < 0.0 then -avg else avg)
  }

  /** `translate(o) · scale(sx, sy) · translate(-o)`. */
  function ResizeMatrix(o: Point, sx: real, sy: real): Matrix {
    Multiply(Multiply(Translate(o.x, o.y), Scale(sx, sy)), Translate(-o.x, -o.y))
  }

  /** Both scales as given, or averaged when the aspect is constrained. */
  function ConstrainedScales(sx: real, sy: real, constrain: bool): (real, real) {
    if constrain then Averaged(sx, sy) else (sx, sy)
  }

  /** The matrix scaling about `origin`, and the bounds of the box's corners under it. */
  function ScaledOutcome(b: Box, origin: Point, sx: real, sy: real): Outcome {
    var m := ResizeMatrix(origin, sx, sy);
    Transformed(m, Bounds(Image(Corners(b), m)))
  }

  /** The outcome for a handle's pivot: non-finite when a scale is, otherwise
      the (possibly averaged) scales, floored, about the pivot's origin. */
  function PivotOutcome(b: Box, p: Pivot, constrain: bool): Outcome {
    if p.scaleX.None? || p.scaleY.None? then NonFinite
    else
      var scales := ConstrainedScales(p.scaleX.value, p.scaleY.value, constrain);
      ScaledOutcome(b, p.origin, Floored(scales.0), Floored(scales.1))
  }

  /** The resize branch of `updateTransform`, on the session and the pointer's
      offset from the start of the drag. */
  function ResizeOutcome(s: Session, dx: real, dy: real): Outcome {
    if s.handle.None? || s.handle.value == "" then Transformed(Identity(), s.startBounds)
    else
      var handle := s.handle.value;
      PivotOutcome(s.startBounds, HandlePivot(s.startBounds, handle, dx, dy), s.constrainAspect && IsCorner(handle))
  }

  /** The handle's letters say what is fixed: a handle with `w` scales against the
      right edge, one with `e` against the left edge, one with neither keeps the
      horizontal scale 1 about the centre; `n` and `s` likewise vertically. */
  lemma HandleLetters(b: Box, handle: string, dx: real, dy: real)
    requires handle in Handles
    ensures var p := HandlePivot(b, handle, dx, dy);
      p.origin.x == (if 'w' in handle then b.x + b.width else if 'e' in handle then b.x else b.x + b.width / 2.0) &&
      p.origin.y == (if 'n' in handle then b.y + b.height else if 's' in handle then b.y else b.y + b.height / 2.0) &&
      p.scaleX == (if 'w' in handle then Ratio(b.width, -dx) else if 'e' in handle then Ratio(b.width, dx) else Some(1.0)) &&
      p.scaleY == (if 'n' in handle then Ratio(b.height, -dy) else if 's' in handle then Ratio(b.height, dy) else Some(1.0))
  {
  }

  /** Without a handle a resize leaves everything where it was. */
  lemma NoHandleKeepsBox(s: Session, dx: real, dy: real)
    requires s.handle.None? || s.handle.value == ""
    ensures ResizeOutcome(s, dx, dy) == Transformed(Identity(), s.startBounds)
  {
  }

  /** An edge handle scales one axis only: the other scale is exactly 1, the
      aspect constraint does not apply, and the result is the floored scale on
      the dragged axis. */
  lemma EdgeHandleOneAxis(s: Session, dx: real, dy: real)
    requires s.handle.Some? && s.handle.value in ["n", "s", "w", "e"]
    ensures var b := s.startBounds;
      var p := HandlePivot(b, s.handle.value, dx, dy);
      p.scaleX.Some? && p.scaleY.Some? ==>
        if s.handle.value in ["n", "s"] then
          p.scaleX == Some(1.0) && ResizeOutcome(s, dx, dy) == ScaledOutcome(b, p.origin, 1.0, Floored(p.scaleY.value))
        else
          p.scaleY == Some(1.0) && ResizeOutcome(s, dx, dy) == ScaledOutcome(b, p.origin, Floored(p.scaleX.value), 1.0)
  {
    var h := s.handle.value;
    assert !IsCorner(h);
    assert Floored(1.0) == 1.0;
  }

  /** Any other handle name asks for no scaling about the centre. */
  lemma OtherHandle(b: Box, handle: string, dx: real, dy: real)
    requires handle !in Handles
    ensures HandlePivot(b, handle, dx, dy) == Pivot(Some(1.0), Some(1.0), Point(b.x + b.width / 2.0, b.y + b.height / 2.0))
  {
  }

  /** A zero scale stays zero; any other ends with magnitude at least 0.1 and its
      own sign, unchanged when it already had that magnitude. */
  lemma FlooredFacts(s: real)
    ensures s == 0.0 ==> Floored(s) == 0.0
    ensures s != 0.0 ==> Abs(Floored(s)) >= 0.1 && (Floored(s) < 0.0 <==> s < 0.0)
    ensures Abs(s) >= 0.1 ==> Floored(s) == s
    ensures 0.0 < Abs(s) < 0.1 ==> Abs(Floored(s)) == 0.1
  {
  }

  lemma AveragedFacts(sx: real, sy: real)
    ensures var r := Averaged(sx, sy);
      Abs(r.0) == (Abs(sx) + Abs(sy)) / 2.0 && Abs(r.1) == Abs(r.0) &&
      (r.0 < 0.0 <==> sx < 0.0) && (r.1 < 0.0 <==> sy < 0.0)
  {
  }

  lemma ResizeMatrixForm(o: Point, sx: real, sy: real)
    ensures ResizeMatrix(o, sx, sy) == Matrix(sx, 0.0, 0.0, sy, o.x - sx * o.x, o.y - sy * o.y)
  {
    assert Multiply(Translate(o.x, o.y), Scale(sx, sy)) == Matrix(sx, 0.0, 0.0, sy, o.x, o.y);
  }

  /** The resize matrix scales every point about the origin, which it therefore
      leaves where it is. */
  lemma ResizeMaps(o: Point, sx: real, sy: real, q: Point)
    ensures TransformPoint(q, ResizeMatrix(o, sx, sy)) == Point(o.x + sx * (q.x - o.x), o.y + sy * (q.y - o.y))
    ensures TransformPoint(o, ResizeMatrix(o, sx, sy)) == o
  {
    ResizeMatrixForm(o, sx, sy);
    assert sx * q.x + 0.0 * q.y + (o.x - sx * o.x) == o.x + sx * (q.x - o.x);
    assert 0.0 * q.x + sy * q.y + (o.y - sy * o.y) == o.y + sy * (q.y - o.y);
  }

  /** The corners of a box under the resize matrix. */
  lemma CornerImages(b: Box, o: Point, sx: real, sy: real)
    ensures var x0, x1 := o.x + sx * (b.x - o.x), o.x + sx * (b.x + b.width - o.x);
      var y0, y1 := o.y + sy * (b.y - o.y), o.y + sy * (b.y + b.height - o.y);
      Image(Corners(b), ResizeMatrix(o, sx, sy)) == [Point(x0, y0), Point(x1, y0), Point(x1, y1), Point(x0, y1)]
  {
    var m := ResizeMatrix(o, sx, sy);
    var c0, c1 := Point(b.x, b.y), Point(b.x + b.width, b.y);
    var c2, c3 := Point(b.x + b.width, b.y + b.height), Point(b.x, b.y + b.height);
    assert Corners(b) == [c0, c1, c2, c3];
    ResizeMaps(o, sx, sy, c0);
    ResizeMaps(o, sx, sy, c1);
    ResizeMaps(o, sx, sy, c2);
    ResizeMaps(o, sx, sy, c3);
    var ps := Image(Corners(b), m);
    assert ps[0] == TransformPoint(c0, m) && ps[1] == TransformPoint(c1, m);
    assert ps[2] == TransformPoint(c2, m) && ps[3] == TransformPoint(c3, m);
    var x0, x1 := o.x + sx * (b.x - o.x), o.x + sx * (b.x + b.width - o.x);
    var y0, y1 := o.y + sy * (b.y - o.y), o.y + sy * (b.y + b.height - o.y);
    assert ps[0] == Point(x0, y0);
    assert ps[1] == Point(x1, y0);
    assert ps[2] == Point(x1, y1);
    assert ps[3] == Point(x0, y1);
    assert ps == [Point(x0, y0), Point(x1, y0), Point(x1, y1), Point(x0, y1)];
  }

  /** With positive scales, the new bounds are the start box scaled about the
      origin: each edge keeps its side of the origin and each extent is
      multiplied by its scale. */
  lemma ScaledBox(b: Box, o: Point, sx: real, sy: real)
    requires sx > 0.0 && sy > 0.0 && b.width >= 0.0 && b.height >= 0.0
    ensures ScaledOutcome(b, o, sx, sy)
         == Transformed(ResizeMatrix(o, sx, sy),
                        Box(o.x + sx * (b.x - o.x), o.y + sy * (b.y - o.y), sx * b.width, sy * b.height))
  {
    var x0, x1 := o.x + sx * (b.x - o.x), o.x + sx * (b.x + b.width - o.x);
    var y0, y1 := o.y + sy * (b.y - o.y), o.y + sy * (b.y + b.height - o.y);
    CornerImages(b, o, sx, sy);
    var ps := [Point(x0, y0), Point(x1, y0), Point(x1, y1), Point(x0, y1)];
    assert x1 == x0 + sx * b.width && sx * b.width >= 0.0;
    assert y1 == y0 + sy * b.height && sy * b.height >= 0.0;
    assert Xs(ps) == [x0, x1, x1, x0];
    assert Ys(ps) == [y0, y0, y1, y1];
    ExtremesOfFour(x0, x1, x1, x0);
    ExtremesOfFour(y0, y0, y1, y1);
  }

  /** The aspect constraint in the program's own example: `se` on a 100×100 box
      dragged by (50, 20) asks for scales 1.5 and 1.2 about the top-left corner,
      and the constraint makes both 1.35, which the floor keeps. */
  lemma AspectExample()
    ensures HandlePivot(Box(0.0, 0.0, 100.0, 100.0), "se", 50.0, 20.0) == Pivot(Some(1.5), Some(1.2), Point(0.0, 0.0))
    ensures IsCorner("se") && ConstrainedScales(1.5, 1.2, true) == (1.35, 1.35)
    ensures Floored(1.35) == 1.35
  {
  }

  // ---------------------------------------------------------------------------
  // The session

  /** The session after a pointer move: the constrain flags stick once set. */
  function Advanced(s: Session, p: Point, constrainAspect: bool, constrainAngle: bool): Session {
    s.(currentPoint := p, constrainAspect := constrainAspect || s.constrainAspect,
       constrainAngle := constrainAngle || s.constrainAngle)
  }

  function PotentialBounds(s: Session): Box {
    Shifted(s.startBounds, s.currentPoint.x - s.startPoint.x, s.currentPoint.y - s.startPoint.y)
  }

  /** The outcome of a session at its current point, given the snap found for a move. */
  function OutcomeOf(s: Session, snap: SnapResult): Outcome {
    var dx := s.currentPoint.x - s.startPoint.x;
    var dy := s.currentPoint.y - s.startPoint.y;
    match s.mode
    case Idle => Transformed(Identity(), s.startBounds)
    case Move => MoveOutcome(s.startBounds, dx, dy, snap)
    case Resize => ResizeOutcome(s, dx, dy)
  }

  /** The outcome of a resize session at its current point. */
  function ResizeAt(s: Session): Outcome {
    ResizeOutcome(s, s.currentPoint.x - s.startPoint.x, s.currentPoint.y - s.startPoint.y)
  }

  lemma OutcomeByMode(s: Session, snap: SnapResult)
    ensures var dx, dy := s.currentPoint.x - s.startPoint.x, s.currentPoint.y - s.startPoint.y;
      (s.mode == Idle ==> OutcomeOf(s, snap) == Transformed(Identity(), s.startBounds)) &&
      (s.mode == Move ==> OutcomeOf(s, snap) == MoveOutcome(s.startBounds, dx, dy, snap)) &&
      (s.mode == Resize ==> OutcomeOf(s, snap) == ResizeAt(s) == ResizeOutcome(s, dx, dy))
  {
  }

  class TransformController {
    var session: Option<Session>
    var snapResult: SnapResult
    const snapper: SnapSystem

    constructor(snapper: SnapSystem)
      ensures session == None && snapResult == NoSnap && this.snapper == snapper
    {
      session := None;
      snapResult := NoSnap;
      this.snapper := snapper;
    }

    predicate IsTransforming()
      reads this
    {
      session.Some?
    }

    method Start(mode: Mode, handle: Option<string>, startPoint: Point, bounds: Box,
                 constrainAspect: bool, constrainAngle: bool)
      modifies this
      ensures session == Some(Session(mode, handle, bounds, startPoint, startPoint, constrainAspect, constrainAngle))
      ensures snapResult == old(snapResult)
    {
      session := Some(Session(mode, handle, bounds, startPoint, startPoint, constrainAspect, constrainAngle));
    }

    /** `updateTransform`: nothing without a session; otherwise the session moves
        to the new point and the outcome is recomputed from the start of the drag.
        Only a move consults the snap system, and it keeps what it found. */
    method Update(currentPoint: Point, selectedIds: seq<string>, constrainAspect: bool, constrainAngle: bool)
      returns (r: Option<Outcome>)
      modifies this
      ensures old(session).None? ==> r.None? && session == old(session) && snapResult == old(snapResult)
      ensures old(session).Some? ==>
        session == Some(Advanced(old(session).value, currentPoint, constrainAspect, constrainAngle)) &&
        r == Some(OutcomeOf(session.value, snapResult)) &&
        snapResult == (if session.value.mode == Move
                       then ResultOf(Chosen(AllAlignments(Neighbors(snapper.candidates, selectedIds),
                                                          PotentialBounds(session.value)), snapper.threshold))
                       else old(snapResult))
    {
      if session.None? {
        return None;
      }
      var s := Advanced(session.value, currentPoint, constrainAspect, constrainAngle);
      session := Some(s);
      var dx := s.currentPoint.x - s.startPoint.x;
      var dy := s.currentPoint.y - s.startPoint.y;
      match s.mode
      case Idle =>
        r := Some(Transformed(Identity(), s.startBounds));
      case Move =>
        var potential := Shifted(s.startBounds, dx, dy);
        assert potential == PotentialBounds(s);
        var snap := snapper.Snap(potential, selectedIds);
        snapResult := snap;
        var finalDx := dx + snap.dx;
        var finalDy := dy + snap.dy;
        r := Some(Transformed(Translate(finalDx, finalDy), Shifted(s.startBounds, finalDx, finalDy)));
        OutcomeByMode(s, snap);
      case Resize =>
        OutcomeByMode(s, snapResult);
        var o := ResizeStep(s, dx, dy);
        r := Some(o);
    }

    /** `endTransform`: the final outcome, at the last point, handed on to the
        caller; the session and the snap are then cleared. */
    method End(selectedIds: seq<string>) returns (r: Option<Outcome>)
      modifies this
      ensures old(session).None? ==> r.None? && session == old(session) && snapResult == old(snapResult)
      ensures old(session).Some? ==>
        r.Some? && session == None && snapResult == NoSnap &&
        (old(session).value.mode == Move ==>
           r.value == OutcomeOf(old(session).value,
                                ResultOf(Chosen(AllAlignments(Neighbors(snapper.candidates, selectedIds),
                                                              PotentialBounds(old(session).value)),
                                                snapper.threshold)))) &&
        (old(session).value.mode == Resize ==> r.value == ResizeAt(old(session).value)) &&
        (old(session).value.mode == Idle ==> r.value == Transformed(Identity(), old(session).value.startBounds))
    {
      if session.None? {
        return None;
      }
      var s := session.value;
      assert Advanced(s, s.currentPoint, false, false) == s;
      r := Update(s.currentPoint, selectedIds, false, false);
      OutcomeByMode(s, snapResult);
      session := None;
      snapResult := NoSnap;
    }

    method Cancel()
      modifies this
      ensures session == None && snapResult == NoSnap
    {
      session := None;
      snapResult := NoSnap;
    }
  }

  /** The resize branch as the program runs it: the handle's scales and origin,
      then the aspect constraint and the floor, then the matrix and the bounds of
      the moved corners. */
  method ResizeStep(s: Session, dx: real, dy: real) returns (o: Outcome)
    ensures o == ResizeOutcome(s, dx, dy)
  {
    if s.handle.None? || s.handle.value == "" {
      return Transformed(Identity(), s.startBounds);
    }
    var handle := s.handle.value;
    var b := s.startBounds;
    var finite, scaleX, scaleY, originX, originY := HandleScales(b, handle, dx, dy);
    if !finite {
      return NonFinite;
    }
    ghost var pivot := Pivot(Some(scaleX), Some(scaleY), Point(originX, originY));
    ghost var constrain := s.constrainAspect && IsCorner(handle);
    ghost var scales := ConstrainedScales(scaleX, scaleY, constrain);
    if s.constrainAspect && handle in ["nw", "ne", "se", "sw"] {
      var avgScale := (Abs(scaleX) + Abs(scaleY)) / 2.0;
      scaleX := if scaleX < 0.0 then -avgScale else avgScale;
      scaleY := if scaleY < 0.0 then -avgScale else avgScale;
    }
    assert (scaleX, scaleY) == scales;
    scaleX := Floored(scaleX);
    scaleY := Floored(scaleY);
    o := ScaleAbout(b, originX, originY, scaleX, scaleY);
    assert o == PivotOutcome(b, pivot, constrain);
  }

  /** The `switch` on the handle; `finite` is false where it would divide by a
      zero extent. */
  method HandleScales(b: Box, handle: string, dx: real, dy: real)
    returns (finite: bool, scaleX: real, scaleY: real, originX: real, originY: real)
    ensures var p := HandlePivot(b, handle, dx, dy);
      (finite <==> p.scaleX.Some? && p.scaleY.Some?) &&
      (finite ==> p == Pivot(Some(scaleX), Some(scaleY), Point(originX, originY)))
  {
    scaleX, scaleY := 1.0, 1.0;
    originX := b.x + b.width / 2.0;
    originY := b.y + b.height / 2.0;
    var usesX := handle in ["nw", "ne", "se", "sw", "w", "e"];
    var usesY := handle in ["nw", "ne", "se", "sw", "n", "s"];
    finite := !(usesX && b.width == 0.0) && !(usesY && b.height == 0.0);
    if !finite {
      return;
    }
    if handle == "nw" {
      scaleX := (b.width - dx) / b.width;
      scaleY := (b.height - dy) / b.height;
      originX := b.x + b.width;
      originY := b.y + b.height;
    } else if handle == "ne" {
      scaleX := (b.width + dx) / b.width;
      scaleY := (b.height - dy) / b.height;
      originX := b.x;
      originY := b.y + b.height;
    } else if handle == "se" {
      scaleX := (b.width + dx) / b.width;
      scaleY := (b.height + dy) / b.height;
      originX := b.x;
      originY := b.y;
    } else if handle == "sw" {
      scaleX := (b.width - dx) / b.width;
      scaleY := (b.height + dy) / b.height;
      originX := b.x + b.width;
      originY := b.y;
    } else if handle == "n" {
      scaleY := (b.height - dy) / b.height;
      originY := b.y + b.height;
    } else if handle == "s" {
      scaleY := (b.height + dy) / b.height;
      originY := b.y;
    } else if handle == "w" {
      scaleX := (b.width - dx) / b.width;
      originX := b.x + b.width;
    } else if handle == "e" {
      scaleX := (b.width + dx) / b.width;
      originX := b.x;
    }
  }

  /** `translateBack · scale · translateToOrigin`, and `getBounds` of the four
      corners it moves. */
  method ScaleAbout(b: Box, originX: real, originY: real, scaleX: real, scaleY: real) returns (o: Outcome)
    ensures o == ScaledOutcome(b, Point(originX, originY), scaleX, scaleY)
  {
    var translateToOrigin := Translate(-originX, -originY);
    var scale := Scale(scaleX, scaleY);
    var translateBack := Translate(originX, originY);
    var matrix := Multiply(Multiply(translateBack, scale), translateToOrigin);
    var corners := [Point(b.x, b.y), Point(b.x + b.width, b.y),
                    Point(b.x + b.width, b.y + b.height), Point(b.x, b.y + b.height)];
    var transformed := [TransformPoint(corners[0], matrix), TransformPoint(corners[1], matrix),
                        TransformPoint(corners[2], matrix), TransformPoint(corners[3], matrix)];
    assert transformed == Image(Corners(b), matrix);
    var newBounds := GetBounds(transformed);
    o := Transformed(matrix, newBounds);
  }
}
