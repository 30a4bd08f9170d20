/**
  Snapping of a dragged box to its neighbours (apps/web/src/utils/snap.ts).
  Every neighbour offers six alignments (near edge, far edge and centre on each
  axis); the snap is the nearest one within a threshold that shrinks as the
  canvas zooms in, the first in scan order on a tie.
 */
module Snapping {
  import opened Wrappers
  import opened Geometry

  datatype SnapKind = EdgeX | CenterX | EdgeY | CenterY

  /** The kind's name in the program, which the guides test for an `x` or a `y`. */
  function KindName(k: SnapKind): string {
    match k
    case EdgeX => "edge-x"
    case CenterX => "center-x"
    case EdgeY => "edge-y"
    case CenterY => "center-y"
  }

  predicate IsXKind(k: SnapKind) {
    k == EdgeX || k == CenterX
  }

  /** A kind's name names exactly one axis. */
  lemma KindNameAxis(k: SnapKind)
    ensures 'x' in KindName(k) <==> IsXKind(k)
    ensures 'y' in KindName(k) <==> !IsXKind(k)
  {
    match k
    case EdgeX => assert KindName(k)[5] == 'x';
    case CenterX => assert KindName(k)[7] == 'x';
    case EdgeY => assert KindName(k)[5] == 'y';
    case CenterY => assert KindName(k)[7] == 'y';
  }

  /** `SnapResult`; `kind == None` is the program's `null`, no snap. */
  datatype SnapResult = SnapResult(dx: real, dy: real, kind: Option<SnapKind>, distance: real)

  const NoSnap := SnapResult(0.0, 0.0, None, 0.0)

  datatype Candidate = Candidate(id: string, bounds: Box)

  datatype Alignment = Alignment(kind: SnapKind, dx: real, dy: real)

  /** `6 / zoom`; a zoom of 0 makes it infinite, so that everything is near enough. */
  datatype Threshold = Limit(value: real) | Unlimited

  function ThresholdFor(zoom: real): Threshold {
    if zoom == 0.0 then Unlimited else Limit(6.0 / zoom)
  }

  function Abs(x: real): real {
    if x < 0.0 then -x else x
  }

  /** `Math.abs(snap.dx + snap.dy)`. */
  function Distance(a: Alignment): real {
    Abs(a.dx + a.dy)
  }

  predicate Within(a: Alignment, t: Threshold) {
    t.Unlimited? || Distance(a) <= t.value
  }

  /** The candidates whose id is not excluded, in their order. */
  function Neighbors(candidates: seq<Candidate>, excludeIds: seq<string>): seq<Candidate> {
    if candidates == [] then []
    else
      var last := candidates[|candidates| - 1];
      Neighbors(candidates[..|candidates| - 1], excludeIds) + (if last.id in excludeIds then [] else [last])
  }

  /** The neighbours are exactly the candidates that are not excluded. */
  lemma {:induction false} NeighborsMembers(candidates: seq<Candidate>, excludeIds: seq<string>)
    ensures forall c :: c in Neighbors(candidates, excludeIds) <==> c in candidates && c.id !in excludeIds
  {
    if candidates != [] {
      var init := candidates[..|candidates| - 1];
      NeighborsMembers(init, excludeIds);
      assert candidates == init + [candidates[|candidates| - 1]];
    }
  }

  /** The six alignments of `bounds` against one neighbour, in scan order. */
  function Alignments(n: Box, b: Box): (r: seq<Alignment>)
    ensures |r| == 6
  {
    [Alignment(EdgeX, n.x - b.x, 0.0),
     Alignment(EdgeX, (n.x + n.width) - (b.x + b.width), 0.0),
     Alignment(CenterX, (n.x + n.width / 2.0) - (b.x + b.width / 2.0), 0.0),
     Alignment(EdgeY, 0.0, n.y - b.y),
     Alignment(EdgeY, 0.0, (n.y + n.height) - (b.y + b.height)),
     Alignment(CenterY, 0.0, (n.y + n.height / 2.0) - (b.y + b.height / 2.0))]
  }

  /** Every alignment of every neighbour, neighbour by neighbour. */
  function AllAlignments(ns: seq<Candidate>, b: Box): (r: seq<Alignment>)
    ensures |r| == 6 * |ns|
  {
    if ns == [] then []
    else AllAlignments(ns[..|ns| - 1], b) + Alignments(ns[|ns| - 1].bounds, b)
  }

  /** The index the scan settles on: it takes an alignment within the threshold
      only when it is strictly nearer than the best so far. */
  function Choose(als: seq<Alignment>, t: Threshold): (r: Option<nat>)
    ensures r.Some? ==> r.value < |als|
  {
    if als == [] then None
    else
      var p := Choose(als[..|als| - 1], t);
      var last := als[|als| - 1];
      if Within(last, t) && (p.None? || Distance(last) < Distance(als[p.value])) then Some(|als| - 1)
      else p
  }

  function Chosen(als: seq<Alignment>, t: Threshold): Option<Alignment> {
    match Choose(als, t)
    case None => None
    case Some(i) => Some(als[i])
  }

  /** The answer of `snap` for the best alignment found, if any. */
  function ResultOf(best: Option<Alignment>): SnapResult {
    match best
    case None => NoSnap
    case Some(a) => SnapResult(a.dx, a.dy, Some(a.kind), Distance(a))
  }

  // ---------------------------------------------------------------------------
  // What the scan chooses

  /** Nothing is chosen exactly when no alignment is within the threshold;
      otherwise the choice is within it, no alignment within it is nearer, and
      every earlier one within it is strictly farther: the first nearest. */
  lemma {:induction false} ChooseFirstNearest(als: seq<Alignment>, t: Threshold)
    ensures Choose(als, t).None? <==> forall i :: 0 <= i < |als| ==> !Within(als[i], t)
    ensures Choose(als, t).Some? ==>
      var j := Choose(als, t).value;
      Within(als[j], t) &&
      (forall i :: 0 <= i < |als| && Within(als[i], t) ==> Distance(als[j]) <= Distance(als[i])) &&
      (forall i :: 0 <= i < j && Within(als[i], t) ==> Distance(als[j]) < Distance(als[i]))
  {
    if als != [] {
      var init := als[..|als| - 1];
      ChooseFirstNearest(init, t);
      assert forall i :: 0 <= i < |init| ==> init[i] == als[i];
    }
  }

  /** The alignment at a position of the scan belongs to the neighbour the
      position falls in. */
  lemma {:induction false} AlignmentOwner(ns: seq<Candidate>, b: Box, i: nat)
    requires i < 6 * |ns|
    ensures AllAlignments(ns, b)[i] == Alignments(ns[i / 6].bounds, b)[i % 6]
  {
    var init := ns[..|ns| - 1];
    if i < 6 * |init| {
      AlignmentOwner(init, b, i);
    }
  }

  lemma ChosenStep(p: seq<Alignment>, x: Alignment, t: Threshold)
    ensures var best := Chosen(p, t);
      Chosen(p + [x], t) ==
        if Within(x, t) && (best.None? || Distance(x) < Distance(best.value)) then Some(x) else best
  {
    assert (p + [x])[..|p|] == p;
  }

  lemma AllAlignmentsStep(ns: seq<Candidate>, i: nat, b: Box)
    requires i < |ns|
    ensures AllAlignments(ns[..i + 1], b) == AllAlignments(ns[..i], b) + Alignments(ns[i].bounds, b)
  {
    assert ns[..i + 1][..i] == ns[..i];
  }

  /** An alignment shifts `bounds` so that the matching lines coincide, along
      its own axis only. */
  lemma AlignmentsMeet(n: Box, b: Box)
    ensures var a := Alignments(n, b);
      b.x + a[0].dx == n.x &&
      b.x + b.width + a[1].dx == n.x + n.width &&
      b.x + b.width / 2.0 + a[2].dx == n.x + n.width / 2.0 &&
      b.y + a[3].dy == n.y &&
      b.y + b.height + a[4].dy == n.y + n.height &&
      b.y + b.height / 2.0 + a[5].dy == n.y + n.height / 2.0
    ensures forall k :: 0 <= k < 6 ==>
      var a := Alignments(n, b)[k];
      (if IsXKind(a.kind) then a.dy == 0.0 else a.dx == 0.0) &&
      Distance(a) == Abs(a.dx) + Abs(a.dy)
  {
  }

  /** A far-edge alignment shifts the box so that its far edge meets the
      neighbour's, but the guide for it is drawn at the shifted near edge, which
      lies one width (or height) short of the shared line: the two coincide only
      for a box of no width (or height). */
  lemma FarEdgeGuideAtNearEdge(n: Box, b: Box)
    ensures var a := Alignments(n, b);
      a[1].kind == EdgeX && a[4].kind == EdgeY &&
      b.x + a[1].dx == (n.x + n.width) - b.width &&
      b.y + a[4].dy == (n.y + n.height) - b.height &&
      (b.x + a[1].dx == n.x + n.width <==> b.width == 0.0) &&
      (b.y + a[4].dy == n.y + n.height <==> b.height == 0.0)
  {
  }

  /** What `snap` answers: no snap exactly when nothing is near enough, and
      otherwise the first nearest alignment, of a neighbour that is not
      excluded, with its distance and on one axis only. */
  lemma SnapFacts(candidates: seq<Candidate>, excludeIds: seq<string>, b: Box, t: Threshold)
    ensures var als := AllAlignments(Neighbors(candidates, excludeIds), b);
      var r := ResultOf(Chosen(als, t));
      (r.kind.None? <==> forall i :: 0 <= i < |als| ==> !Within(als[i], t)) &&
      (r.kind.None? ==> r == NoSnap) &&
      (r.kind.Some? ==>
        (t.Limit? ==> r.distance <= t.value) &&
        (IsXKind(r.kind.value) ==> r.dy == 0.0) &&
        (!IsXKind(r.kind.value) ==> r.dx == 0.0) &&
        r.distance == Abs(r.dx) + Abs(r.dy) &&
        exists c :: c in candidates && c.id !in excludeIds &&
          Alignment(r.kind.value, r.dx, r.dy) in Alignments(c.bounds, b))
  {
    var ns := Neighbors(candidates, excludeIds);
    var als := AllAlignments(ns, b);
    NeighborsMembers(candidates, excludeIds);
    ChooseFirstNearest(als, t);
    if Choose(als, t).Some? {
      var j := Choose(als, t).value;
      AlignmentOwner(ns, b, j);
      var c := ns[j / 6];
      assert c in ns;
      AlignmentsMeet(c.bounds, b);
      assert als[j] == Alignments(c.bounds, b)[j % 6];
    }
  }

  // ---------------------------------------------------------------------------
  // The snap system

  datatype Guide = Guide(x1: real, y1: real, x2: real, y2: real, caption: string)

  class SnapSystem {
    var candidates: seq<Candidate>
    var threshold: Threshold
    var zoom: real

    constructor()
      ensures candidates == [] && threshold == Limit(6.0) && zoom == 1.0
    {
      candidates := [];
      threshold := Limit(6.0);
      zoom := 1.0;
    }

    method SetZoom(z: real)
      modifies this
      ensures zoom == z && threshold == ThresholdFor(z) && candidates == old(candidates)
    {
      zoom := z;
      threshold := ThresholdFor(z);
    }

    method SetCandidates(cs: seq<Candidate>)
      modifies this
      ensures candidates == cs && threshold == old(threshold) && zoom == old(zoom)
    {
      candidates := cs;
    }

    /** `snap`: scans every alignment of every neighbour that is not excluded. */
    method Snap(bounds: Box, excludeIds: seq<string>) returns (r: SnapResult)
      ensures r == ResultOf(Chosen(AllAlignments(Neighbors(candidates, excludeIds), bounds), threshold))
    {
      var neighbors := Neighbors(candidates, excludeIds);
      var best: Option<Alignment> := None;
      for i := 0 to |neighbors|
        invariant best == Chosen(AllAlignments(neighbors[..i], bounds), threshold)
      {
        var snaps := Alignments(neighbors[i].bounds, bounds);
        ghost var before := AllAlignments(neighbors[..i], bounds);
        assert before + snaps[..0] == before;
        for j := 0 to 6
          invariant best == Chosen(before + snaps[..j], threshold)
        {
          var snap := snaps[j];
          var distance := Abs(snap.dx + snap.dy);
          ChosenStep(before + snaps[..j], snap, threshold);
          assert before + snaps[..j + 1] == (before + snaps[..j]) + [snap];
          if (threshold.Unlimited? || distance <= threshold.value) && (best.None? || distance < Distance(best.value)) {
            best := Some(snap);
          }
        }
        assert snaps[..6] == snaps;
        AllAlignmentsStep(neighbors, i, bounds);
      }
      assert neighbors[..|neighbors|] == neighbors;
      match best
      case None => r := NoSnap;
      case Some(a) => r := SnapResult(a.dx, a.dy, Some(a.kind), Distance(a));
    }

    /** `getSnapGuides`: one guide across the box with a margin of 20, vertical
        for an x snap and horizontal for a y snap, drawn at the box's near edge
        (or its centre, for a centre snap) after the shift. For a far-edge snap
        that is not the line snapped to (see `FarEdgeGuideAtNearEdge`). */
    method GetSnapGuides(result: SnapResult, bounds: Box) returns (guides: seq<Guide>)
      ensures result.kind.None? ==> guides == []
      ensures result.kind.Some? ==> |guides| == 1
      ensures result.kind.Some? && IsXKind(result.kind.value) ==>
        var g := guides[0];
        g.x1 == g.x2 && g.y1 == bounds.y - 20.0 && g.y2 == bounds.y + bounds.height + 20.0 &&
        g.x1 == (if result.kind.value == CenterX then bounds.x + bounds.width / 2.0 else bounds.x) + result.dx
      ensures result.kind.Some? && !IsXKind(result.kind.value) ==>
        var g := guides[0];
        g.y1 == g.y2 && g.x1 == bounds.x - 20.0 && g.x2 == bounds.x + bounds.width + 20.0 &&
        g.y1 == (if result.kind.value == CenterY then bounds.y + bounds.height / 2.0 else bounds.y) + result.dy
      ensures result.kind.Some? ==>
        guides[0].caption == if result.kind.value in {CenterX, CenterY} then "Center" else "Edge"
    {
      if result.kind.None? {
        return [];
      }
      var kind := result.kind.value;
      KindNameAxis(kind);
      guides := [];
      if 'x' in KindName(kind) {
        var x := if kind == CenterX then bounds.x + bounds.width / 2.0 + result.dx else bounds.x + result.dx;
        guides := guides + [Guide(x, bounds.y - 20.0, x, bounds.y + bounds.height + 20.0,
                                  if kind == CenterX then "Center" else "Edge")];
      }
      if 'y' in KindName(kind) {
        var y := if kind == CenterY then bounds.y + bounds.height / 2.0 + result.dy else bounds.y + result.dy;
        guides := guides + [Guide(bounds.x - 20.0, y, bounds.x + bounds.width + 20.0, y,
                                  if kind == CenterY then "Center" else "Edge")];
      }
    }
  }
}
