/**
  The affine geometry of the canvas (apps/web/src/utils/matrix.ts): SVG matrices
  `[a c e; b d f; 0 0 1]`, points, bounding boxes, and reading a matrix back from a
  `transform` attribute. Numbers are exact reals; JavaScript's binary floating
  point is not modelled.
 */
module Geometry {
  import opened Wrappers
  import Text
  import Numbers

  datatype Matrix = Matrix(a: real, b: real, c: real, d: real, e: real, f: real)

  datatype Point = Point(x: real, y: real)

  datatype Box = Box(x: real, y: real, width: real, height: real)

  function Identity(): Matrix {
    Matrix(1.0, 0.0, 0.0, 1.0, 0.0, 0.0)
  }

  /** The matrix that applies `n` first and then `m`. */
  function Multiply(m: Matrix, n: Matrix): Matrix {
    Matrix(m.a * n.a + m.c * n.b,
           m.b * n.a + m.d * n.b,
           m.a * n.c + m.c * n.d,
           m.b * n.c + m.d * n.d,
           m.a * n.e + m.c * n.f + m.e,
           m.b * n.e + m.d * n.f + m.f)
  }

  function Translate(x: real, y: real): Matrix {
    Matrix(1.0, 0.0, 0.0, 1.0, x, y)
  }

  function Scale(sx: real, sy: real): Matrix {
    Matrix(sx, 0.0, 0.0, sy, 0.0, 0.0)
  }

  function TransformPoint(p: Point, m: Matrix): Point {
    Point(m.a * p.x + m.c * p.y + m.e, m.b * p.x + m.d * p.y + m.f)
  }

  // ---------------------------------------------------------------------------
  // Algebra

  lemma IdentityNeutral(m: Matrix)
    ensures Multiply(Identity(), m) == m && Multiply(m, Identity()) == m
  {
  }

  /** One coordinate of a transformed point, regrouped by the entries of the outer matrix. */
  lemma Regroup(a: real, c: real, e: real, na: real, nb: real, nc: real, nd: real, ne: real, nf: real,
                ra: real, rc: real, re: real, x: real, y: real, qx: real, qy: real)
    requires ra == a * na + c * nb && rc == a * nc + c * nd && re == a * ne + c * nf + e
    requires qx == na * x + nc * y + ne && qy == nb * x + nd * y + nf
    ensures ra * x + rc * y + re == a * qx + c * qy + e
  {
    calc {
      a * qx + c * qy + e;
    ==
      a * (na * x + nc * y + ne) + c * (nb * x + nd * y + nf) + e;
    ==
      a * (na * x) + a * (nc * y) + a * ne + c * (nb * x) + c * (nd * y) + c * nf + e;
    == { assert a * (na * x) == (a * na) * x && a * (nc * y) == (a * nc) * y;
         assert c * (nb * x) == (c * nb) * x && c * (nd * y) == (c * nd) * y; }
      (a * na) * x + (a * nc) * y + a * ne + (c * nb) * x + (c * nd) * y + c * nf + e;
    ==
      (a * na + c * nb) * x + (a * nc + c * nd) * y + (a * ne + c * nf + e);
    ==
      ra * x + rc * y + re;
    }
  }

  /** A point under `r`, whose entries are those of the product of `m` and `n`, lands
      where `m` takes the image `q` of that point under `n`. */
  lemma RegroupPoint(m: Matrix, n: Matrix, r: Matrix, p: Point, q: Point)
    requires r.a == m.a * n.a + m.c * n.b && r.c == m.a * n.c + m.c * n.d && r.e == m.a * n.e + m.c * n.f + m.e
    requires r.b == m.b * n.a + m.d * n.b && r.d == m.b * n.c + m.d * n.d && r.f == m.b * n.e + m.d * n.f + m.f
    requires q.x == n.a * p.x + n.c * p.y + n.e && q.y == n.b * p.x + n.d * p.y + n.f
    ensures TransformPoint(p, r) == TransformPoint(q, m)
  {
    Regroup(m.a, m.c, m.e, n.a, n.b, n.c, n.d, n.e, n.f, r.a, r.c, r.e, p.x, p.y, q.x, q.y);
    Regroup(m.b, m.d, m.f, n.a, n.b, n.c, n.d, n.e, n.f, r.b, r.d, r.f, p.x, p.y, q.x, q.y);
  }

  /** Transforming by a product applies the right factor first. */
  lemma TransformComposes(p: Point, m: Matrix, n: Matrix)
    ensures TransformPoint(p, Multiply(m, n)) == TransformPoint(TransformPoint(p, n), m)
  {
    RegroupPoint(m, n, Multiply(m, n), p, TransformPoint(p, n));
  }

  /** Two products of three matrices act alike on every point. */
  lemma ProductsActAlike(p: Point, m: Matrix, n: Matrix, k: Matrix)
    ensures TransformPoint(p, Multiply(Multiply(m, n), k)) == TransformPoint(p, Multiply(m, Multiply(n, k)))
  {
    TransformComposes(p, Multiply(m, n), k);
    TransformComposes(TransformPoint(p, k), m, n);
    TransformComposes(p, m, Multiply(n, k));
    TransformComposes(p, n, k);
  }

  /** A matrix is fixed by where it takes the origin and the two unit points. */
  lemma SameActionSameMatrix(m: Matrix, n: Matrix)
    requires TransformPoint(Point(0.0, 0.0), m) == TransformPoint(Point(0.0, 0.0), n)
    requires TransformPoint(Point(1.0, 0.0), m) == TransformPoint(Point(1.0, 0.0), n)
    requires TransformPoint(Point(0.0, 1.0), m) == TransformPoint(Point(0.0, 1.0), n)
    ensures m == n
  {
  }

  /** `multiplyMatrix` is associative. */
  lemma MultiplyAssociative(m: Matrix, n: Matrix, k: Matrix)
    ensures Multiply(Multiply(m, n), k) == Multiply(m, Multiply(n, k))
  {
    ProductsActAlike(Point(0.0, 0.0), m, n, k);
    ProductsActAlike(Point(1.0, 0.0), m, n, k);
    ProductsActAlike(Point(0.0, 1.0), m, n, k);
    SameActionSameMatrix(Multiply(Multiply(m, n), k), Multiply(m, Multiply(n, k)));
  }

  lemma IdentityFixes(p: Point)
    ensures TransformPoint(p, Identity()) == p
  {
  }

  lemma TranslationsAdd(x1: real, y1: real, x2: real, y2: real)
    ensures Multiply(Translate(x1, y1), Translate(x2, y2)) == Translate(x1 + x2, y1 + y2)
  {
  }

  lemma ScalesMultiply(sx1: real, sy1: real, sx2: real, sy2: real)
    ensures Multiply(Scale(sx1, sy1), Scale(sx2, sy2)) == Scale(sx1 * sx2, sy1 * sy2)
  {
  }

  lemma TranslateMoves(p: Point, x: real, y: real)
    ensures TransformPoint(p, Translate(x, y)) == Point(p.x + x, p.y + y)
  {
  }

  lemma ScaleStretches(p: Point, sx: real, sy: real)
    ensures TransformPoint(p, Scale(sx, sy)) == Point(sx * p.x, sy * p.y)
  {
  }

  // ---------------------------------------------------------------------------
  // getBounds

  function Min(a: real, b: real): real {
    if a <= b then a else b
  }

  function Max(a: real, b: real): real {
    if a >= b then a else b
  }

  /** The smallest value, folding from the front as the loop does. */
  function MinOf(xs: seq<real>): real
    requires xs != []
  {
    if |xs| == 1 then xs[0] else Min(MinOf(xs[..|xs| - 1]), xs[|xs| - 1])
  }

  function MaxOf(xs: seq<real>): real
    requires xs != []
  {
    if |xs| == 1 then xs[0] else Max(MaxOf(xs[..|xs| - 1]), xs[|xs| - 1])
  }

  lemma {:induction false} MinOfBounds(xs: seq<real>)
    requires xs != []
    ensures forall i :: 0 <= i < |xs| ==> MinOf(xs) <= xs[i]
    ensures exists i :: 0 <= i < |xs| && xs[i] == MinOf(xs)
  {
    if |xs| == 1 {
      assert xs[0] == MinOf(xs);
    } else {
      var init := xs[..|xs| - 1];
      MinOfBounds(init);
      assert forall i :: 0 <= i < |init| ==> init[i] == xs[i];
      var j :| 0 <= j < |init| && init[j] == MinOf(init);
      if MinOf(init) <= xs[|xs| - 1] {
        assert xs[j] == MinOf(xs);
      } else {
        assert xs[|xs| - 1] == MinOf(xs);
      }
    }
  }

  lemma {:induction false} MaxOfBounds(xs: seq<real>)
    requires xs != []
    ensures forall i :: 0 <= i < |xs| ==> xs[i] <= MaxOf(xs)
    ensures exists i :: 0 <= i < |xs| && xs[i] == MaxOf(xs)
  {
    if |xs| == 1 {
      assert xs[0] == MaxOf(xs);
    } else {
      var init := xs[..|xs| - 1];
      MaxOfBounds(init);
      assert forall i :: 0 <= i < |init| ==> init[i] == xs[i];
      var j :| 0 <= j < |init| && init[j] == MaxOf(init);
      if MaxOf(init) >= xs[|xs| - 1] {
        assert xs[j] == MaxOf(xs);
      } else {
        assert xs[|xs| - 1] == MaxOf(xs);
      }
    }
  }

  lemma ExtremesOfFour(a: real, b: real, c: real, d: real)
    ensures MinOf([a, b, c, d]) == Min(Min(Min(a, b), c), d)
    ensures MaxOf([a, b, c, d]) == Max(Max(Max(a, b), c), d)
  {
    assert [a, b, c, d][..3] == [a, b, c];
    assert [a, b, c][..2] == [a, b];
    assert [a, b][..1] == [a];
    assert MinOf([a, b]) == Min(a, b) && MaxOf([a, b]) == Max(a, b);
    assert MinOf([a, b, c]) == Min(Min(a, b), c) && MaxOf([a, b, c]) == Max(Max(a, b), c);
  }

  function Xs(ps: seq<Point>): (r: seq<real>)
    ensures |r| == |ps| && forall i :: 0 <= i < |ps| ==> r[i] == ps[i].x
  {
    seq(|ps|, i requires 0 <= i < |ps| => ps[i].x)
  }

  function Ys(ps: seq<Point>): (r: seq<real>)
    ensures |r| == |ps| && forall i :: 0 <= i < |ps| ==> r[i] == ps[i].y
  {
    seq(|ps|, i requires 0 <= i < |ps| => ps[i].y)
  }

  /** The axis-aligned bounding box of the points; the zero box when there are none. */
  function Bounds(ps: seq<Point>): Box {
    if ps == [] then Box(0.0, 0.0, 0.0, 0.0)
    else
      var minX := MinOf(Xs(ps));
      var minY := MinOf(Ys(ps));
      Box(minX, minY, MaxOf(Xs(ps)) - minX, MaxOf(Ys(ps)) - minY)
  }

  predicate Inside(p: Point, b: Box) {
    b.x <= p.x <= b.x + b.width && b.y <= p.y <= b.y + b.height
  }

  /** A non-empty point set lies inside its box, which has no negative side, and
      each side of the box touches one of the points. */
  lemma BoundsTight(ps: seq<Point>)
    requires ps != []
    ensures var b := Bounds(ps);
      b.width >= 0.0 && b.height >= 0.0 &&
      (forall i :: 0 <= i < |ps| ==> Inside(ps[i], b)) &&
      (exists i :: 0 <= i < |ps| && ps[i].x == b.x) &&
      (exists i :: 0 <= i < |ps| && ps[i].x == b.x + b.width) &&
      (exists i :: 0 <= i < |ps| && ps[i].y == b.y) &&
      (exists i :: 0 <= i < |ps| && ps[i].y == b.y + b.height)
  {
    MinOfBounds(Xs(ps));
    MaxOfBounds(Xs(ps));
    MinOfBounds(Ys(ps));
    MaxOfBounds(Ys(ps));
  }

  lemma BoundsOfNone()
    ensures Bounds([]) == Box(0.0, 0.0, 0.0, 0.0)
  {
  }

  /** `getBounds`: one pass keeping the running extremes. */
  method GetBounds(points: seq<Point>) returns (box: Box)
    ensures box == Bounds(points)
  {
    if |points| == 0 {
      return Box(0.0, 0.0, 0.0, 0.0);
    }
    var minX, maxX := points[0].x, points[0].x;
    var minY, maxY := points[0].y, points[0].y;
    ghost var xs, ys := Xs(points), Ys(points);
    var i := 0;
    while i < |points|
      invariant 0 <= i <= |points|
      invariant var seen := if i == 0 then 1 else i;
        minX == MinOf(xs[..seen]) && maxX == MaxOf(xs[..seen]) &&
        minY == MinOf(ys[..seen]) && maxY == MaxOf(ys[..seen])
    {
      var p := points[i];
      ExtremesStep(xs, i);
      ExtremesStep(ys, i);
      minX := Min(minX, p.x);
      maxX := Max(maxX, p.x);
      minY := Min(minY, p.y);
      maxY := Max(maxY, p.y);
      i := i + 1;
    }
    assert xs[..|points|] == xs && ys[..|points|] == ys;
    box := Box(minX, minY, maxX - minX, maxY - minY);
  }

  /** One more value: the running extremes of `xs[..i + 1]` from those of the values
      seen so far (on the first turn the first value is seen twice). */
  lemma ExtremesStep(xs: seq<real>, i: nat)
    requires i < |xs|
    ensures var seen := if i == 0 then 1 else i;
      MinOf(xs[..i + 1]) == Min(MinOf(xs[..seen]), xs[i]) &&
      MaxOf(xs[..i + 1]) == Max(MaxOf(xs[..seen]), xs[i])
  {
    if i > 0 {
      assert xs[..i + 1][..i] == xs[..i];
    }
  }

  // ---------------------------------------------------------------------------
  // parseMatrix

  const MatrixOpen := "matrix("

  /** The group of `/matrix\(([^)]+)\)/` for a match starting at `p`, if any. */
  function MatrixBodyAt(s: string, p: nat): Option<string>
    requires p <= |s|
  {
    if p + 7 <= |s| && s[p..p + 7] == MatrixOpen then
      var n := Text.RunUntil(s, p + 7, ')');
      if n > 0 && p + 7 + n < |s| then Some(s[p + 7..p + 7 + n]) else None
    else None
  }

  /** `transform.match(...)`: the leftmost match at `k` or later. */
  function FirstMatrixBody(s: string, k: nat): (r: Option<string>)
    requires k <= |s|
    ensures r.Some? ==> exists p :: k <= p <= |s| && MatrixBodyAt(s, p) == r
    ensures r.None? ==> forall p :: k <= p <= |s| ==> MatrixBodyAt(s, p).None?
    decreases |s| - k
  {
    if MatrixBodyAt(s, k).Some? then MatrixBodyAt(s, k)
    else if k == |s| then None
    else FirstMatrixBody(s, k + 1)
  }

  /** `[,\s]`. */
  predicate IsFieldSeparator(c: char) {
    c == ',' || Text.IsSpace(c)
  }

  function FieldRun(s: string, p: nat): (n: nat)
    requires p <= |s|
    ensures p + n <= |s| && (p + n == |s| || IsFieldSeparator(s[p + n]))
    decreases |s| - p
  {
    if p == |s| || IsFieldSeparator(s[p]) then 0 else 1 + FieldRun(s, p + 1)
  }

  function SeparatorRun(s: string, p: nat): (n: nat)
    requires p <= |s|
    ensures p + n <= |s| && (p + n == |s| || !IsFieldSeparator(s[p + n]))
    decreases |s| - p
  {
    if p == |s| || !IsFieldSeparator(s[p]) then 0 else 1 + SeparatorRun(s, p + 1)
  }

  /** `s.split(/[,\s]+/)`: a separator at either end leaves an empty field there. */
  function Fields(s: string): (r: seq<string>)
    ensures |r| >= 1
    decreases |s|
  {
    var i := FieldRun(s, 0);
    if i == |s| then [s]
    else
      var j := i + SeparatorRun(s, i);
      assert j > i;
      [s[..i]] + Fields(s[j..])
  }

  /** `fields.map(Number)`, `None` as soon as one of them is not finite. */
  function Values(fields: seq<string>): (r: Option<seq<real>>)
    ensures r.Some? ==> |r.value| == |fields|
  {
    if fields == [] then Some([])
    else
      match Numbers.ParseNumber(fields[0])
      case None => None
      case Some(v) =>
        (match Values(fields[1..])
         case None => None
         case Some(vs) => Some([v] + vs))
  }

  /** `parseMatrix`; `None` stands for the matrix JavaScript builds from six fields
      when one of them is not a finite number (a NaN or infinite entry). */
  function ParseMatrix(transform: string): Option<Matrix> {
    match FirstMatrixBody(transform, 0)
    case None => Some(Identity())
    case Some(body) =>
      var fields := Fields(body);
      if |fields| != 6 then Some(Identity())
      else
        match Values(fields)
        case None => None
        case Some(v) => Some(Matrix(v[0], v[1], v[2], v[3], v[4], v[5]))
  }

  lemma NoMatrixMeansIdentity(transform: string)
    requires forall p :: 0 <= p <= |transform| ==> MatrixBodyAt(transform, p).None?
    ensures ParseMatrix(transform) == Some(Identity())
  {
  }

  lemma WrongCountMeansIdentity(transform: string, body: string)
    requires FirstMatrixBody(transform, 0) == Some(body) && |Fields(body)| != 6
    ensures ParseMatrix(transform) == Some(Identity())
  {
  }

  // ---------------------------------------------------------------------------
  // matrixToString, for entries that are whole thousandths

  predicate WholeThousandths(x: real) {
    (x * 1000.0).Floor as real == x * 1000.0
  }

  predicate Printable(m: Matrix) {
    WholeThousandths(m.a) && WholeThousandths(m.b) && WholeThousandths(m.c) &&
    WholeThousandths(m.d) && WholeThousandths(m.e) && WholeThousandths(m.f)
  }

  /** `x.toString()` for a whole number of thousandths. */
  function NumberText(x: real): string
    requires WholeThousandths(x)
  {
    Numbers.FormatMilli((x * 1000.0).Floor)
  }

  function Entries(m: Matrix): seq<real> {
    [m.a, m.b, m.c, m.d, m.e, m.f]
  }

  function EntryTexts(xs: seq<real>): (r: seq<string>)
    requires forall i :: 0 <= i < |xs| ==> WholeThousandths(xs[i])
    ensures |r| == |xs| && forall i :: 0 <= i < |xs| ==> r[i] == NumberText(xs[i])
  {
    seq(|xs|, i requires 0 <= i < |xs| => NumberText(xs[i]))
  }

  /** `matrixToString`: `matrix(a,b,c,d,e,f)`. */
  function MatrixToString(m: Matrix): string
    requires Printable(m)
  {
    MatrixOpen + Text.Join(EntryTexts(Entries(m)), ",") + ")"
  }

  lemma ThousandthsExact(x: real)
    requires WholeThousandths(x)
    ensures (x * 1000.0).Floor as real / 1000.0 == x
  {
    var y := x * 1000.0;
    assert y.Floor as real == y;
  }

  lemma ThousandthsRead(x: real)
    requires WholeThousandths(x)
    ensures Numbers.ParseNumber(NumberText(x)) == Some(x)
  {
    ThousandthsExact(x);
    Numbers.ParseFormatMilliIs((x * 1000.0).Floor, x);
  }

  lemma ValuesOfTexts(xs: seq<real>)
    requires forall i :: 0 <= i < |xs| ==> WholeThousandths(xs[i])
    ensures Values(EntryTexts(xs)) == Some(xs)
  {
    var ts := EntryTexts(xs);
    forall i | 0 <= i < |xs|
      ensures Numbers.ParseNumber(ts[i]) == Some(xs[i])
    {
      ThousandthsRead(xs[i]);
    }
    ValuesRead(ts, xs);
  }

  /** Fields that each read as a number give those numbers, in order. */
  lemma {:induction false} ValuesRead(fields: seq<string>, xs: seq<real>)
    requires |fields| == |xs| && forall i :: 0 <= i < |xs| ==> Numbers.ParseNumber(fields[i]) == Some(xs[i])
    ensures Values(fields) == Some(xs)
    decreases |xs|
  {
    if xs != [] {
      ValuesRead(fields[1..], xs[1..]);
      assert [xs[0]] + xs[1..] == xs;
    }
  }

  /** Printed entries hold only digits, a minus sign and a point. */
  lemma TextsArePlain(xs: seq<real>)
    requires forall i :: 0 <= i < |xs| ==> WholeThousandths(xs[i])
    ensures forall i :: 0 <= i < |xs| ==> PlainField(EntryTexts(xs)[i])
  {
    forall i | 0 <= i < |xs|
      ensures PlainField(EntryTexts(xs)[i])
    {
      var t := NumberText(xs[i]);
      Numbers.FormatMilliIsPlainDecimal((xs[i] * 1000.0).Floor);
      Numbers.PlainDecimalChars(t);
      assert t != [];
    }
  }

  /** A field fit for a comma-joined list: non-empty, no separator, no `)`. */
  predicate PlainField(t: string) {
    t != [] && forall k :: 0 <= k < |t| ==> Numbers.IsDigit(t[k]) || t[k] == '-' || t[k] == '.'
  }

  lemma {:induction false} FieldRunOfPlain(s: string, p: nat, n: nat)
    requires p + n <= |s| && forall k :: p <= k < p + n ==> !IsFieldSeparator(s[k])
    requires p + n == |s| || IsFieldSeparator(s[p + n])
    ensures FieldRun(s, p) == n
    decreases n
  {
    if n > 0 {
      FieldRunOfPlain(s, p + 1, n - 1);
    }
  }

  /** Splitting a comma-joined list of plain fields gives the fields back. */
  lemma {:induction false} FieldsOfJoin(parts: seq<string>)
    requires parts != [] && forall i :: 0 <= i < |parts| ==> PlainField(parts[i])
    ensures Fields(Text.Join(parts, ",")) == parts
    decreases |parts|
  {
    var s := Text.Join(parts, ",");
    var h := parts[0];
    if |parts| == 1 {
      FieldRunOfPlain(s, 0, |s|);
    } else {
      FieldsOfJoinStep(parts);
      FieldsOfJoin(parts[1..]);
      assert [h] + parts[1..] == parts;
    }
  }

  /** The first field of a joined list of two or more plain fields, and the rest. */
  lemma FieldsOfJoinStep(parts: seq<string>)
    requires |parts| > 1 && forall i :: 0 <= i < |parts| ==> PlainField(parts[i])
    ensures Fields(Text.Join(parts, ",")) == [parts[0]] + Fields(Text.Join(parts[1..], ","))
  {
    var s := Text.Join(parts, ",");
    var h := parts[0];
    var rest := Text.Join(parts[1..], ",");
    assert s == h + "," + rest;
    forall k | 0 <= k < |h|
      ensures !IsFieldSeparator(s[k])
    {
      assert s[k] == h[k];
      PlainNotSeparator(h[k]);
    }
    FieldRunOfPlain(s, 0, |h|);
    assert parts[1] != [] && PlainField(parts[1]);
    JoinStartsWith(parts[1..]);
    assert s[|h| + 1] == parts[1][0];
    PlainNotSeparator(parts[1][0]);
    assert SeparatorRun(s, |h| + 1) == 0;
    assert SeparatorRun(s, |h|) == 1;
    assert s[..|h|] == h && s[|h| + 1..] == rest;
  }

  lemma PlainNotSeparator(c: char)
    requires Numbers.IsDigit(c) || c == '-' || c == '.'
    ensures !IsFieldSeparator(c)
  {
  }

  lemma JoinStartsWith(parts: seq<string>)
    requires parts != [] && parts[0] != []
    ensures Text.Join(parts, ",") != [] && Text.Join(parts, ",")[0] == parts[0][0]
  {
  }

  /** A joined list of plain fields holds no `)`. */
  lemma {:induction false} JoinNoClose(parts: seq<string>)
    requires forall i :: 0 <= i < |parts| ==> PlainField(parts[i])
    ensures ')' !in Text.Join(parts, ",")
    decreases |parts|
  {
    if |parts| > 1 {
      JoinNoClose(parts[1..]);
      assert Text.Join(parts, ",") == parts[0] + "," + Text.Join(parts[1..], ",");
    } else if |parts| == 1 {
      assert forall k :: 0 <= k < |parts[0]| ==> parts[0][k] != ')';
    }
  }

  /** Reading back a printed matrix gives the matrix. */
  lemma ParseMatrixOfString(m: Matrix)
    requires Printable(m)
    ensures ParseMatrix(MatrixToString(m)) == Some(m)
  {
    var xs := Entries(m);
    var texts := EntryTexts(xs);
    TextsArePlain(xs);
    PrintedBody(m);
    FieldsOfJoin(texts);
    ValuesOfTexts(xs);
  }

  /** The pattern finds the comma-joined entries inside a printed matrix. */
  lemma PrintedBody(m: Matrix)
    requires Printable(m)
    ensures FirstMatrixBody(MatrixToString(m), 0) == Some(Text.Join(EntryTexts(Entries(m)), ","))
  {
    var xs := Entries(m);
    var texts := EntryTexts(xs);
    var body := Text.Join(texts, ",");
    var s := MatrixToString(m);
    TextsArePlain(xs);
    JoinNoClose(texts);
    JoinStartsWith(texts);
    assert s == MatrixOpen + body + ")";
    assert s[..7] == MatrixOpen;
    Text.RunUntilOf(s, 7, ')', |body|);
    assert s[7..7 + |body|] == body;
    assert MatrixBodyAt(s, 0) == Some(body);
  }
}
