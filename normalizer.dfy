/**
  The normalizer: from markup to deterministic text, one node per line, indented
  two spaces per level, attributes in a fixed priority order and values in a
  canonical form.  Parsing is a parameter (`Parsed`, the children of the `<svg>`
  wrapper the source parses around the input), as in the sanitizer.
 */
module Normalizer {
  import opened Wrappers
  import opened Dom
  import Text
  import Numbers

  // ---------------------------------------------------------------------------
  // attributeOrder and the comparator of sortAttributes

  /** The names printed first, in this order; every other name follows them. */
  const AttributeOrder: seq<string> := [
    "id", "x", "y", "cx", "cy", "r", "rx", "ry", "width", "height",
    "x1", "y1", "x2", "y2", "points", "d", "transform", "fill", "stroke",
    "stroke-width", "stroke-dasharray", "opacity", "vector-effect",
    "text-anchor", "dominant-baseline"]

  /** `names.indexOf(name)`: the first position of `name`, or -1. */
  function IndexIn(names: seq<string>, name: string): (i: int)
    ensures -1 <= i < |names|
    ensures i == -1 <==> name !in names
    ensures i >= 0 ==> names[i] == name && name !in names[..i]
  {
    if names == [] then -1
    else if names[0] == name then 0
    else
      var j := IndexIn(names[1..], name);
      assert names[1..][..if j < 0 then 0 else j] == names[1..if j < 0 then 1 else j + 1];
      if j == -1 then -1 else j + 1
  }

  function OrderIndex(name: string): int {
    IndexIn(AttributeOrder, name)
  }

  /** Plain lexicographic order on character codes (`localeCompare` stands for it). */
  predicate LexLe(a: string, b: string) {
    a == [] || (b != [] && (a[0] < b[0] || (a[0] == b[0] && LexLe(a[1..], b[1..]))))
  }

  lemma {:induction false} LexLeTotal(a: string, b: string)
    ensures LexLe(a, b) || LexLe(b, a)
  {
    if a != [] && b != [] && a[0] == b[0] {
      LexLeTotal(a[1..], b[1..]);
    }
  }

  lemma {:induction false} LexLeTrans(a: string, b: string, c: string)
    requires LexLe(a, b) && LexLe(b, c)
    ensures LexLe(a, c)
  {
    if a != [] && b != [] && c != [] && a[0] == b[0] == c[0] {
      LexLeTrans(a[1..], b[1..], c[1..]);
    }
  }

  lemma {:induction false} LexLeAntisymmetric(a: string, b: string)
    requires LexLe(a, b) && LexLe(b, a)
    ensures a == b
  {
    if a != [] && b != [] {
      LexLeAntisymmetric(a[1..], b[1..]);
      assert a == [a[0]] + a[1..] && b == [b[0]] + b[1..];
    }
  }

  /** The comparator's verdict "a may come before b", on the two positions in
      `attributeOrder` (-1 for an unlisted name) and the two names. */
  predicate KeyLe(ia: int, a: string, ib: int, b: string) {
    if ia == -1 && ib == -1 then LexLe(a, b)
    else if ia == -1 then false
    else if ib == -1 then true
    else ia <= ib
  }

  /** An attribute with its position in `attributeOrder`, looked up once. */
  datatype Ranked = Ranked(rank: int, attr: Attr)

  predicate WellRanked(x: Ranked) {
    x.rank == OrderIndex(x.attr.name)
  }

  predicate RankedLe(x: Ranked, y: Ranked) {
    KeyLe(x.rank, x.attr.name, y.rank, y.attr.name)
  }

  lemma KeyLeTotal(ia: int, a: string, ib: int, b: string)
    ensures KeyLe(ia, a, ib, b) || KeyLe(ib, b, ia, a)
  {
    LexLeTotal(a, b);
  }

  lemma KeyLeTrans(ia: int, a: string, ib: int, b: string, ic: int, c: string)
    requires KeyLe(ia, a, ib, b) && KeyLe(ib, b, ic, c)
    ensures KeyLe(ia, a, ic, c)
  {
    if ia == -1 && ib == -1 && ic == -1 {
      LexLeTrans(a, b, c);
    }
  }

  lemma RankedLeTotal(x: Ranked, y: Ranked)
    ensures RankedLe(x, y) || RankedLe(y, x)
  {
    KeyLeTotal(x.rank, x.attr.name, y.rank, y.attr.name);
  }

  lemma RankedLeTrans(x: Ranked, y: Ranked, z: Ranked)
    requires RankedLe(x, y) && RankedLe(y, z)
    ensures RankedLe(x, z)
  {
    KeyLeTrans(x.rank, x.attr.name, y.rank, y.attr.name, z.rank, z.attr.name);
  }

  /** Two entries the comparator ranks equal in both directions share their name. */
  lemma RankedLeAntisymmetric(x: Ranked, y: Ranked)
    requires WellRanked(x) && WellRanked(y)
    requires RankedLe(x, y) && RankedLe(y, x)
    ensures x.attr.name == y.attr.name
  {
    if x.rank == -1 && y.rank == -1 {
      LexLeAntisymmetric(x.attr.name, y.attr.name);
    } else {
      assert x.rank == y.rank;
    }
  }

  // ---------------------------------------------------------------------------
  // Array.prototype.sort with the comparator: a stable sort

  predicate Ordered(s: seq<Ranked>) {
    forall i, j :: 0 <= i < j < |s| ==> RankedLe(s[i], s[j])
  }

  /** Places `x` before the first element it may precede. */
  function Insert(x: Ranked, s: seq<Ranked>): (r: seq<Ranked>)
    ensures |r| == |s| + 1
    ensures multiset(r) == multiset(s) + multiset{x}
  {
    if s == [] then [x]
    else if RankedLe(x, s[0]) then [x] + s
    else
      assert s == [s[0]] + s[1..];
      [s[0]] + Insert(x, s[1..])
  }

  /** Insertion sort; an element goes before the later elements it ties with, so
      elements the comparator ranks equal keep their order. */
  function Sort(s: seq<Ranked>): (r: seq<Ranked>)
    ensures |r| == |s|
    ensures multiset(r) == multiset(s)
  {
    if s == [] then []
    else
      assert s == [s[0]] + s[1..];
      Insert(s[0], Sort(s[1..]))
  }

  lemma {:induction false} InsertOrdered(x: Ranked, s: seq<Ranked>)
    requires Ordered(s)
    ensures Ordered(Insert(x, s))
  {
    if s != [] {
      if RankedLe(x, s[0]) {
        forall j | 0 < j < |s|
          ensures RankedLe(x, s[j])
        {
          RankedLeTrans(x, s[0], s[j]);
        }
        assert Insert(x, s) == [x] + s;
      } else {
        RankedLeTotal(x, s[0]);
        var rest := Insert(x, s[1..]);
        InsertOrdered(x, s[1..]);
        forall j | 0 <= j < |rest|
          ensures RankedLe(s[0], rest[j])
        {
          assert rest[j] in multiset(rest);
          assert rest[j] == x || rest[j] in s[1..];
          if rest[j] != x {
            var k :| 0 <= k < |s[1..]| && s[1..][k] == rest[j];
            assert s[k + 1] == rest[j];
          }
        }
        assert Insert(x, s) == [s[0]] + rest;
      }
    }
  }

  lemma {:induction false} SortOrdered(s: seq<Ranked>)
    ensures Ordered(Sort(s))
  {
    if s != [] {
      SortOrdered(s[1..]);
      InsertOrdered(s[0], Sort(s[1..]));
    }
  }

  /** Each attribute paired with its position in `attributeOrder`. */
  function Ranks(attrs: seq<Attr>): (r: seq<Ranked>)
    ensures |r| == |attrs|
    ensures forall i :: 0 <= i < |r| ==> r[i] == Ranked(OrderIndex(attrs[i].name), attrs[i])
  {
    if attrs == [] then [] else [Ranked(OrderIndex(attrs[0].name), attrs[0])] + Ranks(attrs[1..])
  }

  /** The order `sortAttributes` produces: listed names first, in `attributeOrder`
      order, then the unlisted names in alphabetical order. */
  lemma SortedLayout(attrs: seq<Attr>)
    ensures var r := Sort(Ranks(attrs));
      forall i, j :: 0 <= i < j < |r| ==>
        (OrderIndex(r[j].attr.name) >= 0 ==>
           0 <= OrderIndex(r[i].attr.name) <= OrderIndex(r[j].attr.name)) &&
        (OrderIndex(r[i].attr.name) == -1 && OrderIndex(r[j].attr.name) == -1 ==>
           LexLe(r[i].attr.name, r[j].attr.name))
  {
    var s := Ranks(attrs);
    var r := Sort(s);
    SortOrdered(s);
    forall k | 0 <= k < |r|
      ensures r[k].rank == OrderIndex(r[k].attr.name)
    {
      assert r[k] in multiset(s);
    }
  }

  /** Entries as `Ranks` builds them from an element's attributes: correctly ranked,
      no name twice. */
  predicate DistinctRanked(s: seq<Ranked>) {
    (forall i :: 0 <= i < |s| ==> WellRanked(s[i])) &&
    (forall i, j :: 0 <= i < j < |s| ==> s[i].attr.name != s[j].attr.name)
  }

  /** With distinct names the comparator is a total order, so the sorted list is the
      only ordered permutation: the output does not depend on the input order. */
  lemma {:induction false} OrderedUnique(a: seq<Ranked>, b: seq<Ranked>)
    requires Ordered(a) && Ordered(b) && multiset(a) == multiset(b) && DistinctRanked(a)
    ensures a == b
  {
    if a != [] {
      assert |b| == |multiset(b)| == |a|;
      HeadsAgree(a, b);
      TailsAgree(a, b);
      OrderedUnique(a[1..], b[1..]);
    }
  }

  lemma TailMultiset(s: seq<Ranked>)
    requires s != []
    ensures multiset(s[1..]) == multiset(s) - multiset{s[0]}
    ensures s == [s[0]] + s[1..]
  {
    assert s == [s[0]] + s[1..];
    assert multiset(s) == multiset{s[0]} + multiset(s[1..]);
  }

  lemma TailsAgree(a: seq<Ranked>, b: seq<Ranked>)
    requires Ordered(a) && Ordered(b) && multiset(a) == multiset(b) && DistinctRanked(a)
    requires a != [] && b != [] && a[0] == b[0]
    ensures Ordered(a[1..]) && Ordered(b[1..]) && DistinctRanked(a[1..])
    ensures multiset(a[1..]) == multiset(b[1..])
    ensures a == [a[0]] + a[1..] && b == [b[0]] + b[1..]
  {
    TailMultiset(a);
    TailMultiset(b);
    OrderedTail(a);
    OrderedTail(b);
  }

  lemma OrderedTail(s: seq<Ranked>)
    requires Ordered(s) && s != []
    ensures Ordered(s[1..])
  {
    forall i, j | 0 <= i < j < |s| - 1
      ensures RankedLe(s[1..][i], s[1..][j])
    {
      assert s[1..][i] == s[i + 1] && s[1..][j] == s[j + 1];
    }
  }

  lemma HeadsAgree(a: seq<Ranked>, b: seq<Ranked>)
    requires Ordered(a) && Ordered(b) && multiset(a) == multiset(b) && DistinctRanked(a)
    requires a != [] && b != []
    ensures a[0] == b[0]
  {
    assert a[0] in multiset(b) && b[0] in multiset(a);
    var i :| 0 <= i < |b| && b[i] == a[0];
    var j :| 0 <= j < |a| && a[j] == b[0];
    if a[0] != b[0] {
      assert RankedLe(a[0], a[j]) && RankedLe(b[0], b[i]);
      RankedLeAntisymmetric(a[0], b[0]);
      assert false;
    }
  }

  // ---------------------------------------------------------------------------
  // normaliseAttributeValue

  /** `normaliseAttributeValue(value)`: the trimmed value, put in canonical form by shape. */
  function NormaliseAttributeValue(value: string): string {
    ValueByShape(Text.Trim(value))
  }

  /** The shape tests of `normaliseAttributeValue`, on the trimmed value: a plain
      decimal (`/^-?\d+(?:\.\d+)?$/`) is rounded to thousandths, a value mentioning
      `matrix` has its white space collapsed and tightened around commas, a value with a
      space has its white space collapsed, anything else is kept. */
  function ValueByShape(t: string): string {
    if t == [] then t
    else if Numbers.IsPlainDecimal(t) then RoundedDecimal(t)
    else if Text.Contains(t, "matrix") then Text.TightenCommas(Text.Collapse(t))
    else if Text.Contains(t, " ") then Text.Collapse(t)
    else t
  }

  /** `Number.parseFloat(Number(t).toFixed(3)).toString()`. */
  function RoundedDecimal(t: string): string
    requires Numbers.IsPlainDecimal(t)
  {
    Numbers.PlainDecimalParses(t);
    Numbers.FormatRounded(Numbers.ParseNumber(t).value)
  }

  /** A printed thousandths value is a plain decimal that rounds to itself. */
  lemma RoundedDecimalFixed(m: int)
    ensures Numbers.IsPlainDecimal(Numbers.FormatMilli(m))
    ensures RoundedDecimal(Numbers.FormatMilli(m)) == Numbers.FormatMilli(m)
  {
    Numbers.FormatMilliSettles(m);
    RoundedDecimalSettles(Numbers.FormatMilli(m), m);
  }

  /** A plain decimal reading as `m` thousandths that prints back the same way
      once rounded is fixed. */
  lemma RoundedDecimalSettles(t: string, m: int)
    requires Numbers.IsPlainDecimal(t) && Numbers.ParseNumber(t) == Some(m as real / 1000.0)
    requires Numbers.FormatRounded(m as real / 1000.0) == t
    ensures RoundedDecimal(t) == t
  {
  }

  /** A rounded decimal is the printed form of some number of thousandths. */
  lemma RoundedDecimalForm(t: string) returns (m: int)
    requires Numbers.IsPlainDecimal(t)
    ensures RoundedDecimal(t) == Numbers.FormatMilli(m)
  {
    Numbers.PlainDecimalParses(t);
    m := Numbers.Milli(Numbers.ParseNumber(t).value);
  }

  lemma NotPlainDecimal(s: string, c: char)
    requires c in s && !Numbers.IsDigit(c) && c != '-' && c != '.'
    ensures !Numbers.IsPlainDecimal(s)
  {
    if Numbers.IsPlainDecimal(s) {
      Numbers.PlainDecimalChars(s);
      assert false;
    }
  }

  lemma MatrixWord()
    ensures Text.NoSpace("matrix") && ' ' !in "matrix" && ',' !in "matrix"
  {
  }

  /** Collapsing and tightening keep both ends of trimmed text. */
  lemma TightenedTrimmed(t: string)
    requires t != [] && Text.Trimmed(t)
    ensures var r := Text.TightenCommas(Text.Collapse(t)); r != [] && Text.Trimmed(r)
  {
  }

  /** The matrix shape keeps its shape and is already tight. */
  lemma MatrixShapeFixed(t: string)
    requires t != [] && Text.Trimmed(t) && Text.Contains(t, "matrix")
    ensures var r := Text.TightenCommas(Text.Collapse(t));
      r != [] && Text.Trimmed(r) && !Numbers.IsPlainDecimal(r) && Text.Contains(r, "matrix") &&
      Text.TightenCommas(Text.Collapse(r)) == r
  {
    var c := Text.Collapse(t);
    var p := Text.ReplacePair(c, ' ', ',', ',');
    var r := Text.ReplacePair(p, ',', ' ', ',');
    TightenedTrimmed(t);
    MatrixWord();
    Text.CollapseKeepsWord(t, "matrix");
    Text.ReplacePairKeepsWord(c, ' ', ',', ',', "matrix");
    Text.ReplacePairKeepsWord(p, ',', ' ', ',', "matrix");
    Text.ContainsFirstChar(r, "matrix");
    NotPlainDecimal(r, 'm');
    Text.CollapseTightenIsTight(t);
    Text.TightIsFixed(r);
  }

  /** The space shape keeps its shape and is already collapsed. */
  lemma SpaceShapeFixed(t: string)
    requires t != [] && Text.Trimmed(t) && !Text.Contains(t, "matrix") && Text.Contains(t, " ")
    ensures var r := Text.Collapse(t);
      r != [] && Text.Trimmed(r) && !Numbers.IsPlainDecimal(r) && !Text.Contains(r, "matrix") &&
      Text.Contains(r, " ") && Text.Collapse(r) == r
  {
    var r := Text.Collapse(t);
    Text.ContainsFirstChar(t, " ");
    var i :| 0 <= i < |t| && t[i] == ' ';
    Text.CollapseHasSpaceAt(t, i);
    Text.ContainsChar(r, ' ');
    NotPlainDecimal(r, ' ');
    MatrixWord();
    if Text.Contains(r, "matrix") {
      Text.CollapseAddsNoWord(t, "matrix");
    }
    Text.CollapseSingleSpaced(t);
    Text.CollapseKeepsSingleSpaced(r);
  }

  /** On trimmed input the shape rule returns trimmed text that it maps to itself. */
  lemma ShapeFixed(t: string)
    requires Text.Trimmed(t)
    ensures Text.Trimmed(ValueByShape(t))
    ensures ValueByShape(ValueByShape(t)) == ValueByShape(t)
  {
    if t != [] {
      if Numbers.IsPlainDecimal(t) {
        var m := RoundedDecimalForm(t);
        Numbers.FormatMilliTrimmed(m);
        RoundedDecimalFixed(m);
      } else if Text.Contains(t, "matrix") {
        MatrixShapeFixed(t);
      } else if Text.Contains(t, " ") {
        SpaceShapeFixed(t);
      }
    }
  }

  /** `normaliseAttributeValue` is idempotent. */
  lemma NormaliseIdempotent(value: string)
    ensures NormaliseAttributeValue(NormaliseAttributeValue(value)) == NormaliseAttributeValue(value)
  {
    var t := Text.Trim(value);
    ShapeFixed(t);
  }

  // ---------------------------------------------------------------------------
  // sortAttributes

  /** The attributes with their values normalised (the first `map`). */
  function NormalisedAttrs(attrs: seq<Attr>): (r: seq<Attr>)
    ensures |r| == |attrs|
  {
    if attrs == [] then []
    else [Attr(attrs[0].name, NormaliseAttributeValue(attrs[0].value))] + NormalisedAttrs(attrs[1..])
  }

  lemma {:induction false} NormalisedAttrsAt(attrs: seq<Attr>, i: nat)
    requires i < |attrs|
    ensures NormalisedAttrs(attrs)[i] == Attr(attrs[i].name, NormaliseAttributeValue(attrs[i].value))
  {
    var tail := NormalisedAttrs(attrs[1..]);
    assert NormalisedAttrs(attrs) == [Attr(attrs[0].name, NormaliseAttributeValue(attrs[0].value))] + tail;
    if i > 0 {
      NormalisedAttrsAt(attrs[1..], i - 1);
      assert attrs[1..][i - 1] == attrs[i];
      assert NormalisedAttrs(attrs)[i] == tail[i - 1];
    }
  }

  /** The normalised attributes in emitted order (the `sort`). */
  function SortedAttrs(attrs: seq<Attr>): (r: seq<Ranked>)
    ensures |r| == |attrs|
  {
    Sort(Ranks(NormalisedAttrs(attrs)))
  }

  /** `name="value"` for each entry (the last `map`). */
  function Rendered(s: seq<Ranked>): (r: seq<string>)
    ensures |r| == |s|
  {
    if s == [] then [] else [s[0].attr.name + "=\"" + s[0].attr.value + "\""] + Rendered(s[1..])
  }

  /** `sortAttributes(element)`. */
  function SortAttributes(attrs: seq<Attr>): (r: seq<string>)
    ensures |r| == |attrs|
  {
    Rendered(SortedAttrs(attrs))
  }

  /** The emitted attributes are exactly the element's attributes with normalised values
      (a permutation of them), listed names first in `attributeOrder` order and the
      others after them in alphabetical order. */
  lemma EmittedAttributes(attrs: seq<Attr>)
    ensures var r := SortedAttrs(attrs);
      multiset(r) == multiset(Ranks(NormalisedAttrs(attrs))) &&
      forall i, j :: 0 <= i < j < |r| ==>
        (OrderIndex(r[j].attr.name) >= 0 ==>
           0 <= OrderIndex(r[i].attr.name) <= OrderIndex(r[j].attr.name)) &&
        (OrderIndex(r[i].attr.name) == -1 && OrderIndex(r[j].attr.name) == -1 ==>
           LexLe(r[i].attr.name, r[j].attr.name))
  {
    var s := Ranks(NormalisedAttrs(attrs));
    assert SortedAttrs(attrs) == Sort(s);
    SortedLayout(NormalisedAttrs(attrs));
  }

  // ---------------------------------------------------------------------------
  // serializeNode

  /** `"  ".repeat(depth)`. */
  function Indent(depth: nat): (r: string)
    ensures |r| == 2 * depth && forall i :: 0 <= i < |r| ==> r[i] == ' '
  {
    var r := Text.Repeat("  ", depth);
    assert forall i :: 0 <= i < |r| ==> r[i] == ' ' by {
      forall i | 0 <= i < |r|
        ensures r[i] == ' '
      {
        Text.RepeatAt("  ", depth, i);
      }
    }
    r
  }

  /** `attrString`: a space and the sorted attributes joined by spaces, or nothing. */
  function AttributeText(attrs: seq<Attr>): string {
    var a := SortAttributes(attrs);
    if a == [] then "" else " " + Text.Join(a, " ")
  }

  /** The lines `serializeNode(node, depth, lines)` appends. */
  function NodeLines(node: Node, depth: nat): seq<string>
    decreases node
  {
    match node
    case Text(content) =>
      var value := Text.Trim(content);
      if value == [] then [] else [Indent(depth) + value]
    case Other => []
    case Element(tag, attrs, children) =>
      if children == [] then [Indent(depth) + ("<" + tag + AttributeText(attrs) + " />")]
      else
        [Indent(depth) + ("<" + tag + AttributeText(attrs) + ">")] +
        ChildLines(children, depth + 1) +
        [Indent(depth) + ("</" + tag + ">")]
  }

  /** The lines of a child list, each child at `depth`, in order. */
  function ChildLines(nodes: seq<Node>, depth: nat): seq<string>
    decreases nodes
  {
    if nodes == [] then [] else NodeLines(nodes[0], depth) + ChildLines(nodes[1..], depth)
  }

  /** The line starts with at least `depth` levels of indentation. */
  predicate IndentedBy(line: string, depth: nat) {
    |line| > 2 * depth && forall i :: 0 <= i < 2 * depth ==> line[i] == ' '
  }

  /** The line is indented by exactly `depth` levels. */
  predicate AtDepth(line: string, depth: nat) {
    IndentedBy(line, depth) && line[2 * depth] != ' '
  }

  lemma DeeperIndented(line: string, depth: nat)
    requires IndentedBy(line, depth + 1)
    ensures IndentedBy(line, depth)
  {
  }

  lemma IndentLine(depth: nat, x: string)
    requires x != [] && x[0] != ' '
    ensures AtDepth(Indent(depth) + x, depth)
  {
    var line := Indent(depth) + x;
    assert line[2 * depth] == x[0];
    forall i | 0 <= i < 2 * depth
      ensures line[i] == ' '
    {
      assert line[i] == Indent(depth)[i];
    }
  }

  predicate AllIndentedBy(ls: seq<string>, depth: nat) {
    forall k :: 0 <= k < |ls| ==> IndentedBy(ls[k], depth)
  }

  /** An open line, deeper lines and a close line, as an element with children prints. */
  lemma FramedIndented(open: string, inner: seq<string>, close: string, depth: nat)
    requires AtDepth(open, depth) && AtDepth(close, depth) && AllIndentedBy(inner, depth + 1)
    ensures var ls := [open] + inner + [close];
      AllIndentedBy(ls, depth) && AtDepth(ls[0], depth) && AtDepth(ls[|ls| - 1], depth)
  {
    var ls := [open] + inner + [close];
    forall k | 0 <= k < |ls|
      ensures IndentedBy(ls[k], depth)
    {
      if 0 < k < |ls| - 1 {
        assert ls[k] == inner[k - 1];
        DeeperIndented(inner[k - 1], depth);
      }
    }
  }

  lemma ConcatIndented(head: seq<string>, rest: seq<string>, depth: nat)
    requires AllIndentedBy(head, depth) && AllIndentedBy(rest, depth)
    ensures AllIndentedBy(head + rest, depth)
  {
    forall k | 0 <= k < |head| + |rest|
      ensures IndentedBy((head + rest)[k], depth)
    {
      if k >= |head| {
        assert (head + rest)[k] == rest[k - |head|];
      } else {
        assert (head + rest)[k] == head[k];
      }
    }
  }

  /** Every line of a node sits at least at its depth; its first and last lines sit
      exactly at its depth (the text, the element line, or the open and close lines). */
  lemma {:induction false} NodeLinesIndented(node: Node, depth: nat)
    ensures var ls := NodeLines(node, depth);
      AllIndentedBy(ls, depth) && (ls != [] ==> AtDepth(ls[0], depth) && AtDepth(ls[|ls| - 1], depth))
    decreases node, 1
  {
    match node
    case Text(content) =>
      var value := Text.Trim(content);
      if value != [] {
        IndentLine(depth, value);
      }
    case Other =>
    case Element(tag, attrs, children) =>
      var open := "<" + tag + AttributeText(attrs);
      assert open[0] == '<';
      if children == [] {
        IndentLine(depth, open + " />");
      } else {
        var first := Indent(depth) + (open + ">");
        var last := Indent(depth) + ("</" + tag + ">");
        IndentLine(depth, open + ">");
        IndentLine(depth, "</" + tag + ">");
        var inner := ChildLines(children, depth + 1);
        ChildLinesIndented(children, depth + 1);
        FramedIndented(first, inner, last, depth);
        assert NodeLines(node, depth) == [first] + inner + [last];
      }
  }

  lemma {:induction false} ChildLinesIndented(nodes: seq<Node>, depth: nat)
    ensures AllIndentedBy(ChildLines(nodes, depth), depth)
    decreases nodes, 0
  {
    if nodes != [] {
      NodeLinesIndented(nodes[0], depth);
      ChildLinesIndented(nodes[1..], depth);
      ConcatIndented(NodeLines(nodes[0], depth), ChildLines(nodes[1..], depth), depth);
    }
  }

  /** A text node prints its trimmed content after the indentation, or nothing when that
      is empty; any other non-element node prints nothing. */
  lemma TextLines(content: string, depth: nat)
    ensures var ls := NodeLines(Node.Text(content), depth);
      (ls == [] <==> Text.Trim(content) == []) &&
      (ls != [] ==> |ls| == 1 && ls[0][2 * depth..] == Text.Trim(content))
    ensures NodeLines(Other, depth) == []
  {
    var v := Text.Trim(content);
    if v != [] {
      assert (Indent(depth) + v)[2 * depth..] == v;
    }
  }

  /** A childless element is one self-closing line; an element with children is its open
      line, its children's lines one level deeper, and a close line. */
  lemma ElementShape(tag: string, attrs: seq<Attr>, children: seq<Node>, depth: nat)
    ensures var ls := NodeLines(Element(tag, attrs, children), depth);
      (children == [] ==>
         |ls| == 1 && ls[0][2 * depth..] == "<" + tag + AttributeText(attrs) + " />") &&
      (children != [] ==>
         |ls| == 2 + |ChildLines(children, depth + 1)| &&
         ls[0][2 * depth..] == "<" + tag + AttributeText(attrs) + ">" &&
         ls[1..|ls| - 1] == ChildLines(children, depth + 1) &&
         ls[|ls| - 1][2 * depth..] == "</" + tag + ">")
  {
    var open := "<" + tag + AttributeText(attrs);
    if children == [] {
      assert (Indent(depth) + (open + " />"))[2 * depth..] == open + " />";
    } else {
      var first := Indent(depth) + (open + ">");
      var last := Indent(depth) + ("</" + tag + ">");
      var inner := ChildLines(children, depth + 1);
      var ls := [first] + inner + [last];
      assert NodeLines(Element(tag, attrs, children), depth) == ls;
      assert first[2 * depth..] == open + ">";
      assert last[2 * depth..] == "</" + tag + ">";
      assert ls[1..|ls| - 1] == inner;
    }
  }

  // ---------------------------------------------------------------------------
  // normalizeSvg

  /** `normalizeSvg(innerMarkup)`; `parsed` is the parser's verdict on the markup wrapped
      in `<svg><g>...</g></svg>`, its nodes the children of the `<svg>` element. */
  function NormalizedSvg(innerMarkup: string, parsed: Parsed): string {
    var trimmed := Text.Trim(innerMarkup);
    if trimmed == [] then ""
    else
      match parsed
      case ParseError(_) => trimmed
      case Parsed(nodes) =>
        (match FirstElement(nodes)
         case None => trimmed
         case Some(container) => Text.Join(ChildLines(container.children, 1), "\n"))
  }

  /** Blank input gives the empty string; when the markup does not parse or has no
      container the trimmed input comes back unchanged. */
  lemma NormalizeFallbacks(innerMarkup: string, parsed: Parsed)
    ensures Text.Trim(innerMarkup) == [] ==> NormalizedSvg(innerMarkup, parsed) == ""
    ensures Text.Trim(innerMarkup) != [] && (parsed.ParseError? || FirstElement(parsed.nodes).None?) ==>
      NormalizedSvg(innerMarkup, parsed) == Text.Trim(innerMarkup)
  {
  }

  /** Otherwise the output is the container's child lines, the top-level nodes at depth 1. */
  lemma NormalizeLines(innerMarkup: string, nodes: seq<Node>)
    requires Text.Trim(innerMarkup) != [] && FirstElement(nodes).Some?
    ensures var lines := ChildLines(FirstElement(nodes).value.children, 1);
      NormalizedSvg(innerMarkup, Parsed(nodes)) == Text.Join(lines, "\n") &&
      AllIndentedBy(lines, 1)
  {
    ChildLinesIndented(FirstElement(nodes).value.children, 1);
  }

  // ---------------------------------------------------------------------------
  // The imperative form: one shared list of lines

  /** `serializeNode(node, depth, lines)`: appends the node's lines. */
  method SerializeNode(node: Node, depth: nat, lines: seq<string>) returns (out: seq<string>)
    ensures out == lines + NodeLines(node, depth)
    decreases node
  {
    match node {
      case Text(content) =>
        var value := Text.Trim(content);
        if value != [] {
          return lines + [Indent(depth) + value];
        }
        return lines;
      case Other =>
        return lines;
      case Element(tag, attrs, children) =>
        out := SerializeElement(tag, attrs, children, depth, lines);
    }
  }

  /** The element branch of `serializeNode`. */
  method SerializeElement(tag: string, attrs: seq<Attr>, children: seq<Node>, depth: nat, lines: seq<string>)
    returns (out: seq<string>)
    ensures out == lines + NodeLines(Element(tag, attrs, children), depth)
    decreases children, 1
  {
    var indent := Indent(depth);
    var attrString := AttributeText(attrs);
    if |children| == 0 {
      return lines + [indent + ("<" + tag + attrString + " />")];
    }
    var open := indent + ("<" + tag + attrString + ">");
    var close := indent + ("</" + tag + ">");
    out := lines + [open];
    var i := 0;
    while i < |children|
      invariant 0 <= i <= |children|
      invariant out + ChildLines(children[i..], depth + 1) == lines + [open] + ChildLines(children, depth + 1)
    {
      ChildLinesStep(children, i, depth + 1);
      var before := out;
      out := SerializeNode(children[i], depth + 1, out);
      Text.AppendAssoc(before, NodeLines(children[i], depth + 1), ChildLines(children[i + 1..], depth + 1));
      i := i + 1;
    }
    assert children[i..] == [];
    ElementLines(tag, attrs, children, depth, lines, out);
    out := out + [close];
  }

  lemma ChildLinesStep(nodes: seq<Node>, i: nat, depth: nat)
    requires i < |nodes|
    ensures ChildLines(nodes[i..], depth) == NodeLines(nodes[i], depth) + ChildLines(nodes[i + 1..], depth)
  {
    assert nodes[i..][0] == nodes[i] && nodes[i..][1..] == nodes[i + 1..];
  }

  /** The open line and the children's lines, closed, are the element's lines. */
  lemma ElementLines(tag: string, attrs: seq<Attr>, children: seq<Node>, depth: nat,
                     lines: seq<string>, body: seq<string>)
    requires children != []
    requires body == lines + [Indent(depth) + ("<" + tag + AttributeText(attrs) + ">")] +
      ChildLines(children, depth + 1)
    ensures body + [Indent(depth) + ("</" + tag + ">")] == lines + NodeLines(Element(tag, attrs, children), depth)
  {
    var open := Indent(depth) + ("<" + tag + AttributeText(attrs) + ">");
    var close := Indent(depth) + ("</" + tag + ">");
    var inner := ChildLines(children, depth + 1);
    assert NodeLines(Element(tag, attrs, children), depth) == [open] + inner + [close];
    Text.AppendAssoc(lines, [open], inner);
    Text.AppendAssoc(lines, [open] + inner, [close]);
  }

  /** `normalizeSvg(innerMarkup)`. */
  method NormalizeSvg(innerMarkup: string, parsed: Parsed) returns (r: string)
    ensures r == NormalizedSvg(innerMarkup, parsed)
  {
    var trimmed := Text.Trim(innerMarkup);
    if trimmed == [] {
      return "";
    }
    if parsed.ParseError? {
      return trimmed;
    }
    var container := FirstElement(parsed.nodes);
    if container.None? {
      return trimmed;
    }
    var children := container.value.children;
    var lines: seq<string> := [];
    var i := 0;
    while i < |children|
      invariant 0 <= i <= |children|
      invariant lines + ChildLines(children[i..], 1) == ChildLines(children, 1)
    {
      ChildLinesStep(children, i, 1);
      var before := lines;
      lines := SerializeNode(children[i], 1, lines);
      Text.AppendAssoc(before, NodeLines(children[i], 1), ChildLines(children[i + 1..], 1));
      i := i + 1;
    }
    assert children[i..] == [];
    assert lines == ChildLines(children, 1);
    assert parsed == Parsed(parsed.nodes);
    NormalizeLines(innerMarkup, parsed.nodes);
    return Text.Join(lines, "\n");
  }
}
