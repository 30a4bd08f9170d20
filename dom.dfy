/**
  The parsed markup trees the sanitizer, the normalizer and the differ work on.
  Parsing (`DOMParser`) happens outside the model: an operation that parses
  takes the parser's verdict as a `Parsed` value next to the raw text.
 */
module Dom {
  import opened Wrappers

  datatype Attr = Attr(name: string, value: string)

  /** An element, a text node, or any other node kind (comment, CDATA section,
      processing instruction), which every operation here skips. */
  datatype Node =
    | Element(tag: string, attrs: seq<Attr>, children: seq<Node>)
    | Text(content: string)
    | Other

  /** What the parser returned: a `parsererror` with its text, or the top-level nodes. */
  datatype Parsed = ParseError(details: string) | Parsed(nodes: seq<Node>)

  function Names(attrs: seq<Attr>): (r: seq<string>)
    ensures |r| == |attrs|
    ensures forall i :: 0 <= i < |attrs| ==> r[i] == attrs[i].name
  {
    if attrs == [] then [] else [attrs[0].name] + Names(attrs[1..])
  }

  /** A DOM element never carries two attributes with the same name. */
  predicate DistinctNames(attrs: seq<Attr>) {
    forall i, j :: 0 <= i < j < |attrs| ==> attrs[i].name != attrs[j].name
  }

  /** `getAttribute(name)`: the value of the attribute called `name`, if any. */
  function GetAttribute(attrs: seq<Attr>, name: string): (r: Option<string>)
    ensures r.None? <==> forall i :: 0 <= i < |attrs| ==> attrs[i].name != name
    ensures r.Some? ==> exists i :: 0 <= i < |attrs| && attrs[i] == Attr(name, r.value)
  {
    if attrs == [] then None
    else if attrs[0].name == name then Some(attrs[0].value)
    else GetAttribute(attrs[1..], name)
  }

  /** The position of the first element among `nodes`, or `|nodes|` when there is none. */
  function FirstElementIndex(nodes: seq<Node>): (i: nat)
    ensures i <= |nodes| && (i < |nodes| ==> nodes[i].Element?)
    ensures forall j :: 0 <= j < i ==> !nodes[j].Element?
  {
    if nodes == [] || nodes[0].Element? then 0 else 1 + FirstElementIndex(nodes[1..])
  }

  /** `firstElementChild`: the first element among `nodes`. */
  function FirstElement(nodes: seq<Node>): Option<Node> {
    var i := FirstElementIndex(nodes);
    if i < |nodes| then Some(nodes[i]) else None
  }

  /** The element children of a node list, in order (`filter` on `ELEMENT_NODE`). */
  function Elements(nodes: seq<Node>): (r: seq<Node>)
    ensures |r| <= |nodes|
    ensures forall i :: 0 <= i < |r| ==> r[i].Element? && r[i] in nodes
  {
    if nodes == [] then []
    else if nodes[0].Element? then [nodes[0]] + Elements(nodes[1..])
    else Elements(nodes[1..])
  }

  /** Filtering to elements keeps exactly the element nodes. */
  lemma {:induction false} ElementsMembers(nodes: seq<Node>)
    ensures forall n :: n in Elements(nodes) <==> n in nodes && n.Element?
  {
    if nodes != [] {
      ElementsMembers(nodes[1..]);
      assert forall n :: n in nodes <==> n == nodes[0] || n in nodes[1..];
    }
  }

  /** Filtering commutes with concatenation, so element order is kept. */
  lemma {:induction false} ElementsAppend(a: seq<Node>, b: seq<Node>)
    ensures Elements(a + b) == Elements(a) + Elements(b)
  {
    if a != [] {
      assert (a + b)[1..] == a[1..] + b;
      ElementsAppend(a[1..], b);
    } else {
      assert a + b == b;
    }
  }
}
