/**
  The tree differ: it reconciles the live children of a rendered group with
  the element children of freshly parsed markup.  Children are matched by a
  key (`#id`, or `tag:n` for the n-th anonymous element of that tag); a
  matched live element is updated in place, an unmatched incoming element
  is cloned in, an unclaimed live element is removed, and the group's
  children are then rebuilt in incoming order.
 */
module Diff {
  import opened Wrappers
  import opened Dom
  import Numbers

  // ---------------------------------------------------------------------------
  // Keys
  // ---------------------------------------------------------------------------

  /** What `computeKey` looks at: the tag, and the `id` attribute ("" when absent). */
  datatype Head = Head(tag: string, id: string)

  function IdOf(attrs: seq<Attr>): string {
    match GetAttribute(attrs, "id")
    case Some(v) => v
    case None => ""
  }

  function HeadOf(n: Node): Head
    requires n.Element?
  {
    Head(n.tag, IdOf(n.attrs))
  }

  predicate AllElements(ns: seq<Node>) {
    forall i :: 0 <= i < |ns| ==> ns[i].Element?
  }

  function Heads(ns: seq<Node>): (r: seq<Head>)
    requires AllElements(ns)
    ensures |r| == |ns|
  {
    if ns == [] then [] else Heads(ns[..|ns| - 1]) + [HeadOf(ns[|ns| - 1])]
  }

  lemma {:induction false} HeadsAt(ns: seq<Node>, i: nat)
    requires AllElements(ns) && i < |ns|
    ensures Heads(ns)[i] == HeadOf(ns[i])
  {
    var n := |ns| - 1;
    if i < n {
      HeadsAt(ns[..n], i);
    }
  }

  /** How many of `hs` are anonymous elements with tag `tag`: the counter `computeKey` reads. */
  function AnonCount(hs: seq<Head>, tag: string): nat {
    if hs == [] then 0
    else
      var last := hs[|hs| - 1];
      AnonCount(hs[..|hs| - 1], tag) + (if last.id == "" && last.tag == tag then 1 else 0)
  }

  /** The key of an element after `count` anonymous siblings of the same tag. */
  function KeyOf(h: Head, count: nat): string {
    if h.id != "" then "#" + h.id else h.tag + ":" + Numbers.NatDigits(count)
  }

  /** The keys `computeKey` hands out, one fresh counter map per list. */
  function Keys(hs: seq<Head>): (r: seq<string>)
    ensures |r| == |hs|
  {
    if hs == [] then []
    else
      var n := |hs| - 1;
      Keys(hs[..n]) + [KeyOf(hs[n], AnonCount(hs[..n], hs[n].tag))]
  }

  lemma {:induction false} KeyAt(hs: seq<Head>, i: nat)
    requires i < |hs|
    ensures Keys(hs)[i] == KeyOf(hs[i], AnonCount(hs[..i], hs[i].tag))
  {
    var n := |hs| - 1;
    if i < n {
      KeyAt(hs[..n], i);
      assert hs[..n][..i] == hs[..i];
    }
  }

  lemma {:induction false} KeysPrefix(hs: seq<Head>, i: nat)
    requires i <= |hs|
    ensures Keys(hs)[..i] == Keys(hs[..i])
  {
    if i < |hs| {
      var n := |hs| - 1;
      KeysPrefix(hs[..n], i);
      assert hs[..n][..i] == hs[..i];
      assert Keys(hs)[..i] == Keys(hs[..n])[..i];
    } else {
      assert hs[..i] == hs;
    }
  }

  /** An element with an id does not advance its tag's counter; an anonymous one advances only its own. */
  lemma AnonCountStep(hs: seq<Head>, h: Head, tag: string)
    ensures AnonCount(hs + [h], tag) == AnonCount(hs, tag) + (if h.id == "" && h.tag == tag then 1 else 0)
  {
    assert (hs + [h])[..|hs|] == hs;
  }

  lemma {:induction false} AnonCountGrows(hs: seq<Head>, i: nat, j: nat, tag: string)
    requires i < j <= |hs| && hs[i].id == "" && hs[i].tag == tag
    ensures AnonCount(hs[..j], tag) > AnonCount(hs[..i], tag)
  {
    if j == i + 1 {
      assert hs[..j][..i] == hs[..i];
    } else {
      AnonCountGrows(hs, i, j - 1, tag);
      assert hs[..j][..j - 1] == hs[..j - 1];
    }
  }

  /** `computeKey` (diff.ts:55-64): `#id` for an element with a non-empty id,
      otherwise `tag:n` with n the number of earlier anonymous elements of that tag. */
  lemma KeyShape(hs: seq<Head>, i: nat)
    requires i < |hs|
    ensures hs[i].id != "" ==> Keys(hs)[i] == "#" + hs[i].id
    ensures hs[i].id == "" ==>
      Keys(hs)[i] == hs[i].tag + ":" + Numbers.NatDigits(|set j | 0 <= j < i && hs[j].id == "" && hs[j].tag == hs[i].tag|)
  {
    KeyAt(hs, i);
    if hs[i].id == "" {
      AnonCountIsSize(hs[..i], hs[i].tag);
      assert AnonIndices(hs[..i], hs[i].tag)
          == (set j | 0 <= j < i && hs[j].id == "" && hs[j].tag == hs[i].tag);
    }
  }

  /** The positions of the anonymous elements of `tag`. */
  ghost function AnonIndices(hs: seq<Head>, tag: string): set<int> {
    set j | 0 <= j < |hs| && hs[j].id == "" && hs[j].tag == tag
  }

  lemma AnonIndicesSnoc(hs: seq<Head>, tag: string)
    requires hs != []
    ensures var n := |hs| - 1;
      AnonIndices(hs, tag) == AnonIndices(hs[..n], tag) + (if hs[n].id == "" && hs[n].tag == tag then {n} else {}) &&
      n !in AnonIndices(hs[..n], tag)
  {
    var n := |hs| - 1;
    var p := hs[..n];
    var extra: set<int> := if hs[n].id == "" && hs[n].tag == tag then {n} else {};
    forall j | j in AnonIndices(hs, tag) ensures j in AnonIndices(p, tag) + extra {
      if j < n { assert p[j] == hs[j]; }
    }
    forall j | j in AnonIndices(p, tag) ensures j in AnonIndices(hs, tag) {
      assert p[j] == hs[j];
    }
  }

  lemma {:induction false} AnonCountIsSize(hs: seq<Head>, tag: string)
    ensures AnonCount(hs, tag) == |AnonIndices(hs, tag)|
  {
    if hs != [] {
      var n := |hs| - 1;
      AnonCountIsSize(hs[..n], tag);
      AnonIndicesSnoc(hs, tag);
    }
  }

  /** Two anonymous elements of the same tag never share a key. */
  lemma OrdinalKeysDistinct(hs: seq<Head>, i: nat, j: nat)
    requires i < j < |hs|
    requires hs[i].id == "" && hs[j].id == "" && hs[i].tag == hs[j].tag
    ensures Keys(hs)[i] != Keys(hs)[j]
  {
    KeyAt(hs, i);
    KeyAt(hs, j);
    var t := hs[i].tag;
    var a := AnonCount(hs[..i], t);
    var b := AnonCount(hs[..j], t);
    AnonCountGrows(hs, i, j, t);
    var pre := t + ":";
    assert Numbers.NatDigits(a) == (pre + Numbers.NatDigits(a))[|pre|..];
    assert Numbers.NatDigits(b) == (pre + Numbers.NatDigits(b))[|pre|..];
  }

  function CountOf(counters: map<string, nat>, tag: string): nat {
    if tag in counters then counters[tag] else 0
  }

  /** The counter map `computeKey` has built after the elements `hs`: one entry per
      tag met on an element without an id. */
  function Counts(hs: seq<Head>): map<string, nat> {
    if hs == [] then map[]
    else
      var m := Counts(hs[..|hs| - 1]);
      var last := hs[|hs| - 1];
      if last.id == "" then m[last.tag := CountOf(m, last.tag) + 1] else m
  }

  /** Each counter holds the number of anonymous elements of its tag seen so far. */
  lemma {:induction false} CountsAgree(hs: seq<Head>, tag: string)
    ensures CountOf(Counts(hs), tag) == AnonCount(hs, tag)
  {
    if hs != [] {
      CountsAgree(hs[..|hs| - 1], tag);
    }
  }

  /** `computeKey` (diff.ts:55-64) on the i-th element of `hs`, with the counter map
      threaded through by value: the key is the one `Keys` assigns, and the counters
      move on past that element. */
  method ComputeKey(tag: string, attrs: seq<Attr>, counters: map<string, nat>, ghost hs: seq<Head>, ghost i: nat)
    returns (key: string, next: map<string, nat>)
    requires i < |hs| && hs[i] == Head(tag, IdOf(attrs))
    requires counters == Counts(hs[..i])
    ensures key == Keys(hs)[i]
    ensures next == Counts(hs[..i + 1])
  {
    assert hs[..i + 1][..i] == hs[..i];
    KeyAt(hs, i);
    CountsAgree(hs[..i], tag);
    var id := IdOf(attrs);
    if id != "" {
      return "#" + id, counters;
    }
    var count := CountOf(counters, tag);
    next := counters[tag := count + 1];
    key := tag + ":" + Numbers.NatDigits(count);
  }

  // ---------------------------------------------------------------------------
  // Attributes
  // ---------------------------------------------------------------------------

  /** `setAttribute`: a present attribute keeps its place and takes the new value; a new one goes last. */
  function SetAttr(attrs: seq<Attr>, name: string, value: string): (r: seq<Attr>)
    ensures GetAttribute(r, name) == Some(value)
    ensures forall n :: n != name ==> GetAttribute(r, n) == GetAttribute(attrs, n)
  {
    if attrs == [] then [Attr(name, value)]
    else if attrs[0].name == name then [Attr(name, value)] + attrs[1..]
    else [attrs[0]] + SetAttr(attrs[1..], name, value)
  }

  /** `removeAttribute`: every attribute called `name` goes. */
  function RemoveAttr(attrs: seq<Attr>, name: string): seq<Attr> {
    if attrs == [] then []
    else (if attrs[0].name == name then [] else [attrs[0]]) + RemoveAttr(attrs[1..], name)
  }

  /** `removeAttribute` drops exactly the attributes of that name. */
  lemma {:induction false} RemoveAttrMembers(attrs: seq<Attr>, name: string)
    ensures forall a :: a in RemoveAttr(attrs, name) <==> a in attrs && a.name != name
  {
    if attrs != [] {
      RemoveAttrMembers(attrs[1..], name);
      assert forall a :: a in attrs <==> a == attrs[0] || a in attrs[1..];
    }
  }

  /** Setting a value an attribute already has changes nothing. */
  lemma SetAttrSame(attrs: seq<Attr>, name: string, value: string)
    requires GetAttribute(attrs, name) == Some(value)
    ensures SetAttr(attrs, name, value) == attrs
  {
  }

  lemma {:induction false} SetAttrDistinct(attrs: seq<Attr>, name: string, value: string)
    requires DistinctNames(attrs)
    ensures DistinctNames(SetAttr(attrs, name, value))
  {
    if attrs != [] && attrs[0].name != name {
      var rest := SetAttr(attrs[1..], name, value);
      SetAttrDistinct(attrs[1..], name, value);
      assert GetAttribute(attrs[1..], attrs[0].name) == None;
      assert GetAttribute(rest, attrs[0].name) == None;
      ConsDistinct(attrs[0], rest);
    }
  }

  lemma ConsDistinct(a: Attr, rest: seq<Attr>)
    requires DistinctNames(rest)
    requires forall i :: 0 <= i < |rest| ==> rest[i].name != a.name
    ensures DistinctNames([a] + rest)
  {
    var r := [a] + rest;
    forall i, j | 0 <= i < j < |r| ensures r[i].name != r[j].name {
      if i > 0 {
        assert r[i] == rest[i - 1] && r[j] == rest[j - 1];
      } else {
        assert r[j] == rest[j - 1];
      }
    }
  }

  /** With distinct names, membership is decided by looking the name up. */
  lemma {:induction false} MemberByName(attrs: seq<Attr>, a: Attr)
    requires DistinctNames(attrs)
    ensures a in attrs <==> GetAttribute(attrs, a.name) == Some(a.value)
  {
    if attrs != [] {
      assert DistinctNames(attrs[1..]) by {
        forall i, j | 0 <= i < j < |attrs[1..]| ensures attrs[1..][i].name != attrs[1..][j].name {
          assert attrs[1..][i] == attrs[i + 1] && attrs[1..][j] == attrs[j + 1];
        }
      }
      MemberByName(attrs[1..], a);
      if attrs[0].name == a.name && attrs[0] != a {
        forall i | 0 <= i < |attrs[1..]| ensures attrs[1..][i].name != a.name {
          assert attrs[1..][i] == attrs[i + 1];
        }
        assert a !in attrs[1..];
      }
    }
  }

  lemma {:induction false} SnocLookup(x: seq<Attr>, a: Attr, n: string)
    ensures GetAttribute(x + [a], n) == if GetAttribute(x, n).Some? then GetAttribute(x, n)
                                       else if a.name == n then Some(a.value) else None
  {
    if x == [] {
      assert x + [a] == [a];
    } else {
      assert (x + [a])[0] == x[0] && (x + [a])[1..] == x[1..] + [a];
      if x[0].name != n {
        SnocLookup(x[1..], a, n);
      }
    }
  }

  lemma {:induction false} FirstLookup(x: seq<Attr>, y: seq<Attr>, n: string)
    requires GetAttribute(x, n).Some?
    ensures GetAttribute(x + y, n) == GetAttribute(x, n)
  {
    if x[0].name != n {
      assert (x + y)[1..] == x[1..] + y;
      FirstLookup(x[1..], y, n);
    }
  }

  lemma {:induction false} SkipLookup(x: seq<Attr>, y: seq<Attr>, n: string)
    requires GetAttribute(x, n).None?
    ensures GetAttribute(x + y, n) == GetAttribute(y, n)
  {
    if x != [] {
      assert (x + y)[1..] == x[1..] + y;
      SkipLookup(x[1..], y, n);
    } else {
      assert x + y == y;
    }
  }

  /** The attributes after the assigning loop of `updateElement` (diff.ts:70-77). */
  function Assigned(t: seq<Attr>, s: seq<Attr>): seq<Attr> {
    if s == [] then t
    else
      var k := |s| - 1;
      SetAttr(Assigned(t, s[..k]), s[k].name, s[k].value)
  }

  /** Whether some step of the assigning loop found a different value, or none. */
  function SetChanged(t: seq<Attr>, s: seq<Attr>): bool {
    if s == [] then false
    else
      var k := |s| - 1;
      SetChanged(t, s[..k]) || GetAttribute(Assigned(t, s[..k]), s[k].name) != Some(s[k].value)
  }

  function NameSet(s: seq<Attr>): set<string> {
    set a | a in s :: a.name
  }

  /** The attributes `names` keeps, in order. */
  function Kept(attrs: seq<Attr>, names: set<string>): (r: seq<Attr>)
    ensures forall a :: a in r <==> a in attrs && a.name in names
  {
    if attrs == [] then []
    else (if attrs[0].name in names then [attrs[0]] else []) + Kept(attrs[1..], names)
  }

  predicate Stale(attrs: seq<Attr>, names: set<string>) {
    exists a :: a in attrs && a.name !in names
  }

  /** The attribute list `updateElement` leaves: values assigned from the source, the rest removed. */
  function NewAttrs(t: seq<Attr>, s: seq<Attr>): seq<Attr> {
    Kept(Assigned(t, s), NameSet(s))
  }

  /** Whether `updateElement` touched an attribute: a value set or an attribute removed. */
  predicate AttrsChanged(t: seq<Attr>, s: seq<Attr>) {
    SetChanged(t, s) || Stale(Assigned(t, s), NameSet(s))
  }

  /** The two attribute lists hold the same name/value pairs. */
  ghost predicate SameAttrs(t: seq<Attr>, s: seq<Attr>) {
    forall a :: a in t <==> a in s
  }

  lemma DistinctPrefix(s: seq<Attr>, k: nat)
    requires DistinctNames(s) && k <= |s|
    ensures DistinctNames(s[..k])
    ensures forall i :: 0 <= i < k ==> s[..k][i] == s[i]
  {
  }

  /** After the assigning loop, every source name reads the source's value and every other name is untouched. */
  lemma LastLookup(s: seq<Attr>, n: string)
    requires s != []
    ensures GetAttribute(s, n) == if GetAttribute(s[..|s| - 1], n).Some? then GetAttribute(s[..|s| - 1], n)
                                  else if s[|s| - 1].name == n then Some(s[|s| - 1].value) else None
  {
    assert s == s[..|s| - 1] + [s[|s| - 1]];
    SnocLookup(s[..|s| - 1], s[|s| - 1], n);
  }

  lemma LastNameFresh(s: seq<Attr>)
    requires s != [] && DistinctNames(s)
    ensures DistinctNames(s[..|s| - 1])
    ensures GetAttribute(s[..|s| - 1], s[|s| - 1].name) == None
  {
  }

  lemma {:induction false} AssignedReads(t: seq<Attr>, s: seq<Attr>, n: string)
    requires DistinctNames(s)
    ensures GetAttribute(Assigned(t, s), n) == if GetAttribute(s, n).Some? then GetAttribute(s, n) else GetAttribute(t, n)
  {
    if s != [] {
      LastNameFresh(s);
      AssignedReads(t, s[..|s| - 1], n);
      LastLookup(s, n);
    }
  }

  lemma {:induction false} AssignedDistinct(t: seq<Attr>, s: seq<Attr>)
    requires DistinctNames(t)
    ensures DistinctNames(Assigned(t, s))
  {
    if s != [] {
      var k := |s| - 1;
      AssignedDistinct(t, s[..k]);
      SetAttrDistinct(Assigned(t, s[..k]), s[k].name, s[k].value);
    }
  }

  lemma KeptDistinct(attrs: seq<Attr>, names: set<string>)
    requires DistinctNames(attrs)
    ensures DistinctNames(Kept(attrs, names))
  {
    if attrs != [] {
      var r := Kept(attrs[1..], names);
      assert DistinctNames(attrs[1..]);
      KeptDistinct(attrs[1..], names);
      forall i | 0 <= i < |r| ensures r[i].name != attrs[0].name {
        assert r[i] in attrs[1..];
      }
      ConsDistinct(attrs[0], r);
    }
  }

  /** The attributes `updateElement` leaves are exactly the source's (diff.ts:70-84). */
  lemma NewAttrsMirrorSource(t: seq<Attr>, s: seq<Attr>)
    requires DistinctNames(t) && DistinctNames(s)
    ensures DistinctNames(NewAttrs(t, s))
    ensures SameAttrs(NewAttrs(t, s), s)
  {
    var x := Assigned(t, s);
    AssignedDistinct(t, s);
    KeptDistinct(x, NameSet(s));
    forall a ensures a in NewAttrs(t, s) <==> a in s {
      MemberByName(x, a);
      MemberByName(s, a);
      AssignedReads(t, s, a.name);
    }
  }

  /** The assigning loop sets nothing exactly when every source attribute is already present. */
  lemma {:induction false} QuietAssign(t: seq<Attr>, s: seq<Attr>)
    requires DistinctNames(t)
    ensures !SetChanged(t, s) <==> forall a :: a in s ==> a in t
    ensures !SetChanged(t, s) ==> Assigned(t, s) == t
  {
    if s != [] {
      var k := |s| - 1;
      QuietAssign(t, s[..k]);
      assert s == s[..k] + [s[k]];
      MemberByName(t, s[k]);
      if !SetChanged(t, s[..k]) && s[k] in t {
        SetAttrSame(t, s[k].name, s[k].value);
      }
    }
  }

  /** `updateElement` reports an attribute change exactly when the attribute sets differ. */
  lemma AttrsChangedIff(t: seq<Attr>, s: seq<Attr>)
    requires DistinctNames(t) && DistinctNames(s)
    ensures AttrsChanged(t, s) <==> !SameAttrs(t, s)
  {
    QuietAssign(t, s);
    if SameAttrs(t, s) {
      assert !Stale(t, NameSet(s)) by {
        forall a | a in t ensures a.name in NameSet(s) {
          assert a in s;
        }
      }
    }
    if !AttrsChanged(t, s) {
      forall a | a in t ensures a in s {
        assert a.name in NameSet(s);
        var b :| b in s && b.name == a.name;
        MemberByName(t, a);
        MemberByName(t, b);
      }
    }
  }

  // ---------------------------------------------------------------------------
  // Child content
  // ---------------------------------------------------------------------------

  /** The three DOM serialisation services `updateElement` relies on: an element's
      `outerHTML`, a node list's `innerHTML`, and the parse an `innerHTML` assignment does. */
  datatype Markup = Markup(outerHtml: Node -> string, innerHtml: seq<Node> -> string, parse: string -> seq<Node>)

  /** One source child as `updateElement` serialises it: `outerHTML` for an element, the text otherwise. */
  function NodeMarkup(n: Node, mk: Markup): string {
    match n
    case Element(_, _, _) => mk.outerHtml(n)
    case Text(content) => content
    case Other => ""
  }

  /** The joined markup of the source's children (diff.ts:94-97). */
  function SourceMarkup(ns: seq<Node>, mk: Markup): string {
    if ns == [] then "" else NodeMarkup(ns[0], mk) + SourceMarkup(ns[1..], mk)
  }

  /** Whether `updateElement` rewrites the children of the live element. */
  predicate ContentChanged(c: seq<Node>, src: seq<Node>, mk: Markup) {
    if src == [] then c != [] else SourceMarkup(src, mk) != mk.innerHtml(c)
  }

  /** The children the live element has after `updateElement` (diff.ts:86-102). */
  function NewContent(c: seq<Node>, src: seq<Node>, mk: Markup): seq<Node> {
    if src == [] then []
    else if SourceMarkup(src, mk) != mk.innerHtml(c) then mk.parse(SourceMarkup(src, mk))
    else c
  }

  /** An empty source leaves the element empty; otherwise, when the DOM
      re-serialises what it parsed unchanged, the element's markup is the source's. */
  lemma ContentFollowsSource(c: seq<Node>, src: seq<Node>, mk: Markup)
    requires src != [] ==> mk.innerHtml(mk.parse(SourceMarkup(src, mk))) == SourceMarkup(src, mk)
    ensures src == [] ==> NewContent(c, src, mk) == []
    ensures src != [] ==> mk.innerHtml(NewContent(c, src, mk)) == SourceMarkup(src, mk)
    ensures !ContentChanged(NewContent(c, src, mk), src, mk)
    ensures ContentChanged(c, src, mk) <==> NewContent(c, src, mk) != c || (src != [] && mk.innerHtml(c) != SourceMarkup(src, mk))
  {
  }

  // ---------------------------------------------------------------------------
  // Live elements and updateElement
  // ---------------------------------------------------------------------------

  /** What a live element holds that `updateElement` can change. */
  datatype ElementState = ElementState(attrs: seq<Attr>, content: seq<Node>)

  /** Whether `updateElement(live, source)` returns true. */
  predicate Changed(st: ElementState, source: Node, mk: Markup)
    requires source.Element?
  {
    AttrsChanged(st.attrs, source.attrs) || ContentChanged(st.content, source.children, mk)
  }

  /** The state `updateElement(live, source)` leaves. */
  function Updated(st: ElementState, source: Node, mk: Markup): ElementState
    requires source.Element?
  {
    ElementState(NewAttrs(st.attrs, source.attrs), NewContent(st.content, source.children, mk))
  }

  /** An element in the live group: its tag is fixed, its attributes and children change in place. */
  class LiveElement {
    const tag: string
    var attrs: seq<Attr>
    var content: seq<Node>

    /** `cloneNode(true)` of an incoming element. */
    constructor Clone(n: Node)
      requires n.Element?
      ensures tag == n.tag && attrs == n.attrs && content == n.children
    {
      tag := n.tag;
      attrs := n.attrs;
      content := n.children;
    }

    function State(): ElementState
      reads this
    {
      ElementState(attrs, content)
    }

    method SetAttribute(name: string, value: string)
      modifies this
      ensures attrs == SetAttr(old(attrs), name, value) && content == old(content)
    {
      attrs := SetAttr(attrs, name, value);
    }

    method RemoveAttribute(name: string)
      modifies this
      ensures attrs == RemoveAttr(old(attrs), name) && content == old(content)
    {
      attrs := RemoveAttr(attrs, name);
    }

    /** Assigning `textContent` or `innerHTML`: the children are replaced wholesale. */
    method ReplaceContent(c: seq<Node>)
      modifies this
      ensures content == c && attrs == old(attrs)
    {
      content := c;
    }
  }

  /** What is left of `cur` after the removing loop has visited `p`: names outside `seen` are gone. */
  function Purged(cur: seq<Attr>, p: seq<Attr>, seen: set<string>): seq<Attr> {
    if p == [] then cur
    else
      var k := |p| - 1;
      var r := Purged(cur, p[..k], seen);
      if p[k].name in seen then r else RemoveAttr(r, p[k].name)
  }

  /** `cur` with the attributes dropped whose names are in `gone` and not in `seen`. */
  function Spared(cur: seq<Attr>, seen: set<string>, gone: set<string>): seq<Attr> {
    if cur == [] then []
    else (if cur[0].name in seen || cur[0].name !in gone then [cur[0]] else []) + Spared(cur[1..], seen, gone)
  }

  lemma SparedRemove(cur: seq<Attr>, seen: set<string>, gone: set<string>, n: string)
    requires n !in seen
    ensures RemoveAttr(Spared(cur, seen, gone), n) == Spared(cur, seen, gone + {n})
  {
    if cur != [] {
      SparedRemove(cur[1..], seen, gone, n);
      var head := if cur[0].name in seen || cur[0].name !in gone then [cur[0]] else [];
      RemoveAttrAppend(head, Spared(cur[1..], seen, gone), n);
    }
  }

  lemma {:induction false} RemoveAttrAppend(x: seq<Attr>, y: seq<Attr>, n: string)
    ensures RemoveAttr(x + y, n) == RemoveAttr(x, n) + RemoveAttr(y, n)
  {
    if x == [] {
      assert x + y == y;
    } else {
      assert (x + y)[0] == x[0] && (x + y)[1..] == x[1..] + y;
      RemoveAttrAppend(x[1..], y, n);
      var head := if x[0].name == n then [] else [x[0]];
      var a, b := RemoveAttr(x[1..], n), RemoveAttr(y, n);
      assert RemoveAttr(x + y, n) == head + (a + b);
      assert RemoveAttr(x, n) == head + a;
      assert head + (a + b) == (head + a) + b;
    }
  }

  lemma {:induction false} PurgedSpared(cur: seq<Attr>, p: seq<Attr>, seen: set<string>)
    ensures Purged(cur, p, seen) == Spared(cur, seen, NameSet(p))
  {
    if p == [] {
      assert NameSet(p) == {};
      SparedAll(cur, seen, {});
    } else {
      var k := |p| - 1;
      PurgedSpared(cur, p[..k], seen);
      assert p == p[..k] + [p[k]];
      assert NameSet(p) == NameSet(p[..k]) + {p[k].name};
      if p[k].name in seen {
        SparedSeen(cur, seen, NameSet(p[..k]), p[k].name);
      } else {
        SparedRemove(cur, seen, NameSet(p[..k]), p[k].name);
      }
    }
  }

  lemma SparedSeen(cur: seq<Attr>, seen: set<string>, gone: set<string>, n: string)
    requires n in seen
    ensures Spared(cur, seen, gone + {n}) == Spared(cur, seen, gone)
  {
  }

  lemma SparedAll(cur: seq<Attr>, seen: set<string>, gone: set<string>)
    requires gone == {}
    ensures Spared(cur, seen, gone) == cur
  {
  }

  lemma SparedKept(cur: seq<Attr>, seen: set<string>, gone: set<string>)
    requires forall a :: a in cur ==> a.name in gone
    ensures Spared(cur, seen, gone) == Kept(cur, seen)
  {
    if cur != [] {
      assert cur[0] in cur;
      SparedKept(cur[1..], seen, gone);
    }
  }

  lemma NameSetStep(s: seq<Attr>, i: nat)
    requires i < |s|
    ensures NameSet(s[..i + 1]) == NameSet(s[..i]) + {s[i].name}
  {
    assert s[..i + 1] == s[..i] + [s[i]];
  }

  /** The assigning loop of `updateElement` (diff.ts:68-77): every source attribute
      whose current value differs is set, and its name is recorded as seen. */
  method AssignAttributes(target: LiveElement, s: seq<Attr>) returns (seen: set<string>, changed: bool)
    modifies target
    ensures target.attrs == Assigned(old(target.attrs), s) && target.content == old(target.content)
    ensures seen == NameSet(s)
    ensures changed == SetChanged(old(target.attrs), s)
  {
    changed := false;
    seen := {};
    ghost var t := target.attrs;
    for i := 0 to |s|
      invariant target.attrs == Assigned(t, s[..i])
      invariant seen == NameSet(s[..i])
      invariant changed == SetChanged(t, s[..i])
      invariant target.content == old(target.content)
    {
      assert s[..i + 1][..i] == s[..i];
      NameSetStep(s, i);
      seen := seen + {s[i].name};
      var current := GetAttribute(target.attrs, s[i].name);
      if current != Some(s[i].value) {
        target.SetAttribute(s[i].name, s[i].value);
        changed := true;
      } else {
        SetAttrSame(target.attrs, s[i].name, s[i].value);
      }
    }
    assert s[..|s|] == s;
  }

  /** The removing loop of `updateElement` (diff.ts:79-84): over a snapshot of the
      attributes, every one whose name was not seen is removed. */
  method RemoveUnseen(target: LiveElement, seen: set<string>) returns (changed: bool)
    modifies target
    ensures target.attrs == Kept(old(target.attrs), seen) && target.content == old(target.content)
    ensures changed == Stale(old(target.attrs), seen)
  {
    changed := false;
    var snapshot := target.attrs;
    for i := 0 to |snapshot|
      invariant target.attrs == Purged(snapshot, snapshot[..i], seen)
      invariant changed == Stale(snapshot[..i], seen)
      invariant target.content == old(target.content)
    {
      assert snapshot[..i + 1][..i] == snapshot[..i];
      assert snapshot[..i + 1] == snapshot[..i] + [snapshot[i]];
      if snapshot[i].name !in seen {
        target.RemoveAttribute(snapshot[i].name);
        changed := true;
      }
    }
    assert snapshot[..|snapshot|] == snapshot;
    PurgedSpared(snapshot, snapshot, seen);
    SparedKept(snapshot, seen, NameSet(snapshot));
  }

  /** `updateElement` (diff.ts:66-105): assign the source's attributes, remove the
      others, then clear or rewrite the children; the result says whether anything changed. */
  method UpdateElement(target: LiveElement, source: Node, mk: Markup) returns (changed: bool)
    requires source.Element?
    modifies target
    ensures target.State() == Updated(old(target.State()), source, mk)
    ensures changed == Changed(old(target.State()), source, mk)
  {
    var seen, valueSet := AssignAttributes(target, source.attrs);
    var removed := RemoveUnseen(target, seen);
    changed := valueSet || removed;
    if source.children == [] {
      if target.content != [] {
        target.ReplaceContent([]);
        changed := true;
      }
      return;
    }
    var sourceMarkup := SourceMarkup(source.children, mk);
    if sourceMarkup != mk.innerHtml(target.content) {
      target.ReplaceContent(mk.parse(sourceMarkup));
      changed := true;
    }
  }

  /** A second `updateElement` with the same source changes nothing, when
      names are distinct and the DOM re-serialises what it parsed unchanged. */
  lemma UpdateSettles(st: ElementState, source: Node, mk: Markup)
    requires source.Element? && DistinctNames(st.attrs) && DistinctNames(source.attrs)
    requires source.children != [] ==>
      mk.innerHtml(mk.parse(SourceMarkup(source.children, mk))) == SourceMarkup(source.children, mk)
    ensures !Changed(Updated(st, source, mk), source, mk)
  {
    NewAttrsMirrorSource(st.attrs, source.attrs);
    AttrsChangedIff(NewAttrs(st.attrs, source.attrs), source.attrs);
    ContentFollowsSource(st.content, source.children, mk);
  }

  // ---------------------------------------------------------------------------
  // The live group
  // ---------------------------------------------------------------------------

  /** `es` without the elements in `gone`, in order. */
  function Minus(es: seq<LiveElement>, gone: set<LiveElement>): (r: seq<LiveElement>)
    ensures forall i :: 0 <= i < |r| ==> r[i] in es && r[i] !in gone
    ensures forall i :: 0 <= i < |es| && es[i] !in gone ==> es[i] in r
  {
    if es == [] then []
    else (if es[0] in gone then [] else [es[0]]) + Minus(es[1..], gone)
  }

  predicate Distinct<T(==)>(xs: seq<T>) {
    forall i, j :: 0 <= i < j < |xs| ==> xs[i] != xs[j]
  }

  /** The group element the differ renders into; its element children in document order. */
  class LiveGroup {
    var children: seq<LiveElement>

    /** A DOM node is a child of its parent once. */
    predicate Valid()
      reads this
    {
      Distinct(children)
    }

    /** `node.remove()` on one of the children. */
    method Remove(e: LiveElement)
      modifies this
      ensures children == Minus(old(children), {e})
    {
      children := Minus(children, {e});
    }

    /** `appendChild`: the node leaves its old place, if any, and becomes the last child. */
    method AppendChild(e: LiveElement)
      modifies this
      ensures children == Minus(old(children), {e}) + [e]
    {
      children := Minus(children, {e}) + [e];
    }
  }

  lemma {:induction false} MinusTwice(es: seq<LiveElement>, a: set<LiveElement>, b: set<LiveElement>)
    ensures Minus(Minus(es, a), b) == Minus(es, a + b)
  {
    if es != [] {
      MinusTwice(es[1..], a, b);
      var head := if es[0] in a then [] else [es[0]];
      MinusAppend(head, Minus(es[1..], a), b);
    }
  }

  lemma {:induction false} MinusAppend(x: seq<LiveElement>, y: seq<LiveElement>, gone: set<LiveElement>)
    ensures Minus(x + y, gone) == Minus(x, gone) + Minus(y, gone)
  {
    if x == [] {
      assert x + y == y;
    } else {
      assert (x + y)[0] == x[0];
      assert (x + y)[1..] == x[1..] + y;
      MinusAppend(x[1..], y, gone);
    }
  }

  lemma MinusNone(x: seq<LiveElement>, gone: set<LiveElement>)
    requires forall e :: e in x ==> e !in gone
    ensures Minus(x, gone) == x
  {
  }

  lemma MinusAgrees(x: seq<LiveElement>, a: set<LiveElement>, b: set<LiveElement>)
    requires forall e :: e in x ==> (e in a <==> e in b)
    ensures Minus(x, a) == Minus(x, b)
  {
  }

  // ---------------------------------------------------------------------------
  // diffApply
  // ---------------------------------------------------------------------------

  /** What `diffApply` returns: the keys created, updated and removed. */
  datatype DiffReport = DiffReport(created: seq<string>, updated: seq<string>, removed: seq<string>)

  function LiveHeads(es: seq<LiveElement>): (r: seq<Head>)
    reads es
    ensures |r| == |es|
  {
    if es == [] then [] else LiveHeads(es[..|es| - 1]) + [Head(es[|es| - 1].tag, IdOf(es[|es| - 1].attrs))]
  }

  lemma {:induction false} LiveHeadsAt(es: seq<LiveElement>, i: nat)
    requires i < |es|
    ensures LiveHeads(es)[i] == Head(es[i].tag, IdOf(es[i].attrs))
  {
    var n := |es| - 1;
    if i < n {
      LiveHeadsAt(es[..n], i);
    }
  }

  /** The keys of the live children, from one counter map. */
  function LiveKeys(es: seq<LiveElement>): (r: seq<string>)
    reads es
    ensures |r| == |es|
  {
    Keys(LiveHeads(es))
  }

  /** The keys of the incoming elements, from a second, independent counter map. */
  function IncomingKeys(ns: seq<Node>): (r: seq<string>)
    requires AllElements(ns)
    ensures |r| == |ns|
  {
    Keys(Heads(ns))
  }

  lemma ElementsAreElements(ns: seq<Node>)
    ensures AllElements(Elements(ns))
  {
  }

  /** The distinct keys of `ks` in order of first appearance, the order
      in which a `Map` filled from `ks` iterates its keys. */
  function Dedup(ks: seq<string>): (r: seq<string>)
    ensures forall k :: k in r <==> k in ks
  {
    if ks == [] then []
    else
      var p := ks[..|ks| - 1];
      Dedup(p) + (if ks[|ks| - 1] in p then [] else [ks[|ks| - 1]])
  }

  /** The map `existingMap` ends up as: each key maps to the last element carrying it. */
  function IndexOf(ks: seq<string>, es: seq<LiveElement>): (m: map<string, LiveElement>)
    requires |ks| == |es|
    ensures forall k :: k in m <==> k in ks
  {
    if ks == [] then map[]
    else
      var n := |ks| - 1;
      IndexOf(ks[..n], es[..n])[ks[n] := es[n]]
  }

  function LiveIndex(es: seq<LiveElement>): map<string, LiveElement>
    reads es
  {
    IndexOf(LiveKeys(es), es)
  }

  ghost predicate Injective(m: map<string, LiveElement>) {
    forall k1, k2 :: k1 in m && k2 in m && k1 != k2 ==> m[k1] != m[k2]
  }

  function Snapshot(m: map<string, LiveElement>): map<string, ElementState>
    reads m.Values
  {
    map k | k in m :: m[k].State()
  }

  /** The states of a sequence of live elements, position by position. */
  function States(es: seq<LiveElement>): (r: seq<ElementState>)
    reads es
    ensures |r| == |es|
  {
    if es == [] then [] else States(es[..|es| - 1]) + [es[|es| - 1].State()]
  }

  lemma {:induction false} StatesAt(es: seq<LiveElement>, i: nat)
    requires i < |es|
    ensures States(es)[i] == es[i].State()
  {
    var n := |es| - 1;
    if i < n {
      StatesAt(es[..n], i);
    }
  }

  lemma IndexOfStep(ks: seq<string>, es: seq<LiveElement>, i: nat)
    requires |ks| == |es| && i < |ks|
    ensures IndexOf(ks[..i + 1], es[..i + 1]) == IndexOf(ks[..i], es[..i])[ks[i] := es[i]]
  {
    assert ks[..i + 1][..i] == ks[..i] && es[..i + 1][..i] == es[..i];
  }

  lemma DedupStep(ks: seq<string>, i: nat)
    requires i < |ks|
    ensures Dedup(ks[..i + 1]) == Dedup(ks[..i]) + (if ks[i] in ks[..i] then [] else [ks[i]])
  {
    assert ks[..i + 1][..i] == ks[..i];
  }

  /** The indexing loop of `diffApply` (diff.ts:10-16). */
  method IndexLive(es: seq<LiveElement>) returns (order: seq<string>, index: map<string, LiveElement>)
    ensures order == Dedup(LiveKeys(es))
    ensures index == LiveIndex(es)
  {
    ghost var hs := LiveHeads(es);
    ghost var ks := Keys(hs);
    var counters: map<string, nat> := map[];
    order, index := [], map[];
    for i := 0 to |es|
      invariant counters == Counts(hs[..i])
      invariant order == Dedup(ks[..i])
      invariant index == IndexOf(ks[..i], es[..i])
    {
      LiveHeadsAt(es, i);
      var key;
      key, counters := ComputeKey(es[i].tag, es[i].attrs, counters, hs, i);
      DedupStep(ks, i);
      IndexOfStep(ks, es, i);
      if key !in index {
        order := order + [key];
      }
      index := index[key := es[i]];
    }
    assert ks[..|es|] == ks && es[..|es|] == es;
  }

  /** Whether the j-th incoming key takes a live element: the key was indexed
      and no earlier incoming element carried it (diff.ts:24-31). */
  predicate Claims(nk: seq<string>, j: nat, avail: set<string>)
    requires j < |nk|
  {
    nk[j] in avail && nk[j] !in nk[..j]
  }

  /** The `created` list: the incoming keys that claim nothing, in incoming order. */
  function CreatedKeys(nk: seq<string>, avail: set<string>): seq<string> {
    if nk == [] then []
    else
      var n := |nk| - 1;
      CreatedKeys(nk[..n], avail) + (if Claims(nk, n, avail) then [] else [nk[n]])
  }

  /** The `updated` list: the claiming keys whose element `updateElement` changed. */
  function UpdatedKeys(nk: seq<string>, incoming: seq<Node>, states: map<string, ElementState>, mk: Markup): seq<string>
    requires |nk| == |incoming| && AllElements(incoming)
  {
    if nk == [] then []
    else
      var n := |nk| - 1;
      UpdatedKeys(nk[..n], incoming[..n], states, mk)
        + (if Claims(nk, n, states.Keys) && Changed(states[nk[n]], incoming[n], mk) then [nk[n]] else [])
  }

  /** The keys of `order` that no incoming key claimed, in order. */
  function Unclaimed(order: seq<string>, nk: seq<string>): (r: seq<string>)
    ensures forall k :: k in r <==> k in order && k !in nk
  {
    if order == [] then []
    else (if order[0] in nk then [] else [order[0]]) + Unclaimed(order[1..], nk)
  }

  /** `Map.delete` on the key order. */
  function Drop(order: seq<string>, key: string): (r: seq<string>)
    ensures forall k :: k in r <==> k in order && k != key
  {
    if order == [] then []
    else (if order[0] == key then [] else [order[0]]) + Drop(order[1..], key)
  }

  lemma {:induction false} UnclaimedSnoc(order: seq<string>, nk: seq<string>, key: string)
    ensures Unclaimed(order, nk + [key]) == Drop(Unclaimed(order, nk), key)
  {
    if order != [] {
      UnclaimedSnoc(order[1..], nk, key);
      var head := if order[0] in nk then [] else [order[0]];
      DropAppend(head, Unclaimed(order[1..], nk), key);
    }
  }

  lemma {:induction false} DropAppend(x: seq<string>, y: seq<string>, key: string)
    ensures Drop(x + y, key) == Drop(x, key) + Drop(y, key)
  {
    if x == [] {
      assert x + y == y;
    } else {
      assert (x + y)[0] == x[0];
      assert (x + y)[1..] == x[1..] + y;
      DropAppend(x[1..], y, key);
    }
  }

  lemma UnclaimedNone(order: seq<string>)
    ensures Unclaimed(order, []) == order
  {
  }

  lemma DropAbsent(order: seq<string>, key: string)
    requires key !in order
    ensures Drop(order, key) == order
  {
  }

  lemma UnclaimedRepeat(order: seq<string>, nk: seq<string>, key: string)
    requires key in nk
    ensures Unclaimed(order, nk + [key]) == Unclaimed(order, nk)
  {
  }

  lemma ReportStep(nk: seq<string>, incoming: seq<Node>, states: map<string, ElementState>, mk: Markup, i: nat)
    requires |nk| == |incoming| && AllElements(incoming) && i < |nk|
    ensures nk[..i + 1] == nk[..i] + [nk[i]]
    ensures Claims(nk[..i + 1], i, states.Keys) == Claims(nk, i, states.Keys)
    ensures CreatedKeys(nk[..i + 1], states.Keys)
         == CreatedKeys(nk[..i], states.Keys) + (if Claims(nk, i, states.Keys) then [] else [nk[i]])
    ensures UpdatedKeys(nk[..i + 1], incoming[..i + 1], states, mk)
         == UpdatedKeys(nk[..i], incoming[..i], states, mk)
            + (if Claims(nk, i, states.Keys) && Changed(states[nk[i]], incoming[i], mk) then [nk[i]] else [])
  {
    assert nk[..i + 1][..i] == nk[..i] && incoming[..i + 1][..i] == incoming[..i];
    assert nk[..i + 1] == nk[..i] + [nk[i]];
  }

  /** The position of the first occurrence of `k` in `ks`. */
  function FirstIndexOf(ks: seq<string>, k: string): (j: nat)
    requires k in ks
    ensures j < |ks| && ks[j] == k && k !in ks[..j]
  {
    if ks[0] == k then 0
    else
      var j := 1 + FirstIndexOf(ks[1..], k);
      assert ks[..j] == [ks[0]] + ks[1..][..j - 1];
      j
  }

  lemma FirstIndexOfAt(ks: seq<string>, i: nat)
    requires i < |ks| && ks[i] !in ks[..i]
    ensures FirstIndexOf(ks, ks[i]) == i
  {
  }

  /** `updateElement` on the element the index holds under `key` (diff.ts:26-27): only
      that element changes, so the elements placed so far (`ordered`) keep their
      states and the index's states change at `key` alone. */
  method UpdateIndexed(index: map<string, LiveElement>, key: string, source: Node, mk: Markup,
                       ghost ordered: seq<LiveElement>)
    returns (changed: bool)
    requires source.Element? && key in index && Injective(index) && index[key] !in ordered
    modifies index[key]
    ensures index[key].State() == Updated(old(index[key].State()), source, mk)
    ensures changed == Changed(old(index[key].State()), source, mk)
    ensures States(ordered) == old(States(ordered))
    ensures Snapshot(index) == old(Snapshot(index))[key := index[key].State()]
  {
    ghost var before := Snapshot(index);
    var target := index[key];
    ghost var was := States(ordered);
    changed := UpdateElement(target, source, mk);
    assert States(ordered) == was;
    forall k | k in index && k != key
      ensures index[k].State() == before[k]
    {
      assert index[k] != target;
    }
    ghost var after := Snapshot(index);
    ghost var expected := before[key := index[key].State()];
    assert after.Keys == expected.Keys;
    assert forall k :: k in after ==> after[k] == expected[k];
  }

  /** `cloneNode(true)` of an incoming element (diff.ts:34): a new live element that
      mirrors it, leaving every existing element as it was. */
  method CloneIn(source: Node, ghost index: map<string, LiveElement>, ghost ordered: seq<LiveElement>)
    returns (node: LiveElement)
    requires source.Element?
    ensures fresh(node) && node.tag == source.tag
    ensures node.State() == ElementState(source.attrs, source.children)
    ensures States(ordered) == old(States(ordered))
    ensures Snapshot(index) == old(Snapshot(index))
  {
    node := new LiveElement.Clone(source);
  }

  lemma StatesSnoc(es: seq<LiveElement>, e: LiveElement)
    ensures States(es + [e]) == States(es) + [e.State()]
  {
    assert (es + [e])[..|es|] == es;
  }

  /** How the report lists and the pending key order move on one incoming key. */
  lemma BookStep(order: seq<string>, nk: seq<string>, avail: set<string>, i: nat)
    requires i < |nk| && forall k :: k in order ==> k in avail
    ensures Unclaimed(order, nk[..i + 1])
         == if Claims(nk, i, avail) then Drop(Unclaimed(order, nk[..i]), nk[i]) else Unclaimed(order, nk[..i])
  {
    assert nk[..i + 1] == nk[..i] + [nk[i]];
    if nk[i] in nk[..i] {
      UnclaimedRepeat(order, nk[..i], nk[i]);
    } else {
      UnclaimedSnoc(order, nk[..i], nk[i]);
      if nk[i] !in avail {
        DropAbsent(Unclaimed(order, nk[..i]), nk[i]);
      }
    }
  }

  lemma DistinctSnoc<T>(s: seq<T>, x: T)
    requires Distinct(s) && x !in s
    ensures Distinct(s + [x])
  {
  }

  // What the matching loop has established after its first `i` incoming elements,
  // in five parts, each with the lemma that carries it over one more element.

  /** The report lists and the pending key order so far. */
  ghost predicate Reported(nk: seq<string>, incoming: seq<Node>, order: seq<string>, before: map<string, ElementState>,
                           mk: Markup, i: nat, created: seq<string>, updated: seq<string>, rest: seq<string>)
  {
    && i <= |nk| == |incoming| && AllElements(incoming)
    && created == CreatedKeys(nk[..i], before.Keys)
    && updated == UpdatedKeys(nk[..i], incoming[..i], before, mk)
    && rest == Unclaimed(order, nk[..i])
  }

  lemma ReportedStep(nk: seq<string>, incoming: seq<Node>, order: seq<string>, before: map<string, ElementState>,
                     mk: Markup, i: nat, created: seq<string>, updated: seq<string>, rest: seq<string>, changed: bool)
    requires Reported(nk, incoming, order, before, mk, i, created, updated, rest) && i < |nk|
    requires forall k :: k in order ==> k in before
    requires Claims(nk, i, before.Keys) ==> changed == Changed(before[nk[i]], incoming[i], mk)
    ensures var c := Claims(nk, i, before.Keys);
      Reported(nk, incoming, order, before, mk, i + 1,
               if c then created else created + [nk[i]],
               if c && changed then updated + [nk[i]] else updated,
               if c then Drop(rest, nk[i]) else rest)
  {
    ReportStep(nk, incoming, before, mk, i);
    BookStep(order, nk, before.Keys, i);
  }

  /** The index entries not yet claimed. */
  ghost predicate Pending(nk: seq<string>, index: map<string, LiveElement>, i: nat, remaining: map<string, LiveElement>) {
    && i <= |nk|
    && (forall k :: k in remaining <==> k in index && k !in nk[..i])
    && (forall k :: k in remaining ==> remaining[k] == index[k])
  }

  lemma PendingStep(nk: seq<string>, index: map<string, LiveElement>, i: nat, remaining: map<string, LiveElement>)
    requires Pending(nk, index, i, remaining) && i < |nk|
    ensures nk[i] in remaining <==> Claims(nk, i, index.Keys)
    ensures Pending(nk, index, i + 1, if nk[i] in remaining then remaining - {nk[i]} else remaining)
  {
    assert nk[..i + 1] == nk[..i] + [nk[i]];
  }

  /** The elements placed so far: a claimed position holds the indexed element, a
      cloned one a new element of the incoming tag; no element is placed twice. */
  ghost predicate Placed(nk: seq<string>, index: map<string, LiveElement>, live: set<LiveElement>,
                         incoming: seq<Node>, i: nat, ordered: seq<LiveElement>)
  {
    && i <= |nk| == |incoming| && AllElements(incoming) && |ordered| == i && Distinct(ordered)
    && (forall j :: 0 <= j < i && Claims(nk, j, index.Keys) ==> ordered[j] == index[nk[j]])
    && (forall j :: 0 <= j < i && !Claims(nk, j, index.Keys) ==>
          ordered[j] !in live && ordered[j].tag == incoming[j].tag)
  }

  /** The element a claimed key brings in is none of those placed so far. */
  lemma ReuseIsNew(nk: seq<string>, index: map<string, LiveElement>, live: set<LiveElement>,
                   incoming: seq<Node>, i: nat, ordered: seq<LiveElement>)
    requires Placed(nk, index, live, incoming, i, ordered) && i < |nk| && Claims(nk, i, index.Keys)
    requires Injective(index) && forall k :: k in index ==> index[k] in live
    ensures index[nk[i]] !in ordered
  {
    forall j | 0 <= j < i
      ensures ordered[j] != index[nk[i]]
    {
      if Claims(nk, j, index.Keys) {
        assert nk[..i][j] == nk[j];
        assert nk[j] != nk[i];
      }
    }
  }

  lemma PlacedStep(nk: seq<string>, index: map<string, LiveElement>, live: set<LiveElement>,
                   incoming: seq<Node>, i: nat, ordered: seq<LiveElement>, node: LiveElement)
    requires Placed(nk, index, live, incoming, i, ordered) && i < |nk| && node !in ordered
    requires Claims(nk, i, index.Keys) ==> node == index[nk[i]]
    requires !Claims(nk, i, index.Keys) ==> node !in live && node.tag == incoming[i].tag
    ensures Placed(nk, index, live, incoming, i + 1, ordered + [node])
  {
    DistinctSnoc(ordered, node);
    forall j | 0 <= j < i
      ensures (ordered + [node])[j] == ordered[j]
    {
    }
  }

  /** The states of the cloned positions: those of their incoming elements. */
  ghost predicate Mirrored(nk: seq<string>, avail: set<string>, incoming: seq<Node>, i: nat, states: seq<ElementState>) {
    && i <= |nk| == |incoming| && AllElements(incoming) && |states| == i
    && (forall j :: 0 <= j < i && !Claims(nk, j, avail) ==>
          states[j] == ElementState(incoming[j].attrs, incoming[j].children))
  }

  lemma MirroredStep(nk: seq<string>, avail: set<string>, incoming: seq<Node>, i: nat,
                     states: seq<ElementState>, state: ElementState)
    requires Mirrored(nk, avail, incoming, i, states) && i < |nk|
    requires !Claims(nk, i, avail) ==> state == ElementState(incoming[i].attrs, incoming[i].children)
    ensures Mirrored(nk, avail, incoming, i + 1, states + [state])
  {
    forall j | 0 <= j < i
      ensures (states + [state])[j] == states[j]
    {
    }
  }

  /** The states of the indexed elements: a key met so far is updated from the
      first incoming element carrying it, any other is as it was. */
  ghost predicate Indexed(nk: seq<string>, incoming: seq<Node>, before: map<string, ElementState>, mk: Markup,
                          i: nat, snap: map<string, ElementState>)
  {
    && i <= |nk| == |incoming| && AllElements(incoming) && snap.Keys == before.Keys
    && (forall k :: k in snap ==>
          snap[k] == if k in nk[..i] then Updated(before[k], incoming[FirstIndexOf(nk, k)], mk) else before[k])
  }

  /** A key claimed now has not been touched yet. */
  lemma IndexedFresh(nk: seq<string>, incoming: seq<Node>, before: map<string, ElementState>, mk: Markup,
                     i: nat, snap: map<string, ElementState>)
    requires Indexed(nk, incoming, before, mk, i, snap) && i < |nk| && Claims(nk, i, before.Keys)
    ensures snap[nk[i]] == before[nk[i]]
  {
  }

  lemma IndexedStep(nk: seq<string>, incoming: seq<Node>, before: map<string, ElementState>, mk: Markup,
                    i: nat, snap: map<string, ElementState>, state: ElementState)
    requires Indexed(nk, incoming, before, mk, i, snap) && i < |nk|
    requires Claims(nk, i, before.Keys) ==> state == Updated(before[nk[i]], incoming[i], mk)
    ensures Indexed(nk, incoming, before, mk, i + 1, if Claims(nk, i, before.Keys) then snap[nk[i] := state] else snap)
  {
    assert nk[..i + 1] == nk[..i] + [nk[i]];
    var now := if Claims(nk, i, before.Keys) then snap[nk[i] := state] else snap;
    forall k | k in now
      ensures now[k] == if k in nk[..i + 1] then Updated(before[k], incoming[FirstIndexOf(nk, k)], mk) else before[k]
    {
      if Claims(nk, i, before.Keys) && k == nk[i] {
        FirstIndexOfAt(nk, i);
      }
    }
  }

  /** All that the matching loop has established after its first `i` incoming
      elements (`states` and `snap` stand for the element states of `ordered` and of
      the index). */
  ghost predicate Progress(incoming: seq<Node>, nk: seq<string>, order: seq<string>, index: map<string, LiveElement>,
                           before: map<string, ElementState>, live: set<LiveElement>, mk: Markup, i: nat,
                           ordered: seq<LiveElement>, states: seq<ElementState>, snap: map<string, ElementState>,
                           created: seq<string>, updated: seq<string>, rest: seq<string>,
                           remaining: map<string, LiveElement>)
  {
    && before.Keys == index.Keys
    && Reported(nk, incoming, order, before, mk, i, created, updated, rest)
    && Pending(nk, index, i, remaining)
    && Placed(nk, index, live, incoming, i, ordered)
    && Mirrored(nk, index.Keys, incoming, i, states)
    && Indexed(nk, incoming, before, mk, i, snap)
  }

  /** The turn of the matching loop for an incoming element whose key the index still
      holds (diff.ts:25-31): the live element is updated, reported if it changed, put in
      place and taken out of the index. */
  method Claim(incoming: seq<Node>, ghost nk: seq<string>, order: seq<string>, index: map<string, LiveElement>,
               ghost before: map<string, ElementState>, ghost live: set<LiveElement>, mk: Markup, i: nat,
               ordered: seq<LiveElement>, ghost states: seq<ElementState>, ghost snap: map<string, ElementState>,
               created: seq<string>, updated: seq<string>, rest: seq<string>,
               remaining: map<string, LiveElement>, key: string)
    returns (ordered': seq<LiveElement>, ghost states': seq<ElementState>, ghost snap': map<string, ElementState>,
             updated': seq<string>, rest': seq<string>, remaining': map<string, LiveElement>)
    requires Progress(incoming, nk, order, index, before, live, mk, i, ordered, states, snap,
                      created, updated, rest, remaining)
    requires i < |nk| && key == nk[i] && key in remaining && Injective(index)
    requires forall k :: k in order ==> k in index
    requires forall k :: k in index ==> index[k] in live
    requires States(ordered) == states && Snapshot(index) == snap
    modifies index[key]
    ensures Progress(incoming, nk, order, index, before, live, mk, i + 1, ordered', states', snap',
                     created, updated', rest', remaining')
    ensures States(ordered') == states' && Snapshot(index) == snap'
  {
    PendingStep(nk, index, i, remaining);
    IndexedFresh(nk, incoming, before, mk, i, snap);
    ReuseIsNew(nk, index, live, incoming, i, ordered);
    ghost var was := index[key].State();
    assert was == before[key];
    var node := remaining[key];
    var changed := UpdateIndexed(index, key, incoming[i], mk, ordered);
    ghost var state := node.State();
    ReportedStep(nk, incoming, order, before, mk, i, created, updated, rest, changed);
    PlacedStep(nk, index, live, incoming, i, ordered, node);
    MirroredStep(nk, index.Keys, incoming, i, states, state);
    IndexedStep(nk, incoming, before, mk, i, snap, state);
    StatesSnoc(ordered, node);
    ordered' := ordered + [node];
    states' := states + [state];
    snap' := snap[key := state];
    updated' := if changed then updated + [key] else updated;
    rest' := Drop(rest, key);
    remaining' := remaining - {key};
  }

  /** The turn of the matching loop for an incoming element whose key claims nothing
      (diff.ts:33-35): a clone of it is put in place and reported as created. */
  method Adopt(incoming: seq<Node>, ghost nk: seq<string>, order: seq<string>, index: map<string, LiveElement>,
               ghost before: map<string, ElementState>, ghost live: set<LiveElement>, mk: Markup, i: nat,
               ordered: seq<LiveElement>, ghost states: seq<ElementState>, ghost snap: map<string, ElementState>,
               created: seq<string>, updated: seq<string>, rest: seq<string>,
               remaining: map<string, LiveElement>, key: string)
    returns (ordered': seq<LiveElement>, ghost states': seq<ElementState>, created': seq<string>)
    requires Progress(incoming, nk, order, index, before, live, mk, i, ordered, states, snap,
                      created, updated, rest, remaining)
    requires i < |nk| && key == nk[i] && key !in remaining
    requires forall k :: k in order ==> k in index
    requires States(ordered) == states && Snapshot(index) == snap
    ensures Progress(incoming, nk, order, index, before, live, mk, i + 1, ordered', states', snap,
                     created', updated, rest, remaining)
    ensures States(ordered') == states' && Snapshot(index) == snap
  {
    PendingStep(nk, index, i, remaining);
    var node := CloneIn(incoming[i], index, ordered);
    ghost var state := ElementState(incoming[i].attrs, incoming[i].children);
    ReportedStep(nk, incoming, order, before, mk, i, created, updated, rest, false);
    PlacedStep(nk, index, live, incoming, i, ordered, node);
    MirroredStep(nk, index.Keys, incoming, i, states, state);
    IndexedStep(nk, incoming, before, mk, i, snap, state);
    StatesSnoc(ordered, node);
    ordered' := ordered + [node];
    states' := states + [state];
    created' := created + [key];
  }

  /** The matching loop of `diffApply` (diff.ts:18-37): each incoming element either
      claims the live element under its key, which `updateElement` brings up to date,
      or is cloned in; a claimed key leaves the index. `live` is any set holding the
      indexed elements (the children of the target). */
  method Reconcile(incoming: seq<Node>, order: seq<string>, index: map<string, LiveElement>,
                   ghost live: set<LiveElement>, mk: Markup)
    returns (ordered: seq<LiveElement>, created: seq<string>, updated: seq<string>,
             rest: seq<string>, remaining: map<string, LiveElement>)
    requires AllElements(incoming)
    requires forall k :: k in order ==> k in index
    requires forall k :: k in index ==> index[k] in live
    requires Injective(index)
    modifies index.Values
    ensures Progress(incoming, IncomingKeys(incoming), order, index, old(Snapshot(index)), live, mk, |incoming|,
                     ordered, States(ordered), Snapshot(index), created, updated, rest, remaining)
  {
    ghost var hs := Heads(incoming);
    ghost var nk := Keys(hs);
    ghost var before := Snapshot(index);
    ghost var states: seq<ElementState> := [];
    ghost var snap := before;
    var counters: map<string, nat> := map[];
    ordered, created, updated := [], [], [];
    rest, remaining := order, index;
    UnclaimedNone(order);
    for i := 0 to |incoming|
      invariant counters == Counts(hs[..i])
      invariant States(ordered) == states && Snapshot(index) == snap
      invariant Progress(incoming, nk, order, index, before, live, mk, i, ordered, states, snap,
                         created, updated, rest, remaining)
    {
      counters, ordered, states, snap, created, updated, rest, remaining :=
        Visit(incoming, hs, nk, order, index, before, live, mk, i, counters, ordered, states, snap,
              created, updated, rest, remaining);
    }
  }

  /** One pass of the matching loop (diff.ts:22-37): compute the incoming element's
      key, then reuse and update the live element it claims, or clone the source. */
  method Visit(incoming: seq<Node>, ghost hs: seq<Head>, ghost nk: seq<string>, order: seq<string>,
               index: map<string, LiveElement>, ghost before: map<string, ElementState>,
               ghost live: set<LiveElement>, mk: Markup, i: nat, counters: map<string, nat>,
               ordered: seq<LiveElement>, ghost states: seq<ElementState>, ghost snap: map<string, ElementState>,
               created: seq<string>, updated: seq<string>, rest: seq<string>,
               remaining: map<string, LiveElement>)
    returns (counters': map<string, nat>, ordered': seq<LiveElement>, ghost states': seq<ElementState>,
             ghost snap': map<string, ElementState>, created': seq<string>, updated': seq<string>,
             rest': seq<string>, remaining': map<string, LiveElement>)
    requires i < |incoming| && AllElements(incoming) && hs == Heads(incoming) && nk == Keys(hs)
    requires counters == Counts(hs[..i])
    requires Progress(incoming, nk, order, index, before, live, mk, i, ordered, states, snap,
                      created, updated, rest, remaining)
    requires Injective(index)
    requires forall k :: k in order ==> k in index
    requires forall k :: k in index ==> index[k] in live
    requires States(ordered) == states && Snapshot(index) == snap
    modifies index.Values
    ensures counters' == Counts(hs[..i + 1])
    ensures Progress(incoming, nk, order, index, before, live, mk, i + 1, ordered', states', snap',
                     created', updated', rest', remaining')
    ensures States(ordered') == states' && Snapshot(index) == snap'
  {
    HeadsAt(incoming, i);
    var key;
    key, counters' := ComputeKey(incoming[i].tag, incoming[i].attrs, counters, hs, i);
    if key in remaining {
      created' := created;
      ordered', states', snap', updated', rest', remaining' :=
        Claim(incoming, nk, order, index, before, live, mk, i, ordered, states, snap,
              created, updated, rest, remaining, key);
    } else {
      snap', updated', rest', remaining' := snap, updated, rest, remaining;
      ordered', states', created' :=
        Adopt(incoming, nk, order, index, before, live, mk, i, ordered, states, snap,
              created, updated, rest, remaining, key);
    }
  }

  // ---------------------------------------------------------------------------
  // Removing, reordering, and diffApply as a whole
  // ---------------------------------------------------------------------------

  /** Over distinct elements, `existingMap` never holds one element under two keys,
      and holds only elements it was given. */
  lemma {:induction false} IndexOfFacts(ks: seq<string>, es: seq<LiveElement>)
    requires |ks| == |es| && Distinct(es)
    ensures Injective(IndexOf(ks, es))
    ensures forall k :: k in IndexOf(ks, es) ==> IndexOf(ks, es)[k] in es
  {
    if ks != [] {
      var n := |ks| - 1;
      assert Distinct(es[..n]) by {
        forall i, j | 0 <= i < j < n
          ensures es[..n][i] != es[..n][j]
        {
          assert es[..n][i] == es[i] && es[..n][j] == es[j];
        }
      }
      IndexOfFacts(ks[..n], es[..n]);
      var m := IndexOf(ks[..n], es[..n]);
      forall k | k in m
        ensures m[k] != es[n] && m[k] in es
      {
        var i :| 0 <= i < n && es[..n][i] == m[k];
        assert es[i] == m[k];
      }
    }
  }

  /** When the keys are distinct, every element is indexed under its own key. */
  lemma {:induction false} IndexOfAll(ks: seq<string>, es: seq<LiveElement>)
    requires |ks| == |es| && Distinct(ks)
    ensures forall i :: 0 <= i < |ks| ==> ks[i] in IndexOf(ks, es) && IndexOf(ks, es)[ks[i]] == es[i]
  {
    if ks != [] {
      var n := |ks| - 1;
      assert Distinct(ks[..n]) by {
        forall i, j | 0 <= i < j < n
          ensures ks[..n][i] != ks[..n][j]
        {
          assert ks[..n][i] == ks[i] && ks[..n][j] == ks[j];
        }
      }
      IndexOfAll(ks[..n], es[..n]);
      forall i | 0 <= i < n
        ensures IndexOf(ks, es)[ks[i]] == es[i]
      {
        assert ks[..n][i] == ks[i] && es[..n][i] == es[i];
      }
    }
  }

  lemma {:induction false} MinusDistinct(es: seq<LiveElement>, gone: set<LiveElement>)
    requires Distinct(es)
    ensures Distinct(Minus(es, gone))
  {
    if es != [] {
      assert Distinct(es[1..]) by {
        forall i, j | 0 <= i < j < |es| - 1
          ensures es[1..][i] != es[1..][j]
        {
          assert es[1..][i] == es[i + 1] && es[1..][j] == es[j + 1];
        }
      }
      MinusDistinct(es[1..], gone);
      var r := Minus(es[1..], gone);
      forall i | 0 <= i < |r|
        ensures r[i] != es[0]
      {
        var j :| 0 <= j < |es[1..]| && es[1..][j] == r[i];
        assert es[j + 1] == r[i];
      }
    }
  }

  /** The elements of a sequence, as a set. */
  function Members(s: seq<LiveElement>): set<LiveElement> {
    set e | e in s
  }

  /** The elements a list of keys looks up. */
  function LookedUp(ks: seq<string>, m: map<string, LiveElement>): set<LiveElement>
    requires forall k :: k in ks ==> k in m
  {
    set k | k in ks :: m[k]
  }

  lemma MembersSnoc(s: seq<LiveElement>, e: LiveElement)
    ensures Members(s + [e]) == Members(s) + {e}
  {
  }

  lemma LookedUpSnoc(ks: seq<string>, k: string, m: map<string, LiveElement>)
    requires forall k' :: k' in ks ==> k' in m
    requires k in m
    ensures LookedUp(ks + [k], m) == LookedUp(ks, m) + {m[k]}
  {
    assert forall k' :: k' in ks + [k] <==> k' in ks || k' == k;
  }

  /** The removing loop of `diffApply` (diff.ts:39-42): every element left in the
      index is removed from the group and its key reported, in the index's order. */
  method Prune(target: LiveGroup, rest: seq<string>, remaining: map<string, LiveElement>, ghost keep: seq<LiveElement>)
    returns (removed: seq<string>)
    requires forall k :: k in rest ==> k in remaining
    modifies target
    ensures removed == rest
    ensures States(keep) == old(States(keep))
    ensures target.children == Minus(old(target.children), LookedUp(rest, remaining))
  {
    removed := [];
    ghost var c0 := target.children;
    MinusNone(c0, {});
    assert LookedUp(rest[..0], remaining) == {};
    for i := 0 to |rest|
      invariant removed == rest[..i]
      invariant target.children == Minus(c0, LookedUp(rest[..i], remaining))
      invariant States(keep) == old(States(keep))
    {
      var e := remaining[rest[i]];
      ghost var gone := LookedUp(rest[..i], remaining);
      target.Remove(e);
      MinusTwice(c0, gone, {e});
      assert rest[..i + 1] == rest[..i] + [rest[i]];
      LookedUpSnoc(rest[..i], rest[i], remaining);
      removed := removed + [rest[i]];
    }
    assert rest[..|rest|] == rest;
  }

  /** Appending the next placed element keeps the shape of the reordering loop's state. */
  lemma ReorderStep(c0: seq<LiveElement>, ordered: seq<LiveElement>, i: nat)
    requires i < |ordered| && ordered[i] !in ordered[..i]
    ensures Minus(Minus(c0, Members(ordered[..i])) + ordered[..i], {ordered[i]}) + [ordered[i]]
         == Minus(c0, Members(ordered[..i + 1])) + ordered[..i + 1]
  {
    assert ordered[..i + 1] == ordered[..i] + [ordered[i]];
    AppendedLast(c0, ordered[..i], ordered[i]);
  }

  lemma AppendedLast(c0: seq<LiveElement>, b: seq<LiveElement>, e: LiveElement)
    requires e !in b
    ensures Minus(Minus(c0, Members(b)) + b, {e}) + [e] == Minus(c0, Members(b + [e])) + (b + [e])
  {
    var done := Members(b);
    var a := Minus(c0, done);
    MinusAppend(a, b, {e});
    MinusTwice(c0, done, {e});
    MinusNone(b, {e});
    var c := Minus(c0, done + {e});
    assert Minus(a + b, {e}) + [e] == (c + b) + [e];
    MembersSnoc(b, e);
    assert (c + b) + [e] == c + (b + [e]);
  }

  /** The reordering loop of `diffApply` (diff.ts:44-50): each placed element is
      appended in turn (both branches of the source call `appendChild`), so the
      placed elements end up last and in order, after whatever else remains. */
  method Reorder(target: LiveGroup, ordered: seq<LiveElement>)
    requires Distinct(ordered)
    modifies target
    ensures States(ordered) == old(States(ordered))
    ensures target.children == Minus(old(target.children), Members(ordered)) + ordered
  {
    ghost var c0 := target.children;
    MinusNone(c0, {});
    assert Members(ordered[..0]) == {};
    for i := 0 to |ordered|
      invariant target.children == Minus(c0, Members(ordered[..i])) + ordered[..i]
      invariant States(ordered) == old(States(ordered))
    {
      target.AppendChild(ordered[i]);
      assert ordered[i] !in ordered[..i];
      ReorderStep(c0, ordered, i);
    }
    assert ordered[..|ordered|] == ordered;
  }

  /** The states of the elements `diffApply` places, position by position: a claimed
      position holds the live element as `updateElement` leaves it, any other a clone. */
  function Rendered(nk: seq<string>, incoming: seq<Node>, before: map<string, ElementState>, mk: Markup): (r: seq<ElementState>)
    requires |nk| == |incoming| && AllElements(incoming)
    ensures |r| == |incoming|
  {
    if incoming == [] then []
    else
      var n := |incoming| - 1;
      Rendered(nk[..n], incoming[..n], before, mk)
        + [if Claims(nk, n, before.Keys) then Updated(before[nk[n]], incoming[n], mk)
           else ElementState(incoming[n].attrs, incoming[n].children)]
  }

  lemma {:induction false} RenderedAt(nk: seq<string>, incoming: seq<Node>, before: map<string, ElementState>, mk: Markup, j: nat)
    requires |nk| == |incoming| && AllElements(incoming) && j < |incoming|
    ensures Rendered(nk, incoming, before, mk)[j]
         == if Claims(nk, j, before.Keys) then Updated(before[nk[j]], incoming[j], mk)
            else ElementState(incoming[j].attrs, incoming[j].children)
  {
    var n := |incoming| - 1;
    if j < n {
      RenderedAt(nk[..n], incoming[..n], before, mk, j);
      assert nk[..n][..j] == nk[..j];
    }
  }

  /** After the loops, the states the matching loop kept are the rendered ones. */
  lemma RenderedFromProgress(incoming: seq<Node>, nk: seq<string>, order: seq<string>, index: map<string, LiveElement>,
                             before: map<string, ElementState>, live: set<LiveElement>, mk: Markup,
                             ordered: seq<LiveElement>, states: seq<ElementState>, snap: map<string, ElementState>,
                             created: seq<string>, updated: seq<string>, rest: seq<string>,
                             remaining: map<string, LiveElement>)
    requires Progress(incoming, nk, order, index, before, live, mk, |incoming|, ordered, states, snap,
                      created, updated, rest, remaining)
    requires forall j :: 0 <= j < |incoming| && Claims(nk, j, index.Keys) ==> states[j] == snap[nk[j]]
    ensures states == Rendered(nk, incoming, before, mk)
  {
    forall j | 0 <= j < |incoming|
      ensures states[j] == Rendered(nk, incoming, before, mk)[j]
    {
      RenderedAt(nk, incoming, before, mk, j);
      if Claims(nk, j, index.Keys) {
        assert nk[..|incoming|] == nk;
        FirstIndexOfAt(nk, j);
      }
    }
  }

  /** Every element of the old children the index held is accounted for: it was
      either placed again (claimed) or removed. */
  lemma Accounted(incoming: seq<Node>, nk: seq<string>, order: seq<string>, index: map<string, LiveElement>,
                  before: map<string, ElementState>, live: set<LiveElement>, mk: Markup,
                  ordered: seq<LiveElement>, states: seq<ElementState>, snap: map<string, ElementState>,
                  created: seq<string>, updated: seq<string>, rest: seq<string>,
                  remaining: map<string, LiveElement>, olds: seq<LiveElement>)
    requires Progress(incoming, nk, order, index, before, live, mk, |incoming|, ordered, states, snap,
                      created, updated, rest, remaining)
    requires forall k :: k in order <==> k in index
    requires forall e :: e in olds ==> e in live
    ensures forall e :: e in olds ==>
      (e in LookedUp(rest, remaining) + Members(ordered) <==> e in index.Values)
  {
    assert nk[..|incoming|] == nk;
    forall e | e in olds
      ensures e in LookedUp(rest, remaining) + Members(ordered) <==> e in index.Values
    {
      if e in index.Values {
        var k :| k in index && index[k] == e;
        if k in nk {
          var j := FirstIndexOf(nk, k);
          assert Claims(nk, j, index.Keys);
          assert ordered[j] == e;
        } else {
          assert k in rest && remaining[k] == e;
        }
      }
      if e in Members(ordered) {
        var j :| 0 <= j < |ordered| && ordered[j] == e;
        assert Claims(nk, j, index.Keys);
      }
    }
  }

  /** The indexing and matching half of `diffApply` (diff.ts:10-37): index the old
      children, match the fragment's elements against them, and say what becomes of
      every old child and every position of the fragment. */
  method MatchChildren(children: seq<LiveElement>, next: seq<Node>, mk: Markup)
    returns (incoming: seq<Node>, ghost nk: seq<string>, order: seq<string>, index: map<string, LiveElement>,
             ordered: seq<LiveElement>, created: seq<string>, updated: seq<string>, rest: seq<string>,
             remaining: map<string, LiveElement>)
    requires Distinct(children)
    modifies Members(children)
    ensures incoming == Elements(next) && nk == IncomingKeys(incoming)
    ensures order == old(Dedup(LiveKeys(children))) && index == old(LiveIndex(children))
    ensures created == CreatedKeys(nk, index.Keys)
    ensures updated == UpdatedKeys(nk, incoming, old(Snapshot(index)), mk)
    ensures rest == Unclaimed(order, nk)
    ensures forall k :: k in rest ==> k in remaining
    ensures forall e :: e in children ==> (e in LookedUp(rest, remaining) + Members(ordered) <==> e in index.Values)
    ensures forall k :: k in index ==> index[k] in children
    ensures |ordered| == |incoming| && Distinct(ordered)
    ensures forall j :: 0 <= j < |ordered| ==>
      if Claims(nk, j, index.Keys) then ordered[j] == index[nk[j]]
      else ordered[j] !in children && ordered[j].tag == incoming[j].tag
    ensures States(ordered) == Rendered(nk, incoming, old(Snapshot(index)), mk)
    ensures forall e :: e in children && e !in index.Values ==> e.State() == old(e.State())
  {
    order, index := IndexLive(children);
    IndexOfFacts(LiveKeys(children), children);
    ghost var live := Members(children);
    ghost var before := Snapshot(index);
    incoming := Elements(next);
    ElementsAreElements(next);
    nk := IncomingKeys(incoming);
    ordered, created, updated, rest, remaining := Reconcile(incoming, order, index, live, mk);
    assert nk[..|incoming|] == nk && incoming[..|incoming|] == incoming;
    ghost var snap := Snapshot(index);
    ghost var states := States(ordered);
    forall j | 0 <= j < |incoming| && Claims(nk, j, index.Keys)
      ensures states[j] == snap[nk[j]]
    {
      StatesAt(ordered, j);
    }
    RenderedFromProgress(incoming, nk, order, index, before, live, mk, ordered, states, snap,
                         created, updated, rest, remaining);
    Accounted(incoming, nk, order, index, before, live, mk, ordered, states, snap,
              created, updated, rest, remaining, children);
  }

  /** The group after the diff holds each element once: the survivors are distinct,
      the placed elements are distinct, and a placed element is either taken out of
      the survivors or new to the group. */
  lemma RebuiltDistinct(c: seq<LiveElement>, gone: set<LiveElement>, placed: seq<LiveElement>)
    requires Distinct(c) && Distinct(placed)
    requires forall j :: 0 <= j < |placed| ==> placed[j] in gone || placed[j] !in c
    ensures Distinct(Minus(c, gone) + placed)
  {
    var r := Minus(c, gone);
    MinusDistinct(c, gone);
    forall i, j | 0 <= i < j < |r + placed|
      ensures (r + placed)[i] != (r + placed)[j]
    {
      if i < |r| && j >= |r| {
        assert (r + placed)[j] == placed[j - |r|];
      }
    }
  }

  /** The removing and reordering loops of `diffApply` (diff.ts:39-50): the unclaimed
      indexed elements leave the group and the placed ones are appended in order.
      Only the group's child list changes; no element's state does. */
  method Rebuild(target: LiveGroup, children: seq<LiveElement>, index: map<string, LiveElement>,
                 rest: seq<string>, remaining: map<string, LiveElement>, ordered: seq<LiveElement>)
    returns (removed: seq<string>)
    requires target.children == children && Distinct(children) && Distinct(ordered)
    requires forall k :: k in rest ==> k in remaining
    requires forall e :: e in children ==> (e in LookedUp(rest, remaining) + Members(ordered) <==> e in index.Values)
    requires forall j :: 0 <= j < |ordered| ==> ordered[j] in index.Values || ordered[j] !in children
    modifies target
    ensures removed == rest
    ensures target.children == Minus(children, index.Values) + ordered && target.Valid()
    ensures States(ordered) == old(States(ordered))
    ensures forall e :: e in children ==> e.State() == old(e.State())
  {
    removed := Prune(target, rest, remaining, ordered);
    Reorder(target, ordered);
    ghost var gone := LookedUp(rest, remaining);
    MinusTwice(children, gone, Members(ordered));
    MinusAgrees(children, gone + Members(ordered), index.Values);
    RebuiltDistinct(children, index.Values, ordered);
  }

  /** `diffApply` (diff.ts:7-53): index the group's element children by key, match the
      fragment's element children against them, remove what was not matched, and
      append the matched and cloned elements in fragment order. `existing` is the
      key index of the old children, `before` their states, and `placed` the
      elements appended. */
  method DiffApply(target: LiveGroup, next: seq<Node>, mk: Markup)
    returns (report: DiffReport, ghost existing: map<string, LiveElement>,
             ghost before: map<string, ElementState>, ghost placed: seq<LiveElement>)
    requires target.Valid()
    modifies target, target.children
    ensures existing == old(LiveIndex(target.children)) && before == old(Snapshot(existing))
    ensures target.Valid()
    ensures report.created == CreatedKeys(IncomingKeys(Elements(next)), existing.Keys)
    ensures report.updated == UpdatedKeys(IncomingKeys(Elements(next)), Elements(next), before, mk)
    ensures report.removed == Unclaimed(Dedup(old(LiveKeys(target.children))), IncomingKeys(Elements(next)))
    ensures target.children == Minus(old(target.children), existing.Values) + placed
    ensures |placed| == |Elements(next)|
    ensures forall j :: 0 <= j < |placed| ==>
      if Claims(IncomingKeys(Elements(next)), j, existing.Keys)
      then placed[j] == existing[IncomingKeys(Elements(next))[j]]
      else placed[j] !in old(target.children) && placed[j].tag == Elements(next)[j].tag
    ensures States(placed) == Rendered(IncomingKeys(Elements(next)), Elements(next), before, mk)
    ensures forall e :: e in old(target.children) && e !in existing.Values ==> e.State() == old(e.State())
    ensures old(Distinct(LiveKeys(target.children))) ==> target.children == placed
    ensures Elements(next) == [] ==>
      report.created == [] && report.updated == [] && report.removed == old(Dedup(LiveKeys(target.children)))
  {
    var children := target.children;
    ghost var ks := LiveKeys(children);
    existing := LiveIndex(children);
    before := Snapshot(existing);
    var incoming, nk, order, index, ordered, created, updated, rest, remaining := MatchChildren(children, next, mk);
    var removed := Rebuild(target, children, index, rest, remaining, ordered);
    report := DiffReport(created, updated, removed);
    placed := ordered;
    if Distinct(ks) {
      DistinctKeysLeaveNone(ks, children);
    }
    if incoming == [] {
      UnclaimedNone(order);
    }
  }

  // ---------------------------------------------------------------------------
  // What the report and the final children mean
  // ---------------------------------------------------------------------------

  /** A key is reported `created` exactly when some incoming position with that key
      claims nothing: its key is not live, or an earlier position already took it. */
  lemma {:induction false} CreatedIff(nk: seq<string>, avail: set<string>, k: string)
    ensures k in CreatedKeys(nk, avail) <==> exists j :: 0 <= j < |nk| && nk[j] == k && !Claims(nk, j, avail)
  {
    if nk != [] {
      var n := |nk| - 1;
      CreatedIff(nk[..n], avail, k);
      if k in CreatedKeys(nk[..n], avail) {
        var j :| 0 <= j < n && nk[..n][j] == k && !Claims(nk[..n], j, avail);
        assert nk[..n][..j] == nk[..j];
        assert nk[j] == k && !Claims(nk, j, avail);
      }
      if j :| 0 <= j < |nk| && nk[j] == k && !Claims(nk, j, avail) {
        if j < n {
          assert nk[..n][..j] == nk[..j] && nk[..n][j] == nk[j];
          assert !Claims(nk[..n], j, avail);
        }
      }
    }
  }

  /** A key is reported `updated` exactly when some position claims it and
      `updateElement` changes its element. */
  lemma {:induction false} UpdatedIff(nk: seq<string>, incoming: seq<Node>, states: map<string, ElementState>, mk: Markup, k: string)
    requires |nk| == |incoming| && AllElements(incoming)
    ensures k in UpdatedKeys(nk, incoming, states, mk)
        <==> exists j :: 0 <= j < |nk| && nk[j] == k && Claims(nk, j, states.Keys) && Changed(states[k], incoming[j], mk)
  {
    if nk != [] {
      var n := |nk| - 1;
      var pre := UpdatedKeys(nk[..n], incoming[..n], states, mk);
      var hit := Claims(nk, n, states.Keys) && Changed(states[nk[n]], incoming[n], mk);
      assert UpdatedKeys(nk, incoming, states, mk) == pre + (if hit then [nk[n]] else []);
      UpdatedIff(nk[..n], incoming[..n], states, mk, k);
      if k in pre {
        var j :| 0 <= j < n && nk[..n][j] == k && Claims(nk[..n], j, states.Keys) && Changed(states[k], incoming[..n][j], mk);
        assert nk[..n][..j] == nk[..j] && incoming[..n][j] == incoming[j];
        assert nk[j] == k && Claims(nk, j, states.Keys);
      }
      if j :| 0 <= j < |nk| && nk[j] == k && Claims(nk, j, states.Keys) && Changed(states[k], incoming[j], mk) {
        if j < n {
          assert nk[..n][..j] == nk[..j] && nk[..n][j] == nk[j] && incoming[..n][j] == incoming[j];
          assert Claims(nk[..n], j, states.Keys);
        }
      }
    }
  }

  /** With distinct incoming keys, `created` is the incoming keys that are not live. */
  lemma CreatedOfDistinct(nk: seq<string>, avail: set<string>, k: string)
    requires Distinct(nk)
    ensures k in CreatedKeys(nk, avail) <==> k in nk && k !in avail
  {
    CreatedIff(nk, avail, k);
    if k in nk && k !in avail {
      var j :| 0 <= j < |nk| && nk[j] == k;
      assert !Claims(nk, j, avail);
    }
  }

  /** An incoming key seen a second time is always reported `created`. */
  lemma RepeatedIncomingCreated(nk: seq<string>, avail: set<string>, j: nat)
    requires j < |nk| && nk[j] in nk[..j]
    ensures nk[j] in CreatedKeys(nk, avail)
  {
    CreatedIff(nk, avail, nk[j]);
    assert !Claims(nk, j, avail);
  }

  /** `removed` and the other two lists never share a key; `created` and `updated`
      share none when the incoming keys are distinct. */
  lemma ReportDisjoint(nk: seq<string>, incoming: seq<Node>, states: map<string, ElementState>, mk: Markup,
                       order: seq<string>, k: string)
    requires |nk| == |incoming| && AllElements(incoming)
    ensures k in Unclaimed(order, nk) ==> k !in CreatedKeys(nk, states.Keys) && k !in UpdatedKeys(nk, incoming, states, mk)
    ensures Distinct(nk) ==> !(k in CreatedKeys(nk, states.Keys) && k in UpdatedKeys(nk, incoming, states, mk))
  {
    CreatedIff(nk, states.Keys, k);
    UpdatedIff(nk, incoming, states, mk, k);
  }

  /** The reports overlap once the incoming keys repeat. Two incoming `<rect id="a">`
      meet one live element with id `a` that has no attributes yet: the first
      position claims the live element and changes it, so `#a` is `updated`; the
      second finds the key already taken and is cloned, so `#a` is also `created`. */
  lemma DuplicateIncomingOverlaps(mk: Markup)
    ensures var e := Element("rect", [Attr("id", "a")], []);
      IncomingKeys([e, e]) == ["#a", "#a"] &&
      CreatedKeys(["#a", "#a"], {"#a"}) == ["#a"] &&
      UpdatedKeys(["#a", "#a"], [e, e], map["#a" := ElementState([], [])], mk) == ["#a"]
  {
    DuplicateKeys();
    DuplicateCreated();
    DuplicateUpdated(mk);
  }

  /** Two `<rect id="a">` both get the key `#a`. */
  lemma DuplicateKeys()
    ensures var e := Element("rect", [Attr("id", "a")], []);
      IncomingKeys([e, e]) == ["#a", "#a"]
  {
    var e := Element("rect", [Attr("id", "a")], []);
    var h := Head("rect", "a");
    assert GetAttribute(e.attrs, "id") == Some("a");
    assert HeadOf(e) == h;
    assert Heads([e]) == [h] by { assert [e][..0] == []; }
    assert [e, e][..1] == [e];
    assert Heads([e, e]) == [h, h];
    assert [h, h][..1] == [h] && [h][..0] == [];
    assert "#" + h.id == "#a";
    assert forall n: nat :: KeyOf(h, n) == "#a";
    assert Keys([h]) == ["#a"];
  }

  /** Of two positions keyed `#a` with `#a` live, only the second is created. */
  lemma DuplicateCreated()
    ensures CreatedKeys(["#a", "#a"], {"#a"}) == ["#a"]
  {
    var nk := ["#a", "#a"];
    assert nk[..1] == ["#a"] && nk[..0] == [];
    assert Claims(nk, 0, {"#a"}) && !Claims(nk, 1, {"#a"});
    assert CreatedKeys(nk[..1], {"#a"}) == [];
  }

  /** Only the first of the two positions claims `#a`, and its update changes it. */
  lemma DuplicateUpdated(mk: Markup)
    ensures var e := Element("rect", [Attr("id", "a")], []);
      UpdatedKeys(["#a", "#a"], [e, e], map["#a" := ElementState([], [])], mk) == ["#a"]
  {
    var e := Element("rect", [Attr("id", "a")], []);
    var nk := ["#a", "#a"];
    var st := map["#a" := ElementState([], [])];
    assert nk[..1] == ["#a"] && nk[..0] == [];
    assert [e, e][..1] == [e];
    assert Claims(nk, 0, st.Keys) && !Claims(nk, 1, st.Keys);
    assert e.attrs[..0] == [] && GetAttribute([], "id") == None;
    assert SetChanged([], e.attrs);
    assert Changed(st["#a"], e, mk);
    assert UpdatedKeys(nk[..1], [e], st, mk) == ["#a"];
  }

  /** With distinct incoming keys, a claimed key is `updated` exactly when its element changed. */
  lemma UpdatedOfDistinct(nk: seq<string>, incoming: seq<Node>, states: map<string, ElementState>, mk: Markup, j: nat)
    requires |nk| == |incoming| && AllElements(incoming) && Distinct(nk) && j < |nk| && nk[j] in states
    ensures nk[j] in UpdatedKeys(nk, incoming, states, mk) <==> Changed(states[nk[j]], incoming[j], mk)
  {
    UpdatedIff(nk, incoming, states, mk, nk[j]);
    assert Claims(nk, j, states.Keys);
  }

  /** The last position holding `k`. */
  function LastIndexOf(ks: seq<string>, k: string): (p: nat)
    requires k in ks
    ensures p < |ks| && ks[p] == k && k !in ks[p + 1..]
  {
    var n := |ks| - 1;
    if ks[n] == k then
      assert ks[n + 1..] == [];
      n
    else
      assert ks == ks[..n] + [ks[n]];
      var p := LastIndexOf(ks[..n], k);
      assert ks[p + 1..] == ks[..n][p + 1..] + [ks[n]];
      p
  }

  /** Each key of `existingMap` maps to the last element carrying it. */
  lemma {:induction false} IndexOfLast(ks: seq<string>, es: seq<LiveElement>, k: string)
    requires |ks| == |es| && k in ks
    ensures IndexOf(ks, es)[k] == es[LastIndexOf(ks, k)]
  {
    var n := |ks| - 1;
    if ks[n] != k {
      assert ks == ks[..n] + [ks[n]];
      IndexOfLast(ks[..n], es[..n], k);
    }
  }

  /** An earlier element sharing its key with a later one is overwritten in
      `existingMap`: it is never matched and never removed, so it stays in the group. */
  lemma OverwrittenSurvives(ks: seq<string>, es: seq<LiveElement>, i: nat, j: nat)
    requires |ks| == |es| && Distinct(es) && i < j < |ks| && ks[i] == ks[j]
    ensures es[i] !in IndexOf(ks, es).Values
    ensures es[i] in Minus(es, IndexOf(ks, es).Values)
  {
    var m := IndexOf(ks, es);
    assert ks[i] in ks[i + 1..] by {
      assert ks[i + 1..][j - i - 1] == ks[j];
    }
    forall k | k in m
      ensures m[k] != es[i]
    {
      IndexOfLast(ks, es, k);
      var p := LastIndexOf(ks, k);
      assert p != i;
    }
  }

  lemma {:induction false} MinusAll(es: seq<LiveElement>, gone: set<LiveElement>)
    requires forall i :: 0 <= i < |es| ==> es[i] in gone
    ensures Minus(es, gone) == []
  {
    if es != [] {
      assert forall i :: 0 <= i < |es| - 1 ==> es[1..][i] == es[i + 1];
      MinusAll(es[1..], gone);
    }
  }

  /** With distinct live keys every live element is indexed, so none survives the diff. */
  lemma DistinctKeysLeaveNone(ks: seq<string>, es: seq<LiveElement>)
    requires |ks| == |es| && Distinct(ks)
    ensures Minus(es, IndexOf(ks, es).Values) == []
  {
    IndexOfAll(ks, es);
    var m := IndexOf(ks, es);
    forall i | 0 <= i < |es|
      ensures es[i] in m.Values
    {
      assert m[ks[i]] == es[i];
    }
    MinusAll(es, m.Values);
  }

  /** A position reads as settled: a second `updateElement` against the same source
      would change nothing. Clones copy the source; claimed elements are updated. */
  lemma RenderedSettles(nk: seq<string>, incoming: seq<Node>, before: map<string, ElementState>, mk: Markup, j: nat)
    requires |nk| == |incoming| && AllElements(incoming) && j < |incoming|
    requires DistinctNames(incoming[j].attrs)
    requires nk[j] in before ==> DistinctNames(before[nk[j]].attrs)
    requires incoming[j].children != [] ==>
      mk.innerHtml(mk.parse(SourceMarkup(incoming[j].children, mk))) == SourceMarkup(incoming[j].children, mk)
      && mk.innerHtml(incoming[j].children) == SourceMarkup(incoming[j].children, mk)
    ensures SameAttrs(Rendered(nk, incoming, before, mk)[j].attrs, incoming[j].attrs)
    ensures !Changed(Rendered(nk, incoming, before, mk)[j], incoming[j], mk)
  {
    RenderedAt(nk, incoming, before, mk, j);
    var src := incoming[j];
    if Claims(nk, j, before.Keys) {
      NewAttrsMirrorSource(before[nk[j]].attrs, src.attrs);
      UpdateSettles(before[nk[j]], src, mk);
    } else {
      AttrsChangedIff(src.attrs, src.attrs);
    }
  }
}
