/**
  String helpers shared by the sanitizer and the normalizer.  Each function
  models one JavaScript string operation the source applies:
  `trim()`, `replace(/\s+/g, " ")`, `replace(/ ,/g, ",")`, `replace(/,/g, " ")`,
  `split(" ")`, `join(sep)`, `includes(...)` and `repeat(n)`.
 */
module Text {

  /** The characters JavaScript's `\s` matches and `trim()` removes
      (ECMAScript WhiteSpace and LineTerminator). */
  predicate IsSpace(c: char) {
    || c == ' ' || c == '\t' || c == '\n' || c == '\r' || c == '\U{B}' || c == '\U{C}'
    || c == '\U{A0}' || c == '\U{1680}' || ('\U{2000}' <= c <= '\U{200A}')
    || c == '\U{2028}' || c == '\U{2029}' || c == '\U{202F}' || c == '\U{205F}'
    || c == '\U{3000}' || c == '\U{FEFF}'
  }

  predicate NoSpace(s: string) {
    forall i :: 0 <= i < |s| ==> !IsSpace(s[i])
  }

  // ---------------------------------------------------------------------------
  // trim()

  function TrimStart(s: string): (r: string)
    ensures |r| <= |s| && r == s[|s| - |r|..]
    ensures forall i :: 0 <= i < |s| - |r| ==> IsSpace(s[i])
    ensures r == [] || !IsSpace(r[0])
  {
    if s != [] && IsSpace(s[0]) then TrimStart(s[1..]) else s
  }

  function TrimEnd(s: string): (r: string)
    ensures |r| <= |s| && r == s[..|r|]
    ensures forall i :: |r| <= i < |s| ==> IsSpace(s[i])
    ensures r == [] || !IsSpace(r[|r| - 1])
  {
    if s != [] && IsSpace(s[|s| - 1]) then TrimEnd(s[..|s| - 1]) else s
  }

  /** Neither end of the string is white space. */
  predicate Trimmed(s: string) {
    s == [] || (!IsSpace(s[0]) && !IsSpace(s[|s| - 1]))
  }

  function Trim(s: string): (r: string)
    ensures Trimmed(r)
    ensures Trimmed(s) ==> r == s
    ensures r == [] <==> forall i :: 0 <= i < |s| ==> IsSpace(s[i])
  {
    var t := TrimStart(s);
    assert t != [] ==> t[|t| - 1] == s[|s| - 1];
    TrimEnd(t)
  }

  /** Trim returns a contiguous piece of its argument. */
  lemma TrimIsSlice(s: string) returns (i: nat, j: nat)
    ensures i <= j <= |s| && Trim(s) == s[i..j]
  {
    var t := TrimStart(s);
    i, j := |s| - |t|, |s| - |t| + |TrimEnd(t)|;
  }

  // ---------------------------------------------------------------------------
  // replace(/\s+/g, " ")

  /** Each maximal run of white space becomes one space. */
  function Collapse(s: string): (r: string)
    ensures |r| <= |s|
    ensures r == [] <==> s == []
    ensures s != [] ==> r[0] == (if IsSpace(s[0]) then ' ' else s[0])
    ensures s != [] ==> r[|r| - 1] == (if IsSpace(s[|s| - 1]) then ' ' else s[|s| - 1])
  {
    if s == [] then []
    else if IsSpace(s[0]) then " " + Collapse(TrimStart(s[1..]))
    else [s[0]] + Collapse(s[1..])
  }

  /** The only white space is the plain space, and never two in a row. */
  predicate SingleSpaced(s: string) {
    forall i :: 0 <= i < |s| && IsSpace(s[i]) ==> s[i] == ' ' && (i + 1 == |s| || !IsSpace(s[i + 1]))
  }

  lemma {:induction false} CollapseSingleSpaced(s: string)
    ensures SingleSpaced(Collapse(s))
  {
    if s == [] {
    } else if IsSpace(s[0]) {
      var t := TrimStart(s[1..]);
      CollapseSingleSpaced(t);
      var r := Collapse(t);
      assert Collapse(s) == " " + r;
      assert r != [] ==> r[0] == t[0] && !IsSpace(r[0]);
    } else {
      CollapseSingleSpaced(s[1..]);
      assert Collapse(s) == [s[0]] + Collapse(s[1..]);
    }
  }

  lemma SingleSpacedTail(s: string)
    requires SingleSpaced(s) && s != []
    ensures SingleSpaced(s[1..])
  {
    forall i | 0 <= i < |s| - 1 && IsSpace(s[1..][i])
      ensures s[1..][i] == ' ' && (i + 1 == |s| - 1 || !IsSpace(s[1..][i + 1]))
    {
      assert s[1..][i] == s[i + 1];
    }
  }

  lemma {:induction false} CollapseKeepsSingleSpaced(s: string)
    requires SingleSpaced(s)
    ensures Collapse(s) == s
  {
    if s != [] {
      var t := s[1..];
      SingleSpacedTail(s);
      CollapseKeepsSingleSpaced(t);
      CollapseStep(s);
      assert s == [s[0]] + t;
    }
  }

  /** On single-spaced text, Collapse only ever looks at one character at a time. */
  lemma CollapseStep(s: string)
    requires SingleSpaced(s) && s != []
    ensures Collapse(s) == [s[0]] + Collapse(s[1..])
  {
    if IsSpace(s[0]) {
      assert s[1..] == [] || !IsSpace(s[1..][0]);
    }
  }

  /** A piece without white space passes through Collapse untouched. */
  lemma {:induction false} CollapseSpaceFreePrefix(p: string, r: string)
    requires NoSpace(p)
    ensures Collapse(p + r) == p + Collapse(r)
  {
    if p != [] {
      assert (p + r)[0] == p[0] && (p + r)[1..] == p[1..] + r;
      CollapseSpaceFreePrefix(p[1..], r);
    } else {
      assert p + r == r;
    }
  }

  lemma CollapseHasSpace(s: string)
    requires exists i :: 0 <= i < |s| && IsSpace(s[i])
    ensures ' ' in Collapse(s)
  {
    var i :| 0 <= i < |s| && IsSpace(s[i]);
    CollapseHasSpaceAt(s, i);
  }

  lemma {:induction false} CollapseHasSpaceAt(s: string, i: nat)
    requires i < |s| && IsSpace(s[i])
    ensures ' ' in Collapse(s)
  {
    if !IsSpace(s[0]) {
      CollapseHasSpaceAt(s[1..], i - 1);
      assert Collapse(s) == [s[0]] + Collapse(s[1..]);
    }
  }

  // ---------------------------------------------------------------------------
  // replace(/ab/g, "c") for a two-character pattern

  /** Replaces, left to right, every non-overlapping occurrence of the pair `a b` by `c`. */
  function ReplacePair(s: string, a: char, b: char, c: char): (r: string)
    ensures |r| <= |s|
    ensures r == [] <==> s == []
    ensures s != [] ==> r[0] == (if |s| >= 2 && s[0] == a && s[1] == b then c else s[0])
    ensures s != [] ==> r[|r| - 1] == s[|s| - 1] || r[|r| - 1] == c
  {
    if |s| < 2 then s
    else if s[0] == a && s[1] == b then [c] + ReplacePair(s[2..], a, b, c)
    else [s[0]] + ReplacePair(s[1..], a, b, c)
  }

  /** No `a` is immediately followed by `b`. */
  predicate NoPair(s: string, a: char, b: char) {
    forall i :: 0 <= i < |s| - 1 ==> !(s[i] == a && s[i + 1] == b)
  }

  lemma {:induction false} ReplacePairWithoutMatch(s: string, a: char, b: char, c: char)
    requires NoPair(s, a, b)
    ensures ReplacePair(s, a, b, c) == s
  {
    if |s| >= 2 {
      assert !(s[0] == a && s[1] == b);
      ReplacePairWithoutMatch(s[1..], a, b, c);
      assert s == [s[0]] + s[1..];
    }
  }

  /** A piece without the pattern's first character passes through untouched. */
  lemma {:induction false} ReplacePairFreePrefix(p: string, r: string, a: char, b: char, c: char)
    requires a !in p
    ensures ReplacePair(p + r, a, b, c) == p + ReplacePair(r, a, b, c)
  {
    if p == [] {
      assert p + r == r;
    } else {
      var s := p + r;
      assert s[0] == p[0] && s[1..] == p[1..] + r;
      ReplacePairHead(s, a, b, c);
      ReplacePairFreePrefix(p[1..], r, a, b, c);
      var x := ReplacePair(r, a, b, c);
      assert p + x == [p[0]] + (p[1..] + x);
    }
  }

  /** A string whose first character is not `a` keeps that character in front. */
  lemma ReplacePairHead(s: string, a: char, b: char, c: char)
    requires s != [] && s[0] != a
    ensures ReplacePair(s, a, b, c) == [s[0]] + ReplacePair(s[1..], a, b, c)
  {
    if |s| < 2 {
      assert s[1..] == [] && s == [s[0]];
    }
  }

  /** SingleSpaced, one character at a time. */
  lemma SingleSpacedCons(x: char, t: string)
    ensures SingleSpaced([x] + t) <==>
      SingleSpaced(t) && (IsSpace(x) ==> x == ' ' && (t == [] || !IsSpace(t[0])))
  {
    var s := [x] + t;
    assert s[0] == x;
    assert forall i :: 0 <= i < |t| ==> s[i + 1] == t[i];
    if SingleSpaced(s) {
      forall i | 0 <= i < |t| && IsSpace(t[i])
        ensures t[i] == ' ' && (i + 1 == |t| || !IsSpace(t[i + 1]))
      {
        assert s[i + 1] == t[i];
      }
    }
  }

  /** NoPair, one character at a time. */
  lemma NoPairCons(x: char, t: string, a: char, b: char)
    ensures NoPair([x] + t, a, b) <==> NoPair(t, a, b) && (t != [] ==> !(x == a && t[0] == b))
  {
    var s := [x] + t;
    assert s[0] == x;
    assert forall i :: 0 <= i < |t| ==> s[i + 1] == t[i];
    if NoPair(s, a, b) {
      forall i | 0 <= i < |t| - 1
        ensures !(t[i] == a && t[i + 1] == b)
      {
        assert s[i + 1] == t[i] && s[i + 2] == t[i + 1];
      }
    }
  }

  /** After `replace(/ ,/g, ",")` on single-spaced text, no space precedes a comma. */
  lemma {:induction false} DropSpaceBeforeComma(s: string)
    requires SingleSpaced(s)
    ensures SingleSpaced(ReplacePair(s, ' ', ',', ','))
    ensures NoPair(ReplacePair(s, ' ', ',', ','), ' ', ',')
  {
    if |s| >= 2 {
      var r := ReplacePair(s, ' ', ',', ',');
      assert s == [s[0]] + s[1..];
      SingleSpacedCons(s[0], s[1..]);
      if s[0] == ' ' && s[1] == ',' {
        assert s[1..] == [','] + s[2..];
        SingleSpacedCons(',', s[2..]);
        DropSpaceBeforeComma(s[2..]);
        var t := ReplacePair(s[2..], ' ', ',', ',');
        assert r == [','] + t;
        SingleSpacedCons(',', t);
        NoPairCons(',', t, ' ', ',');
      } else {
        DropSpaceBeforeComma(s[1..]);
        var t := ReplacePair(s[1..], ' ', ',', ',');
        assert r == [s[0]] + t;
        assert s[0] == ' ' ==> t[0] == s[1];
        SingleSpacedCons(s[0], t);
        NoPairCons(s[0], t, ' ', ',');
      }
    }
  }

  /** After `replace(/, /g, ",")` on text that already has no space before a comma,
      no space touches a comma on either side. */
  lemma {:induction false} DropSpaceAfterComma(s: string)
    requires SingleSpaced(s) && NoPair(s, ' ', ',')
    ensures SingleSpaced(ReplacePair(s, ',', ' ', ','))
    ensures NoPair(ReplacePair(s, ',', ' ', ','), ' ', ',')
    ensures NoPair(ReplacePair(s, ',', ' ', ','), ',', ' ')
  {
    if |s| >= 2 {
      var r := ReplacePair(s, ',', ' ', ',');
      assert s == [s[0]] + s[1..];
      SingleSpacedCons(s[0], s[1..]);
      NoPairCons(s[0], s[1..], ' ', ',');
      if s[0] == ',' && s[1] == ' ' {
        assert s[1..] == [' '] + s[2..];
        SingleSpacedCons(' ', s[2..]);
        NoPairCons(' ', s[2..], ' ', ',');
        DropSpaceAfterComma(s[2..]);
        var t := ReplacePair(s[2..], ',', ' ', ',');
        assert r == [','] + t;
        assert t != [] ==> t[0] == s[2] && !IsSpace(t[0]) && t[0] != ',';
        SingleSpacedCons(',', t);
        NoPairCons(',', t, ' ', ',');
        NoPairCons(',', t, ',', ' ');
      } else {
        DropSpaceAfterComma(s[1..]);
        var t := ReplacePair(s[1..], ',', ' ', ',');
        assert r == [s[0]] + t;
        assert t[0] == s[1];
        SingleSpacedCons(s[0], t);
        NoPairCons(s[0], t, ' ', ',');
        NoPairCons(s[0], t, ',', ' ');
      }
    }
  }

  /** `replace(/ ,/g, ",").replace(/, /g, ",")`: the comma tightening shared by the
      sanitizer's transform rule and the normalizer's matrix rule. */
  function TightenCommas(s: string): string {
    ReplacePair(ReplacePair(s, ' ', ',', ','), ',', ' ', ',')
  }

  /** Text in the normal form that TightenCommas(Collapse(_)) produces. */
  predicate Tight(s: string) {
    SingleSpaced(s) && NoPair(s, ' ', ',') && NoPair(s, ',', ' ')
  }

  lemma CollapseTightenIsTight(s: string)
    ensures Tight(TightenCommas(Collapse(s)))
  {
    CollapseSingleSpaced(s);
    DropSpaceBeforeComma(Collapse(s));
    DropSpaceAfterComma(ReplacePair(Collapse(s), ' ', ',', ','));
  }

  lemma TightIsFixed(s: string)
    requires Tight(s)
    ensures Collapse(s) == s && TightenCommas(s) == s
  {
    CollapseKeepsSingleSpaced(s);
    ReplacePairWithoutMatch(s, ' ', ',', ',');
    ReplacePairWithoutMatch(s, ',', ' ', ',');
  }

  lemma SingleSpacedSlice(s: string, i: nat, j: nat)
    requires SingleSpaced(s) && i <= j <= |s|
    ensures SingleSpaced(s[i..j])
  {
    var t := s[i..j];
    forall k | 0 <= k < |t| && IsSpace(t[k])
      ensures t[k] == ' ' && (k + 1 == |t| || !IsSpace(t[k + 1]))
    {
      assert t[k] == s[i + k];
      assert k + 1 < |t| ==> t[k + 1] == s[i + k + 1];
    }
  }

  /** Trimming single-spaced text keeps it single-spaced. */
  lemma TrimSingleSpaced(s: string)
    requires SingleSpaced(s)
    ensures SingleSpaced(Trim(s))
  {
    var i, j := TrimIsSlice(s);
    SingleSpacedSlice(s, i, j);
  }

  lemma TightSlice(s: string, i: nat, j: nat)
    requires Tight(s) && i <= j <= |s|
    ensures Tight(s[i..j])
  {
    var t := s[i..j];
    SingleSpacedSlice(s, i, j);
    forall k | 0 <= k < |t| - 1
      ensures !(t[k] == ' ' && t[k + 1] == ',') && !(t[k] == ',' && t[k + 1] == ' ')
    {
      assert t[k] == s[i + k] && t[k + 1] == s[i + k + 1];
    }
  }

  // ---------------------------------------------------------------------------
  // includes(w)

  predicate StartsWith(s: string, p: string) {
    |p| <= |s| && s[..|p|] == p
  }

  /** `s.includes(w)`. */
  predicate Contains(s: string, w: string)
    decreases |s|
  {
    StartsWith(s, w) || (s != [] && Contains(s[1..], w))
  }

  lemma {:induction false} ContainsFirstChar(s: string, w: string)
    requires Contains(s, w) && w != []
    ensures w[0] in s
  {
    if StartsWith(s, w) {
      assert s[0] == w[0];
    } else {
      ContainsFirstChar(s[1..], w);
    }
  }

  lemma {:induction false} ContainsInSuffix(s: string, k: nat, w: string)
    requires k <= |s| && Contains(s[k..], w)
    ensures Contains(s, w)
  {
    if k > 0 {
      assert s[1..][k - 1..] == s[k..];
      ContainsInSuffix(s[1..], k - 1, w);
    }
  }

  lemma ContainsAfterPrefix(p: string, r: string, w: string)
    requires Contains(r, w)
    ensures Contains(p + r, w)
  {
    assert (p + r)[|p|..] == r;
    ContainsInSuffix(p + r, |p|, w);
  }

  lemma StartsWithContains(p: string, r: string)
    ensures Contains(p + r, p)
  {
    assert (p + r)[..|p|] == p;
  }

  lemma {:induction false} ContainsSurvivesTrimStart(s: string, w: string)
    requires Contains(s, w) && w != [] && !IsSpace(w[0])
    ensures Contains(TrimStart(s), w)
  {
    if s != [] && IsSpace(s[0]) {
      assert !StartsWith(s, w);
      ContainsSurvivesTrimStart(s[1..], w);
    }
  }

  /** StartsWith, one character at a time. */
  /** `s.includes(c)` for a single character. */
  lemma ContainsChar(s: string, c: char)
    ensures Contains(s, [c]) <==> c in s
  {
    if Contains(s, [c]) {
      ContainsFirstChar(s, [c]);
    }
    if c in s {
      var i :| 0 <= i < |s| && s[i] == c;
      assert s[i..][..1] == [c];
      ContainsInSuffix(s, i, [c]);
    }
  }

  lemma StartsWithCons(x: char, t: string, p: string)
    requires p != []
    ensures StartsWith([x] + t, p) <==> x == p[0] && StartsWith(t, p[1..])
  {
    var s := [x] + t;
    if |p| <= |s| {
      assert s[..|p|] == [x] + t[..|p| - 1];
      assert p == [p[0]] + p[1..];
    }
  }

  lemma {:induction false} CollapsePrefixFromSource(s: string, p: string)
    requires NoSpace(p) && StartsWith(Collapse(s), p)
    ensures StartsWith(s, p)
  {
    if p != [] {
      assert !IsSpace(p[0]);
      assert s != [] && !IsSpace(s[0]);
      var t := Collapse(s[1..]);
      assert Collapse(s) == [s[0]] + t;
      StartsWithCons(s[0], t, p);
      assert NoSpace(p[1..]) by {
        assert forall i :: 0 <= i < |p| - 1 ==> p[1..][i] == p[i + 1];
      }
      CollapsePrefixFromSource(s[1..], p[1..]);
      assert s == [s[0]] + s[1..];
      StartsWithCons(s[0], s[1..], p);
    }
  }

  /** Collapse keeps every occurrence of a space-free word. */
  lemma {:induction false} CollapseKeepsWord(s: string, w: string)
    requires w != [] && NoSpace(w) && Contains(s, w)
    ensures Contains(Collapse(s), w)
    decreases |s|
  {
    if StartsWith(s, w) {
      assert s == w + s[|w|..];
      CollapseSpaceFreePrefix(w, s[|w|..]);
      StartsWithContains(w, Collapse(s[|w|..]));
    } else if IsSpace(s[0]) {
      var t := TrimStart(s[1..]);
      ContainsSurvivesTrimStart(s[1..], w);
      CollapseKeepsWord(t, w);
      ContainsAfterPrefix(" ", Collapse(t), w);
    } else {
      CollapseKeepsWord(s[1..], w);
      ContainsAfterPrefix([s[0]], Collapse(s[1..]), w);
    }
  }

  /** Collapse creates no occurrence of a space-free word. */
  lemma {:induction false} CollapseAddsNoWord(s: string, w: string)
    requires w != [] && NoSpace(w) && Contains(Collapse(s), w)
    ensures Contains(s, w)
    decreases |s|
  {
    if s == [] {
      assert false;
    } else if IsSpace(s[0]) {
      var t := TrimStart(s[1..]);
      CollapseLeadingSpace(s, w);
      CollapseAddsNoWord(t, w);
      ContainsInSuffix(s[1..], |s[1..]| - |t|, w);
    } else if StartsWith(Collapse(s), w) {
      CollapsePrefixFromSource(s, w);
    } else {
      var r := Collapse(s);
      assert r == [s[0]] + Collapse(s[1..]) && r[1..] == Collapse(s[1..]);
      CollapseAddsNoWord(s[1..], w);
    }
  }

  lemma CollapseLeadingSpace(s: string, w: string)
    requires s != [] && IsSpace(s[0]) && w != [] && NoSpace(w) && Contains(Collapse(s), w)
    ensures Contains(Collapse(TrimStart(s[1..])), w)
  {
    var x := Collapse(TrimStart(s[1..]));
    var r := Collapse(s);
    assert r == " " + x;
    assert !IsSpace(w[0]);
    assert r[0] == ' ';
    assert !StartsWith(r, w);
    assert r[1..] == x;
  }

  /** Replacing the pair `a b` keeps every occurrence of a word free of `a` and `b`. */
  lemma {:induction false} ReplacePairKeepsWord(s: string, a: char, b: char, c: char, w: string)
    requires w != [] && a !in w && b !in w && Contains(s, w)
    ensures Contains(ReplacePair(s, a, b, c), w)
    decreases |s|
  {
    if StartsWith(s, w) {
      assert s == w + s[|w|..];
      ReplacePairFreePrefix(w, s[|w|..], a, b, c);
      StartsWithContains(w, ReplacePair(s[|w|..], a, b, c));
    } else if |s| < 2 {
    } else if s[0] == a && s[1] == b {
      assert !StartsWith(s[1..], w);
      assert s[1..][1..] == s[2..];
      ReplacePairKeepsWord(s[2..], a, b, c, w);
      ContainsAfterPrefix([c], ReplacePair(s[2..], a, b, c), w);
    } else {
      ReplacePairKeepsWord(s[1..], a, b, c, w);
      ContainsAfterPrefix([s[0]], ReplacePair(s[1..], a, b, c), w);
    }
  }

  // ---------------------------------------------------------------------------
  // replace(/,/g, " "), split(sep), filter(Boolean), join(sep), repeat(n)

  function ReplaceChar(s: string, a: char, b: char): (r: string)
    ensures |r| == |s|
    ensures forall i :: 0 <= i < |s| ==> r[i] == (if s[i] == a then b else s[i])
  {
    if s == [] then [] else [if s[0] == a then b else s[0]] + ReplaceChar(s[1..], a, b)
  }

  /** `s.split(sep)`: the pieces between occurrences of `sep`; always at least one. */
  function Split(s: string, sep: char): (r: seq<string>)
    ensures |r| >= 1
    ensures forall k :: 0 <= k < |r| ==> sep !in r[k]
  {
    if sep !in s then [s]
    else
      var i := IndexOf(s, sep);
      [s[..i]] + Split(s[i + 1..], sep)
  }

  function IndexOf(s: string, c: char): (i: nat)
    requires c in s
    ensures i < |s| && s[i] == c && c !in s[..i]
  {
    if s[0] == c then 0 else 1 + IndexOf(s[1..], c)
  }

  function Join(parts: seq<string>, sep: string): string {
    if parts == [] then []
    else if |parts| == 1 then parts[0]
    else parts[0] + sep + Join(parts[1..], sep)
  }

  /** The pieces of `s.split(sep)` joined back with `sep` give `s` again. */
  lemma {:induction false} JoinSplit(s: string, sep: char)
    ensures Join(Split(s, sep), [sep]) == s
    decreases |s|
  {
    if sep in s {
      var i := IndexOf(s, sep);
      var rest := s[i + 1..];
      JoinSplit(rest, sep);
      JoinCons(s[..i], Split(rest, sep), [sep]);
      assert s == s[..i] + [sep] + rest;
    }
  }

  lemma JoinCons(p: string, ps: seq<string>, sep: string)
    requires ps != []
    ensures Join([p] + ps, sep) == p + sep + Join(ps, sep)
  {
    assert ([p] + ps)[1..] == ps;
  }

  /** Splitting a join of pieces free of `sep` gives the pieces back. */
  lemma {:induction false} SplitJoin(parts: seq<string>, sep: char)
    requires parts != [] && forall k :: 0 <= k < |parts| ==> sep !in parts[k]
    ensures Split(Join(parts, [sep]), sep) == parts
    decreases |parts|
  {
    if |parts| > 1 {
      var p, rest := parts[0], Join(parts[1..], [sep]);
      var s := p + [sep] + rest;
      assert Join(parts, [sep]) == s;
      assert sep in s by { assert s[|p|] == sep; }
      IndexOfAfterFree(p, rest, sep);
      var i := IndexOf(s, sep);
      assert s[..i] == p && s[i + 1..] == rest;
      SplitJoin(parts[1..], sep);
      assert parts == [p] + parts[1..];
    }
  }

  lemma {:induction false} IndexOfAfterFree(p: string, rest: string, sep: char)
    requires sep !in p
    ensures sep in p + [sep] + rest && IndexOf(p + [sep] + rest, sep) == |p|
  {
    var s := p + [sep] + rest;
    assert s[|p|] == sep;
    if p != [] {
      assert s[1..] == p[1..] + [sep] + rest;
      IndexOfAfterFree(p[1..], rest, sep);
    }
  }

  /** `filter(Boolean)` on strings: drops the empty ones. */
  function NonEmpty(parts: seq<string>): (r: seq<string>)
    ensures forall k :: 0 <= k < |r| ==> r[k] != [] && r[k] in parts
  {
    if parts == [] then []
    else if parts[0] == [] then NonEmpty(parts[1..])
    else [parts[0]] + NonEmpty(parts[1..])
  }

  /** The filter keeps every non-empty piece ... */
  lemma {:induction false} NonEmptyKeeps(parts: seq<string>, p: string)
    requires p in parts && p != []
    ensures p in NonEmpty(parts)
  {
    if parts[0] != p {
      assert p in parts[1..];
      NonEmptyKeeps(parts[1..], p);
    }
  }

  /** ... in order: it works piece by piece over a concatenation. */
  lemma {:induction false} NonEmptyAppend(a: seq<string>, b: seq<string>)
    ensures NonEmpty(a + b) == NonEmpty(a) + NonEmpty(b)
  {
    if a == [] {
      assert a + b == b;
    } else {
      assert (a + b)[0] == a[0] && (a + b)[1..] == a[1..] + b;
      NonEmptyAppend(a[1..], b);
    }
  }

  /** `s.repeat(n)`: n copies of `s` one after another. */
  function Repeat(s: string, n: nat): (r: string)
    ensures |r| == n * |s|
  {
    if n == 0 then [] else s + Repeat(s, n - 1)
  }

  /** Position `i` of `s.repeat(n)` holds the character of `s` at `i` modulo its length. */
  lemma {:induction false} RepeatAt(s: string, n: nat, i: nat)
    requires i < |Repeat(s, n)|
    ensures |s| > 0 && Repeat(s, n)[i] == s[i % |s|]
  {
    if n == 0 {
      assert false;
    }
    var t := Repeat(s, n - 1);
    assert Repeat(s, n) == s + t;
    if i < |s| {
      ModUnique(i, |s|, 0, i);
    } else {
      RepeatAt(s, n - 1, i - |s|);
      ModShift(i, |s|);
    }
  }

  lemma ModShift(i: int, m: int)
    requires 0 < m <= i
    ensures (i - m) % m == i % m
  {
    var q, r := (i - m) / m, (i - m) % m;
    assert i - m == q * m + r && 0 <= r < m;
    assert (q + 1) * m == q * m + m;
    ModUnique(i, m, q + 1, r);
  }

  /** The remainder of Euclidean division is the only one in range. */
  lemma ModUnique(a: int, m: int, q: int, r: int)
    requires m > 0 && 0 <= r < m && a == q * m + r
    ensures a % m == r
  {
    var q0, r0 := a / m, a % m;
    assert a == q0 * m + r0 && 0 <= r0 < m;
    var d := q - q0;
    assert d * m == q * m - q0 * m;
    assert d * m == r0 - r;
  }

  // ---------------------------------------------------------------------------
  // Runs of characters and sequence helpers

  /** Length of the run of characters other than `c` starting at `p`
      (the regular-expression class `[^c]*`). */
  function RunUntil(s: string, p: nat, c: char): (n: nat)
    requires p <= |s|
    ensures p + n <= |s| && (p + n == |s| || s[p + n] == c)
    decreases |s| - p
  {
    if p == |s| || s[p] == c then 0 else 1 + RunUntil(s, p + 1, c)
  }

  lemma {:induction false} RunUntilChars(s: string, p: nat, c: char)
    requires p <= |s|
    ensures forall k :: p <= k < p + RunUntil(s, p, c) ==> s[k] != c
    decreases |s| - p
  {
    if p < |s| && s[p] != c {
      RunUntilChars(s, p + 1, c);
    }
  }

  /** A run that ends at the first `c` has exactly the length up to it. */
  lemma {:induction false} RunUntilOf(s: string, p: nat, c: char, n: nat)
    requires p + n < |s| && s[p + n] == c && forall k :: p <= k < p + n ==> s[k] != c
    ensures RunUntil(s, p, c) == n
    decreases n
  {
    if n > 0 {
      RunUntilOf(s, p + 1, c, n - 1);
    }
  }

  lemma AppendAssoc<T>(a: seq<T>, b: seq<T>, c: seq<T>)
    ensures (a + b) + c == a + (b + c)
  {
  }
}
