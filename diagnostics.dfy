/**
  Editor diagnostics for SVG source text (packages/bisync/src/diagnostics.ts).

  The sanitizer's verdict becomes diagnostics anchored at line 1, column 1; then
  the raw text is scanned with the attribute pattern `(\b[a-zA-Z-]+\b)="([^"]*)"`
  and every numeric attribute whose value is not finite, is negative where only
  positive values make sense, or is an opacity outside [0, 1] yields an error
  spanning the whole `name="value"` match.
 */
module Diagnostics {
  import opened Wrappers
  import opened Dom
  import Text
  import Numbers
  import Sanitize

  datatype Severity = Error | Warning

  datatype Diagnostic = Diagnostic(message: string, severity: Severity,
                                   startLine: nat, startColumn: nat,
                                   endLine: nat, endColumn: nat)

  /** A 1-based line and column. */
  datatype Position = Position(line: nat, column: nat)

  /** `p` comes no later than `q` in the text. */
  predicate PositionLe(p: Position, q: Position) {
    p.line < q.line || (p.line == q.line && p.column <= q.column)
  }

  predicate IsPositiveName(name: string) {
    name in {"width", "height", "stroke-width"}
  }

  predicate IsNumericName(name: string) {
    name in {"x", "y", "width", "height", "rx", "ry", "cx", "cy", "x1", "y1", "x2", "y2", "stroke-width", "opacity"}
  }

  // ---------------------------------------------------------------------------
  // positionFromIndex

  /** `s.split(/\r?\n/)`: the pieces between line breaks, a `\r` right before a
      `\n` belonging to the break. */
  function SplitLines(s: string): (r: seq<string>)
    ensures |r| >= 1
    decreases |s|
  {
    if '\n' !in s then [s]
    else
      var i := Text.IndexOf(s, '\n');
      var head := s[..i];
      var piece := if head != [] && head[|head| - 1] == '\r' then head[..|head| - 1] else head;
      [piece] + SplitLines(s[i + 1..])
  }

  /** The number of `\n` characters in `s`. */
  function Breaks(s: string): nat {
    if s == [] then 0 else (if s[0] == '\n' then 1 else 0) + Breaks(s[1..])
  }

  /** The offset just after the last `\n` of `s`, or 0 when there is none. */
  function LineStart(s: string): (n: nat)
    ensures n <= |s|
  {
    if s == [] then 0
    else if s[|s| - 1] == '\n' then |s|
    else LineStart(s[..|s| - 1])
  }

  function PositionFromIndex(code: string, index: nat): (r: Position)
    ensures r.line >= 1 && r.column >= 1
  {
    var sub := code[..if index <= |code| then index else |code|];
    var lines := SplitLines(sub);
    Position(|lines|, |lines[|lines| - 1]| + 1)
  }

  lemma {:induction false} BreaksAppend(a: string, b: string)
    ensures Breaks(a + b) == Breaks(a) + Breaks(b)
    decreases |a|
  {
    if a == [] {
      assert a + b == b;
    } else {
      assert (a + b)[0] == a[0] && (a + b)[1..] == a[1..] + b;
      BreaksAppend(a[1..], b);
    }
  }

  lemma {:induction false} BreaksNone(s: string)
    requires '\n' !in s
    ensures Breaks(s) == 0
    decreases |s|
  {
    if s != [] {
      assert s[0] != '\n';
      BreaksNone(s[1..]);
    }
  }

  lemma {:induction false} LineStartNone(s: string)
    requires '\n' !in s
    ensures LineStart(s) == 0
    decreases |s|
  {
    if s != [] {
      assert s[|s| - 1] != '\n';
      LineStartNone(s[..|s| - 1]);
    }
  }

  /** The line start of a concatenation: that of `b` shifted when `b` has a break,
      that of `a` otherwise. */
  lemma {:induction false} LineStartAppend(a: string, b: string)
    ensures LineStart(a + b) == if '\n' in b then |a| + LineStart(b) else LineStart(a)
    decreases |b|
  {
    if b == [] {
      assert a + b == a;
    } else {
      var b' := b[..|b| - 1];
      assert b == b' + [b[|b| - 1]];
      assert (a + b)[..|a + b| - 1] == a + b';
      if b[|b| - 1] != '\n' {
        LineStartAppend(a, b');
        assert ('\n' in b) == ('\n' in b');
      }
    }
  }

  /** The split has one piece more than there are breaks, and its last piece is
      everything after the last break. */
  lemma {:induction false} SplitLinesCounts(s: string)
    ensures |SplitLines(s)| == 1 + Breaks(s)
    ensures |SplitLines(s)[|SplitLines(s)| - 1]| == |s| - LineStart(s)
    decreases |s|
  {
    if '\n' !in s {
      BreaksNone(s);
      LineStartNone(s);
    } else {
      var i := Text.IndexOf(s, '\n');
      var rest := s[i + 1..];
      var tail := SplitLines(rest);
      var r := SplitLines(s);
      assert r == [r[0]] + tail;
      assert |r| == 1 + |tail| && r[|r| - 1] == tail[|tail| - 1];
      SplitLinesCounts(rest);
      BreaksAtFirst(s, i);
      LineStartAtFirst(s, i);
    }
  }

  lemma BreaksAtFirst(s: string, i: nat)
    requires i < |s| && s[i] == '\n' && '\n' !in s[..i]
    ensures Breaks(s) == 1 + Breaks(s[i + 1..])
  {
    var rest := s[i + 1..];
    assert s == s[..i] + [s[i]] + rest;
    BreaksNone(s[..i]);
    BreaksAppend(s[..i] + [s[i]], rest);
    BreaksAppend(s[..i], [s[i]]);
    assert Breaks([s[i]]) == 1;
  }

  lemma LineStartAtFirst(s: string, i: nat)
    requires i < |s| && s[i] == '\n'
    ensures LineStart(s) == i + 1 + LineStart(s[i + 1..])
  {
    var rest := s[i + 1..];
    var lead := s[..i + 1];
    assert s == lead + rest;
    assert lead[|lead| - 1] == '\n';
    LineStartAppend(lead, rest);
    if '\n' !in rest {
      LineStartNone(rest);
    }
  }

  /** Line = 1 + the breaks before the index; column = 1 + the characters after the last one. */
  lemma PositionCounts(code: string, index: nat)
    requires index <= |code|
    ensures PositionFromIndex(code, index) ==
      Position(1 + Breaks(code[..index]), 1 + index - LineStart(code[..index]))
  {
    SplitLinesCounts(code[..index]);
  }

  lemma PositionAtStart(code: string)
    ensures PositionFromIndex(code, 0) == Position(1, 1)
  {
    PositionCounts(code, 0);
  }

  /** One character further: a `\n` starts a new line at column 1, anything else
      (a `\r` included) moves one column right. */
  lemma PositionStep(code: string, index: nat)
    requires index < |code|
    ensures var p := PositionFromIndex(code, index);
      PositionFromIndex(code, index + 1) ==
        if code[index] == '\n' then Position(p.line + 1, 1) else Position(p.line, p.column + 1)
  {
    PositionCounts(code, index);
    PositionCounts(code, index + 1);
    var a := code[..index];
    assert code[..index + 1] == a + [code[index]];
    BreaksAppend(a, [code[index]]);
    assert (a + [code[index]])[..|a|] == a;
  }

  /** Offsets past the end are clamped, as `slice` does. */
  lemma PositionPastEnd(code: string, index: nat)
    requires index >= |code|
    ensures PositionFromIndex(code, index) == PositionFromIndex(code, |code|)
  {
  }

  lemma {:induction false} PositionMonotone(code: string, i: nat, j: nat)
    requires i <= j
    ensures PositionLe(PositionFromIndex(code, i), PositionFromIndex(code, j))
    decreases j - i
  {
    if i < j {
      if i < |code| {
        PositionStep(code, i);
        PositionMonotone(code, i + 1, j);
      } else {
        PositionPastEnd(code, i);
        PositionPastEnd(code, j);
      }
    }
  }

  // ---------------------------------------------------------------------------
  // The attribute pattern

  /** `\w` at offset `i` (false outside the text). */
  predicate WordAt(s: string, i: int) {
    0 <= i < |s| && Sanitize.IsWordChar(s[i])
  }

  /** `\b` at offset `i`. */
  predicate BoundaryAt(s: string, i: int) {
    WordAt(s, i - 1) != WordAt(s, i)
  }

  predicate IsNameChar(c: char) {
    Sanitize.IsLetter(c) || c == '-'
  }

  /** Length of the run of `[a-zA-Z-]` starting at `p`. */
  function NameRun(s: string, p: nat): (n: nat)
    requires p <= |s|
    ensures p + n <= |s| && (p + n == |s| || !IsNameChar(s[p + n]))
    decreases |s| - p
  {
    if p == |s| || !IsNameChar(s[p]) then 0 else 1 + NameRun(s, p + 1)
  }

  lemma {:induction false} NameRunChars(s: string, p: nat)
    requires p <= |s|
    ensures forall k :: p <= k < p + NameRun(s, p) ==> IsNameChar(s[k])
    decreases |s| - p
  {
    if p < |s| && IsNameChar(s[p]) {
      NameRunChars(s, p + 1);
    }
  }

  /** One match of the pattern: where it starts, the two groups, and where it ends. */
  datatype Match = Match(index: nat, name: string, raw: string, end: nat)

  /** The match of the pattern that starts exactly at `p`, if any. The name group is
      greedy and must be followed by `="`, so it is the whole name run; the value
      group runs to the next `"`. */
  function MatchAt(s: string, p: nat): (r: Option<Match>)
    requires p <= |s|
    ensures r.Some? ==> r.value.index == p < r.value.end <= |s|
  {
    var n := NameRun(s, p);
    var eq := p + n;
    if n > 0 && BoundaryAt(s, p) && BoundaryAt(s, eq) && eq + 1 < |s| && s[eq] == '=' && s[eq + 1] == '"' then
      var v := Text.RunUntil(s, eq + 2, '"');
      if eq + 2 + v < |s| then
        Some(Match(p, s[p..eq], s[eq + 2..eq + 2 + v], eq + 3 + v))
      else None
    else None
  }

  /** The pieces a match is cut from. */
  lemma MatchAtParts(s: string, p: nat)
    requires p <= |s| && MatchAt(s, p).Some?
    ensures var eq := p + NameRun(s, p);
      var v := Text.RunUntil(s, eq + 2, '"');
      eq + 2 + v < |s| && s[eq] == '=' && s[eq + 1] == '"' && s[eq + 2 + v] == '"' &&
      MatchAt(s, p).value == Match(p, s[p..eq], s[eq + 2..eq + 2 + v], eq + 3 + v)
  {
  }

  /** The text from `p` cut into a name ending at `eq`, `="`, a value of `v`
      characters and a closing quote. */
  lemma QuotedSlice(s: string, p: nat, eq: nat, v: nat)
    requires p < eq && eq + 2 + v < |s|
    requires s[eq] == '=' && s[eq + 1] == '"' && s[eq + 2 + v] == '"'
    requires forall k :: p <= k < eq ==> IsNameChar(s[k])
    requires forall k :: eq + 2 <= k < eq + 2 + v ==> s[k] != '"'
    ensures var name, raw := s[p..eq], s[eq + 2..eq + 2 + v];
      name != [] && s[p..eq + 3 + v] == name + "=\"" + raw + "\"" &&
      (forall k :: 0 <= k < |name| ==> IsNameChar(name[k])) &&
      (forall k :: 0 <= k < |raw| ==> raw[k] != '"')
  {
    var e := eq + 2 + v;
    assert s[p..eq + 3 + v] == s[p..eq] + s[eq..eq + 2] + s[eq + 2..e] + s[e..e + 1];
    assert s[eq..eq + 2] == "=\"" && s[e..e + 1] == "\"";
    var name, raw := s[p..eq], s[eq + 2..e];
    assert forall k :: 0 <= k < |name| ==> name[k] == s[p + k];
    assert forall k :: 0 <= k < |raw| ==> raw[k] == s[eq + 2 + k];
  }

  /** A match covers exactly `name="raw"`: a non-empty name of letters and dashes,
      and a value without quotes. */
  lemma MatchText(s: string, p: nat)
    requires p <= |s| && MatchAt(s, p).Some?
    ensures var m := MatchAt(s, p).value;
      m.name != [] && s[p..m.end] == m.name + "=\"" + m.raw + "\"" &&
      (forall k :: 0 <= k < |m.name| ==> IsNameChar(m.name[k])) &&
      (forall k :: 0 <= k < |m.raw| ==> m.raw[k] != '"')
  {
    var n := NameRun(s, p);
    var eq := p + n;
    var v := Text.RunUntil(s, eq + 2, '"');
    MatchAtParts(s, p);
    NameRunChars(s, p);
    Text.RunUntilChars(s, eq + 2, '"');
    QuotedSlice(s, p, eq, v);
  }

  /** `regex.exec` with `lastIndex == k`: the leftmost match starting at `k` or later. */
  function NextMatch(s: string, k: nat): (r: Option<Match>)
    requires k <= |s|
    ensures r.Some? ==> k <= r.value.index < r.value.end <= |s| && MatchAt(s, r.value.index) == r
    ensures r.Some? ==> forall p :: k <= p < r.value.index ==> MatchAt(s, p).None?
    ensures r.None? ==> forall p :: k <= p <= |s| ==> MatchAt(s, p).None?
    decreases |s| - k
  {
    if MatchAt(s, k).Some? then MatchAt(s, k)
    else if k == |s| then None
    else NextMatch(s, k + 1)
  }

  /** The matches a global `exec` loop finds from `lastIndex == k`: each one resumes
      the search where the previous match ended. */
  function Matches(s: string, k: nat): seq<Match>
    requires k <= |s|
    decreases |s| - k
  {
    match NextMatch(s, k)
    case None => []
    case Some(m) => [m] + Matches(s, m.end)
  }

  /** The matches are real, in text order, and do not overlap. */
  lemma {:induction false} MatchesInOrder(s: string, k: nat)
    requires k <= |s|
    ensures var ms := Matches(s, k);
      (forall i :: 0 <= i < |ms| ==> k <= ms[i].index < ms[i].end <= |s| && MatchAt(s, ms[i].index) == Some(ms[i])) &&
      (forall i :: 0 <= i < |ms| - 1 ==> ms[i].end <= ms[i + 1].index)
    decreases |s| - k
  {
    var next := NextMatch(s, k);
    if next.Some? {
      var m := next.value;
      MatchesInOrder(s, m.end);
      assert Matches(s, k) == [m] + Matches(s, m.end);
    }
  }

  /** None is skipped: no match starts between `k` and the first one, between one
      match's end and the next one's start, or after the last one's end. */
  lemma {:induction false} MatchesSkipNothing(s: string, k: nat)
    requires k <= |s|
    ensures var ms := Matches(s, k);
      (ms == [] ==> forall p :: k <= p <= |s| ==> MatchAt(s, p).None?) &&
      (ms != [] ==> forall p :: k <= p < ms[0].index ==> MatchAt(s, p).None?) &&
      (ms != [] ==> forall p :: ms[|ms| - 1].end <= p <= |s| ==> MatchAt(s, p).None?) &&
      (forall i, p :: 0 <= i < |ms| - 1 && ms[i].end <= p < ms[i + 1].index && p <= |s| ==> MatchAt(s, p).None?)
    decreases |s| - k
  {
    var next := NextMatch(s, k);
    if next.Some? {
      var m := next.value;
      MatchesSkipNothing(s, m.end);
      var rest := Matches(s, m.end);
      assert Matches(s, k) == [m] + rest;
      if rest != [] {
        assert ([m] + rest)[1] == rest[0];
      }
    }
  }

  // ---------------------------------------------------------------------------
  // createDiagnostic and the numeric checks

  /** `d` runs from the position of offset `from` to that of offset `to`. */
  predicate Spans(d: Diagnostic, code: string, from: nat, to: nat) {
    var start := PositionFromIndex(code, from);
    var end := PositionFromIndex(code, to);
    d.startLine == start.line && d.startColumn == start.column &&
    d.endLine == end.line && d.endColumn == end.column
  }

  /** An error spanning `length` characters from `index`. */
  function CreatedDiagnostic(message: string, code: string, index: nat, length: nat): (d: Diagnostic)
    ensures d.message == message && d.severity == Error && Spans(d, code, index, index + length)
  {
    var start := PositionFromIndex(code, index);
    var end := PositionFromIndex(code, index + length);
    Diagnostic(message, Error, start.line, start.column, end.line, end.column)
  }

  /** A created diagnostic's start does not come after its end. */
  lemma CreatedSpan(message: string, code: string, index: nat, length: nat)
    ensures var d := CreatedDiagnostic(message, code, index, length);
      PositionLe(Position(d.startLine, d.startColumn), Position(d.endLine, d.endColumn))
  {
    PositionMonotone(code, index, index + length);
  }

  function FiniteMessage(name: string): string {
    "Attribute " + name + " must be a finite number"
  }

  function NegativeMessage(name: string): string {
    "Attribute " + name + " cannot be negative"
  }

  const OpacityMessage := "Opacity must be between 0 and 1"

  /** One of the three messages of the numeric scan. */
  ghost predicate IsComplaintMessage(message: string) {
    message == OpacityMessage ||
    exists name :: IsNumericName(name) && (message == FiniteMessage(name) || message == NegativeMessage(name))
  }

  /** The message a numeric attribute earns, if any, given `Number(raw)` (`None` when
      it is not finite): the finite check, then the sign check for positive-only
      attributes, then the opacity range, on the unrounded value. */
  function ComplaintOf(name: string, value: Option<real>): Option<string> {
    if !IsNumericName(name) then None
    else
      match value
      case None => Some(FiniteMessage(name))
      case Some(v) =>
        if IsPositiveName(name) && v < 0.0 then Some(NegativeMessage(name))
        else if name == "opacity" && (v < 0.0 || v > 1.0) then Some(OpacityMessage)
        else None
  }

  function Complaint(name: string, raw: string): Option<string> {
    ComplaintOf(name, Numbers.ParseNumber(raw))
  }

  /** Only numeric names are checked; the first failing check decides the message,
      and a value that passes all three earns nothing. */
  lemma ComplaintCases(name: string, value: Option<real>)
    ensures ComplaintOf(name, value).Some? ==> IsNumericName(name) && IsComplaintMessage(ComplaintOf(name, value).value)
    ensures IsNumericName(name) && value.None? ==> ComplaintOf(name, value) == Some(FiniteMessage(name))
    ensures IsNumericName(name) && IsPositiveName(name) && value.Some? && value.value < 0.0 ==>
      ComplaintOf(name, value) == Some(NegativeMessage(name))
    ensures name == "opacity" && value.Some? && (value.value < 0.0 || value.value > 1.0) ==>
      ComplaintOf(name, value) == Some(OpacityMessage)
    ensures ComplaintOf(name, value).None? <==>
      !IsNumericName(name) ||
      (value.Some? && !(IsPositiveName(name) && value.value < 0.0) &&
       !(name == "opacity" && (value.value < 0.0 || value.value > 1.0)))
  {
  }

  /** The diagnostics of one match given its complaint: none, or one error over the
      whole match carrying the complaint. */
  function Reported(code: string, m: Match, complaint: Option<string>): (r: seq<Diagnostic>)
    requires m.index <= m.end
    ensures |r| <= 1 && (r != [] <==> complaint.Some?)
    ensures r != [] ==> r[0].message == complaint.value && r[0].severity == Error && Spans(r[0], code, m.index, m.end)
  {
    match complaint
    case None => []
    case Some(message) => [CreatedDiagnostic(message, code, m.index, m.end - m.index)]
  }

  /** The diagnostics one match yields. */
  function MatchDiagnostics(code: string, m: Match): seq<Diagnostic>
    requires m.index <= m.end
  {
    Reported(code, m, Complaint(m.name, m.raw))
  }

  predicate WellFormed(ms: seq<Match>) {
    forall i :: 0 <= i < |ms| ==> ms[i].index <= ms[i].end
  }

  function AllMatchDiagnostics(code: string, ms: seq<Match>): (r: seq<Diagnostic>)
    requires WellFormed(ms)
    ensures |r| <= |ms|
  {
    if ms == [] then [] else MatchDiagnostics(code, ms[0]) + AllMatchDiagnostics(code, ms[1..])
  }

  lemma MatchesWellFormed(s: string, k: nat)
    requires k <= |s|
    ensures WellFormed(Matches(s, k))
  {
    MatchesInOrder(s, k);
  }

  /** `numericAttributeDiagnostics`. */
  function NumericDiagnostics(code: string): (r: seq<Diagnostic>)
  {
    MatchesWellFormed(code, 0);
    AllMatchDiagnostics(code, Matches(code, 0))
  }

  /** A diagnostic of the scan: an error carrying one of the three messages, whose
      span does not end before it starts. */
  ghost predicate ScanDiagnostic(d: Diagnostic) {
    d.severity == Error && IsComplaintMessage(d.message) &&
    PositionLe(Position(d.startLine, d.startColumn), Position(d.endLine, d.endColumn))
  }

  lemma ReportedShape(code: string, m: Match, complaint: Option<string>)
    requires m.index <= m.end
    requires complaint.Some? ==> IsComplaintMessage(complaint.value)
    ensures forall d :: d in Reported(code, m, complaint) ==> ScanDiagnostic(d)
  {
    if complaint.Some? {
      var d := CreatedDiagnostic(complaint.value, code, m.index, m.end - m.index);
      assert Reported(code, m, complaint) == [d];
      CreatedSpan(complaint.value, code, m.index, m.end - m.index);
      assert ScanDiagnostic(d);
    }
  }

  lemma {:induction false} AllMatchDiagnosticsShape(code: string, ms: seq<Match>)
    requires WellFormed(ms)
    ensures forall d :: d in AllMatchDiagnostics(code, ms) ==> ScanDiagnostic(d)
  {
    if ms != [] {
      AllMatchDiagnosticsShape(code, ms[1..]);
      var m := ms[0];
      var c := Complaint(m.name, m.raw);
      ComplaintCases(m.name, Numbers.ParseNumber(m.raw));
      ReportedShape(code, m, c);
      assert AllMatchDiagnostics(code, ms) == Reported(code, m, c) + AllMatchDiagnostics(code, ms[1..]);
    }
  }

  lemma NumericDiagnosticsShape(code: string)
    ensures forall d :: d in NumericDiagnostics(code) ==> ScanDiagnostic(d)
  {
    MatchesWellFormed(code, 0);
    AllMatchDiagnosticsShape(code, Matches(code, 0));
  }

  /** Each match contributes its diagnostics. */
  lemma {:induction false} MatchReported(code: string, ms: seq<Match>, i: nat)
    requires WellFormed(ms) && i < |ms|
    ensures forall d :: d in MatchDiagnostics(code, ms[i]) ==> d in AllMatchDiagnostics(code, ms)
  {
    assert AllMatchDiagnostics(code, ms) == MatchDiagnostics(code, ms[0]) + AllMatchDiagnostics(code, ms[1..]);
    if i > 0 {
      MatchReported(code, ms[1..], i - 1);
    }
  }

  /** A negative width, height or stroke width found by the scan is reported over its match. */
  lemma NegativeReported(code: string, i: nat)
    requires i < |Matches(code, 0)|
    requires var m := Matches(code, 0)[i];
      IsPositiveName(m.name) && Numbers.ParseNumber(m.raw).Some? && Numbers.ParseNumber(m.raw).value < 0.0
    ensures var m := Matches(code, 0)[i];
      exists d :: d in NumericDiagnostics(code) && d.message == NegativeMessage(m.name) && Spans(d, code, m.index, m.end)
  {
    var ms := Matches(code, 0);
    MatchesWellFormed(code, 0);
    var m := ms[i];
    assert IsNumericName(m.name);
    ComplaintCases(m.name, Numbers.ParseNumber(m.raw));
    MatchReported(code, ms, i);
    var r := Reported(code, m, Complaint(m.name, m.raw));
    assert r[0] in MatchDiagnostics(code, m);
  }

  // ---------------------------------------------------------------------------
  // svgDiagnostics

  /** How `sanitizeSvg` ended: it returned, it threw a `SanitizeError`, or it threw
      something else. */
  datatype Verdict = Returned(warnings: seq<string>) | Raised(message: string, warnings: seq<string>) | Crashed(message: string)

  /** The sanitizer model reports failures as values, so it never crashes. */
  function VerdictOf(o: Sanitize.Outcome<Sanitize.Markup>): (v: Verdict)
    ensures !v.Crashed?
    ensures o.Ok? <==> v.Returned?
    ensures v.warnings == o.warnings
    ensures o.Fail? ==> v.message == o.message
  {
    match o
    case Ok(_, w) => Returned(w)
    case Fail(message, w) => Raised(message, w)
  }

  function AnchoredError(message: string): Diagnostic {
    Diagnostic(message, Error, 1, 1, 1, 1)
  }

  function AnchoredWarning(message: string): Diagnostic {
    Diagnostic(message, Warning, 1, 1, 1, 1)
  }

  /** One warning diagnostic per warning, in order. */
  function AnchoredWarnings(warnings: seq<string>): (r: seq<Diagnostic>)
    ensures |r| == |warnings|
  {
    if warnings == [] then [] else [AnchoredWarning(warnings[0])] + AnchoredWarnings(warnings[1..])
  }

  lemma {:induction false} AnchoredWarningsAt(warnings: seq<string>, i: nat)
    requires i < |warnings|
    ensures AnchoredWarnings(warnings)[i] == AnchoredWarning(warnings[i])
  {
    if i > 0 {
      AnchoredWarningsAt(warnings[1..], i - 1);
    }
  }

  lemma {:induction false} AnchoredWarningsMembers(warnings: seq<string>)
    ensures forall d :: d in AnchoredWarnings(warnings) ==> d == AnchoredWarning(d.message) && d.message in warnings
    ensures forall w :: w in warnings ==> AnchoredWarning(w) in AnchoredWarnings(warnings)
  {
    if warnings != [] {
      AnchoredWarningsMembers(warnings[1..]);
      assert AnchoredWarnings(warnings) == [AnchoredWarning(warnings[0])] + AnchoredWarnings(warnings[1..]);
      assert forall w :: w in warnings ==> w == warnings[0] || w in warnings[1..];
    }
  }

  /** The diagnostics of the sanitizer's verdict. */
  function VerdictDiagnostics(v: Verdict): (r: seq<Diagnostic>)
    ensures |r| == if v.Returned? then |v.warnings| else if v.Raised? then 1 + |v.warnings| else 1
  {
    match v
    case Returned(w) => AnchoredWarnings(w)
    case Raised(message, w) => [AnchoredError(message)] + AnchoredWarnings(w)
    case Crashed(message) => [AnchoredError(message)]
  }

  /** `svgDiagnostics`: the verdict's diagnostics, then the scan's. */
  function SvgDiagnostics(code: string, parsed: Parsed, schema: Sanitize.Schema): (r: seq<Diagnostic>)
    ensures |r| >= |NumericDiagnostics(code)|
  {
    VerdictDiagnostics(VerdictOf(Sanitize.SanitizedSvg(code, parsed, schema))) + NumericDiagnostics(code)
  }

  /** The warning diagnostics are exactly the sanitizer's warnings: the scan only
      produces errors. */
  lemma WarningsAreSanitizerWarnings(code: string, parsed: Parsed, schema: Sanitize.Schema, message: string)
    ensures var o := Sanitize.SanitizedSvg(code, parsed, schema);
      AnchoredWarning(message) in SvgDiagnostics(code, parsed, schema) <==> message in o.warnings
    ensures forall d :: d in SvgDiagnostics(code, parsed, schema) && d.severity == Warning ==>
      d == AnchoredWarning(d.message)
  {
    var o := Sanitize.SanitizedSvg(code, parsed, schema);
    var v := VerdictOf(o);
    NumericDiagnosticsShape(code);
    AnchoredWarningsMembers(o.warnings);
    assert SvgDiagnostics(code, parsed, schema) == VerdictDiagnostics(v) + NumericDiagnostics(code);
    if v.Raised? {
      assert VerdictDiagnostics(v) == [AnchoredError(v.message)] + AnchoredWarnings(o.warnings);
    }
  }

  /** A failed sanitizer run leads the list with its message as an error. */
  lemma FailureComesFirst(code: string, parsed: Parsed, schema: Sanitize.Schema)
    requires Sanitize.SanitizedSvg(code, parsed, schema).Fail?
    ensures var r := SvgDiagnostics(code, parsed, schema);
      r != [] && r[0] == AnchoredError(Sanitize.SanitizedSvg(code, parsed, schema).message)
  {
  }

  /** The scan's diagnostics come last, whatever the sanitizer said. */
  lemma ScanComesLast(code: string, parsed: Parsed, schema: Sanitize.Schema)
    ensures var r := SvgDiagnostics(code, parsed, schema);
      var n := |NumericDiagnostics(code)|;
      r[|r| - n..] == NumericDiagnostics(code)
  {
  }

  lemma {:induction false} RemovalListed(attrs: seq<Attr>, schema: Sanitize.Schema, k: nat)
    requires k < |attrs| && attrs[k].name !in schema.attrs
    ensures Sanitize.RemovalWarning(attrs[k].name) in Sanitize.AttrsWarnings(attrs, schema)
  {
    var a := attrs[0];
    var own := if a.name !in schema.attrs then [Sanitize.RemovalWarning(a.name)] else Sanitize.AttributeWarnings(a.name, a.value);
    assert Sanitize.AttrsWarnings(attrs, schema) == own + Sanitize.AttrsWarnings(attrs[1..], schema);
    if k > 0 {
      RemovalListed(attrs[1..], schema, k - 1);
    }
  }

  /** A disallowed attribute on any element of a successful run, the root `<g>` or
      an element below it, shows up as a warning. */
  lemma DisallowedAttributeWarns(code: string, nodes: seq<Node>, schema: Sanitize.Schema, e: Node, k: nat)
    requires Text.Trim(code) != []
    requires FirstElement(nodes).Some? && Sanitize.InTree(e, FirstElement(nodes).value)
    requires e.Element? && k < |e.attrs| && e.attrs[k].name !in schema.attrs
    requires Sanitize.SanitizedSvg(code, Parsed(nodes), schema).Ok?
    ensures AnchoredWarning(Sanitize.RemovalWarning(e.attrs[k].name)) in SvgDiagnostics(code, Parsed(nodes), schema)
  {
    var o := Sanitize.SanitizedSvg(code, Parsed(nodes), schema);
    assert o == Sanitize.SanitizedRoot(FirstElement(nodes), schema);
    Sanitize.RootVisitsElements(FirstElement(nodes).value, schema, e);
    RemovalListed(e.attrs, schema, k);
    WarningsAreSanitizerWarnings(code, Parsed(nodes), schema, Sanitize.RemovalWarning(e.attrs[k].name));
  }

  /** The common case: a disallowed attribute on a child of the root, as in
      `<g><rect foo="bar"/></g>`. */
  lemma DisallowedChildAttributeWarns(code: string, nodes: seq<Node>, schema: Sanitize.Schema, i: nat, k: nat)
    requires Text.Trim(code) != []
    requires FirstElement(nodes).Some? && FirstElement(nodes).value.Element?
    requires var root := FirstElement(nodes).value;
      i < |root.children| && root.children[i].Element? &&
      k < |root.children[i].attrs| && root.children[i].attrs[k].name !in schema.attrs
    requires Sanitize.SanitizedSvg(code, Parsed(nodes), schema).Ok?
    ensures var child := FirstElement(nodes).value.children[i];
      AnchoredWarning(Sanitize.RemovalWarning(child.attrs[k].name)) in SvgDiagnostics(code, Parsed(nodes), schema)
  {
    var root := FirstElement(nodes).value;
    var child := root.children[i];
    assert Sanitize.InTree(child, child);
    assert Sanitize.InTree(child, root);
    DisallowedAttributeWarns(code, nodes, schema, child, k);
  }

  // ---------------------------------------------------------------------------
  // The imperative versions

  /** The `forEach` loops over the sanitizer's warnings. */
  method ReportVerdict(v: Verdict) returns (diagnostics: seq<Diagnostic>)
    ensures diagnostics == VerdictDiagnostics(v)
  {
    diagnostics := [];
    var warnings: seq<string>;
    match v {
      case Returned(w) =>
        warnings := w;
      case Raised(message, w) =>
        diagnostics := diagnostics + [AnchoredError(message)];
        warnings := w;
      case Crashed(message) =>
        return [AnchoredError(message)];
    }
    ghost var lead := diagnostics;
    var i := 0;
    while i < |warnings|
      invariant 0 <= i <= |warnings|
      invariant diagnostics == lead + AnchoredWarnings(warnings[..i])
    {
      assert warnings[..i + 1] == warnings[..i] + [warnings[i]];
      AnchoredWarningsAppend(warnings[..i], warnings[i]);
      diagnostics := diagnostics + [AnchoredWarning(warnings[i])];
      i := i + 1;
    }
    assert warnings[..i] == warnings;
  }

  lemma {:induction false} AnchoredWarningsAppend(ws: seq<string>, w: string)
    ensures AnchoredWarnings(ws + [w]) == AnchoredWarnings(ws) + [AnchoredWarning(w)]
  {
    if ws == [] {
      assert ws + [w] == [w];
    } else {
      assert (ws + [w])[0] == ws[0] && (ws + [w])[1..] == ws[1..] + [w];
      AnchoredWarningsAppend(ws[1..], w);
    }
  }

  /** The `while (regex.exec(code))` loop of `numericAttributeDiagnostics`. */
  method ScanNumericAttributes(code: string) returns (diagnostics: seq<Diagnostic>)
    ensures diagnostics == NumericDiagnostics(code)
  {
    diagnostics := [];
    var lastIndex := 0;
    MatchesWellFormed(code, 0);
    while true
      invariant lastIndex <= |code|
      invariant WellFormed(Matches(code, lastIndex))
      invariant diagnostics + AllMatchDiagnostics(code, Matches(code, lastIndex)) == NumericDiagnostics(code)
      decreases |code| - lastIndex
    {
      var next := NextMatch(code, lastIndex);
      if next.None? {
        assert Matches(code, lastIndex) == [];
        break;
      }
      var m := next.value;
      ScanStep(code, lastIndex, diagnostics);
      lastIndex := m.end;
      diagnostics := diagnostics + MatchDiagnostics(code, m);
    }
  }

  /** One turn of the scan: the next match's diagnostics are appended, and the scan
      resumes at its end. */
  lemma ScanStep(code: string, k: nat, before: seq<Diagnostic>)
    requires k <= |code| && NextMatch(code, k).Some?
    requires WellFormed(Matches(code, k))
    ensures var m := NextMatch(code, k).value;
      m.index <= m.end && k < m.end <= |code| && WellFormed(Matches(code, m.end)) &&
      before + AllMatchDiagnostics(code, Matches(code, k)) ==
        before + MatchDiagnostics(code, m) + AllMatchDiagnostics(code, Matches(code, m.end))
  {
    var m := NextMatch(code, k).value;
    var rest := Matches(code, m.end);
    assert Matches(code, k) == [m] + rest;
    assert ([m] + rest)[1..] == rest;
    Text.AppendAssoc(before, MatchDiagnostics(code, m), AllMatchDiagnostics(code, rest));
  }

  /** `svgDiagnostics`, pushing into one list. */
  method CollectSvgDiagnostics(code: string, parsed: Parsed, schema: Sanitize.Schema)
    returns (diagnostics: seq<Diagnostic>)
    ensures diagnostics == SvgDiagnostics(code, parsed, schema)
  {
    var result := Sanitize.SanitizeSvg(code, parsed, schema);
    diagnostics := ReportVerdict(VerdictOf(result));
    var numeric := ScanNumericAttributes(code);
    diagnostics := diagnostics + numeric;
  }
}
