/**
  The sanitizer: from a parsed markup fragment to a safe `<g>` tree and the
  warnings collected on the way, or a fatal `SanitizeError` carrying a message
  and the warnings it saw.

  The allow-list is a parameter (`Schema`); parsing is a parameter (`Parsed`);
  serialising the resulting tree back to text is not modelled, so a successful
  run returns the tree itself.
 */
module Sanitize {
  import opened Wrappers
  import opened Dom
  import Text
  import Numbers

  /** The allowed element tags and attribute names. */
  datatype Schema = Schema(elements: set<string>, attrs: set<string>)

  /** A computation that either goes on with a value and the warnings so far, or
      throws `SanitizeError(message, warnings)`. */
  datatype Outcome<T> = Ok(value: T, warnings: seq<string>) | Fail(message: string, warnings: seq<string>)

  /** The markup of a successful run: the fixed text for empty input, or the sanitized root. */
  datatype Markup = Literal(text: string) | Tree(root: Node)

  const NumericAttributes: set<string> :=
    {"x", "y", "width", "height", "rx", "ry", "cx", "cy", "x1", "y1", "x2", "y2", "stroke-width", "opacity"}

  const PositiveOnly: set<string> := {"width", "height", "stroke-width"}

  /** `w` is `w0` followed by zero or more further warnings. */
  predicate Extends(w: seq<string>, w0: seq<string>) {
    |w0| <= |w| && w[..|w0|] == w0
  }

  lemma ExtendsAppend(w0: seq<string>, more: seq<string>)
    ensures Extends(w0 + more, w0)
  {
    assert (w0 + more)[..|w0|] == w0;
  }

  lemma ExtendsTrans(a: seq<string>, b: seq<string>, c: seq<string>)
    requires Extends(b, a) && Extends(c, b)
    ensures Extends(c, a)
  {
    assert c[..|a|] == c[..|b|][..|a|];
  }

  // ---------------------------------------------------------------------------
  // id

  predicate IsLetter(c: char) {
    'A' <= c <= 'Z' || 'a' <= c <= 'z'
  }

  /** `\w`. */
  predicate IsWordChar(c: char) {
    IsLetter(c) || Numbers.IsDigit(c) || c == '_'
  }

  /** `[A-Za-z0-9_-]`: the characters a rewritten id is made of. */
  predicate IsSafeIdChar(c: char) {
    IsWordChar(c) || c == '-'
  }

  /** `/^[A-Za-z_][\w:-]*$/`. */
  predicate ValidId(s: string) {
    s != [] && (IsLetter(s[0]) || s[0] == '_') &&
    forall i :: 1 <= i < |s| ==> IsWordChar(s[i]) || s[i] == ':' || s[i] == '-'
  }

  predicate SafeChars(s: string) {
    forall i :: 0 <= i < |s| ==> IsSafeIdChar(s[i])
  }

  function DropUnsafe(s: string): (r: string)
    ensures |r| <= |s| && (r == [] || IsSafeIdChar(r[0]))
  {
    if s != [] && !IsSafeIdChar(s[0]) then DropUnsafe(s[1..]) else s
  }

  /** `replace(/[^A-Za-z0-9_-]+/g, "-")`: every run of other characters becomes one dash. */
  function ReplaceUnsafe(s: string): (r: string)
    ensures SafeChars(r)
    decreases |s|
  {
    if s == [] then []
    else if !IsSafeIdChar(s[0]) then "-" + ReplaceUnsafe(DropUnsafe(s[1..]))
    else [s[0]] + ReplaceUnsafe(s[1..])
  }

  function DashRun(s: string): (n: nat)
    ensures n <= |s| && (n == |s| || s[n] != '-')
  {
    if s != [] && s[0] == '-' then 1 + DashRun(s[1..]) else 0
  }

  /** `replace(/^-+/, "id")`. */
  function ReplaceLeadingDashes(s: string): string {
    var n := DashRun(s);
    if n == 0 then s else "id" + s[n..]
  }

  /** The rewriting an invalid id undergoes. */
  function SafeId(v: string): (r: string)
    ensures SafeChars(r)
    ensures r == [] || r[0] != '-'
  {
    var s := ReplaceUnsafe(v);
    var n := DashRun(s);
    assert SafeChars(s[n..]) by {
      forall i | 0 <= i < |s| - n ensures IsSafeIdChar(s[n..][i]) {
        assert s[n..][i] == s[n + i];
      }
    }
    ReplaceLeadingDashes(s)
  }

  lemma ReplaceUnsafeOfSafe(s: string)
    requires SafeChars(s)
    ensures ReplaceUnsafe(s) == s
    decreases |s|
  {
    if s != [] {
      assert SafeChars(s[1..]) by {
        forall i | 0 <= i < |s| - 1 ensures IsSafeIdChar(s[1..][i]) {
          assert s[1..][i] == s[i + 1];
        }
      }
      ReplaceUnsafeOfSafe(s[1..]);
      assert s == [s[0]] + s[1..];
    }
  }

  /** Rewriting an id a second time changes nothing. */
  lemma SafeIdIdempotent(v: string)
    ensures SafeId(SafeId(v)) == SafeId(v)
  {
    var s := SafeId(v);
    ReplaceUnsafeOfSafe(s);
    assert DashRun(s) == 0;
  }

  function IdWarning(value: string, safe: string): string {
    "Normalised invalid id '" + value + "' to '" + safe + "'"
  }

  function RemovalWarning(name: string): string {
    "Removed disallowed attribute " + name
  }

  // ---------------------------------------------------------------------------
  // transform

  /** `compressTransform`. */
  function CompressTransform(v: string): string {
    Text.Trim(Text.TightenCommas(Text.Collapse(v)))
  }

  /** Single spaces only, none at either end, none next to a comma. */
  lemma CompressTransformIsTight(v: string)
    ensures Text.Tight(CompressTransform(v)) && Text.Trimmed(CompressTransform(v))
  {
    var t := Text.TightenCommas(Text.Collapse(v));
    Text.CollapseTightenIsTight(v);
    var i, j := Text.TrimIsSlice(t);
    Text.TightSlice(t, i, j);
  }

  lemma CompressTransformIdempotent(v: string)
    ensures CompressTransform(CompressTransform(v)) == CompressTransform(v)
  {
    var c := CompressTransform(v);
    CompressTransformIsTight(v);
    Text.TightIsFixed(c);
  }

  // ---------------------------------------------------------------------------
  // numbers

  /** What `normaliseNumber` does with one value: the rounded thousandths, or the error it throws. */
  datatype Checked = Number(milli: int) | Rejected(message: string)

  function NormaliseNumber(value: string, rejectNegative: bool): (r: Checked)
    ensures r.Number? <==>
      (Numbers.ParseNumber(value).Some? && !(rejectNegative && Numbers.ParseNumber(value).value < 0.0))
    ensures r.Number? ==> r.milli == Numbers.Milli(Numbers.ParseNumber(value).value)
    ensures rejectNegative && r.Number? ==> r.milli >= 0
  {
    match Numbers.ParseNumber(value)
    case None => Rejected("Attribute expected numeric value but received '" + value + "'")
    case Some(x) =>
      if rejectNegative && x < 0.0 then Rejected("Numeric attributes must not be negative")
      else Number(Numbers.Milli(x))
  }

  /** The whitespace- or comma-separated tokens of a `points` or `stroke-dasharray` value. */
  function NumberTokens(value: string): seq<string> {
    Text.NonEmpty(Text.Split(Text.Trim(Text.Collapse(Text.ReplaceChar(value, ',', ' '))), ' '))
  }

  /** `parts.every(isFiniteNumber)`. */
  predicate AllFinite(parts: seq<string>) {
    parts == [] || (Numbers.ParseNumber(parts[0]).Some? && AllFinite(parts[1..]))
  }

  /** `parts.map(part => normaliseNumber(part, false))`, printed. */
  function FormattedNumbers(parts: seq<string>): (r: seq<string>)
    requires AllFinite(parts)
    ensures |r| == |parts|
  {
    if parts == [] then []
    else [Numbers.FormatRounded(Numbers.ParseNumber(parts[0]).value)] + FormattedNumbers(parts[1..])
  }

  /** Every token of a normalised list is a plain decimal. */
  lemma {:induction false} FormattedNumbersPlain(parts: seq<string>)
    requires AllFinite(parts)
    ensures forall i :: 0 <= i < |parts| ==> Numbers.IsPlainDecimal(FormattedNumbers(parts)[i])
  {
    if parts != [] {
      var rest := FormattedNumbers(parts[1..]);
      FormattedNumbersPlain(parts[1..]);
      var head := Numbers.FormatRounded(Numbers.ParseNumber(parts[0]).value);
      Numbers.FormatMilliIsPlainDecimal(Numbers.Milli(Numbers.ParseNumber(parts[0]).value));
      assert FormattedNumbers(parts) == [head] + rest;
    }
  }

  // ---------------------------------------------------------------------------
  // normalizeAttribute

  /** How `normalizeAttribute` treats an attribute, decided by its name alone. */
  datatype Rule =
    | ById
    | ByTransform
    | ByDasharray
    | ByPoints
    | ByNumber(rejectNegative: bool, isOpacity: bool)
    | Verbatim

  /** The branch of `normalizeAttribute` a name takes, in the source's order. */
  function RuleOf(name: string): Rule {
    if name == "id" then ById
    else if name == "transform" then ByTransform
    else if name == "stroke-dasharray" then ByDasharray
    else if name == "points" then ByPoints
    else if name in NumericAttributes then ByNumber(name in PositiveOnly, name == "opacity")
    else Verbatim
  }

  lemma RuleOfSpecialNames()
    ensures RuleOf("id") == ById && RuleOf("transform") == ByTransform
    ensures RuleOf("stroke-dasharray") == ByDasharray && RuleOf("points") == ByPoints
  {
  }

  /** Exactly the names in `NumericAttributes` take the numeric rule; it rejects negatives
      for exactly the names in `PositiveOnly` and checks the unit range only for opacity;
      every name outside the special ones is kept verbatim. */
  lemma RuleOfClassifies(name: string)
    ensures RuleOf(name).ByNumber? <==> name in NumericAttributes
    ensures RuleOf(name).ByNumber? ==>
      (RuleOf(name).rejectNegative <==> name in PositiveOnly) && (RuleOf(name).isOpacity <==> name == "opacity")
    ensures RuleOf(name) == Verbatim <==>
      name !in NumericAttributes && name !in {"id", "transform", "points", "stroke-dasharray"}
  {
  }

  /** The warning the `id` rule pushes: one for an invalid id, none for a valid one. */
  function IdWarnings(value: string): seq<string> {
    if ValidId(value) then [] else [IdWarning(value, SafeId(value))]
  }

  /** The warnings `normalizeAttribute` pushes for one attribute: only an invalid id warns. */
  function AttributeWarnings(name: string, raw: string): seq<string> {
    if RuleOf(name) == ById then IdWarnings(Text.Trim(raw)) else []
  }

  /** The `id` rule, on the trimmed value. */
  function NormalizeId(value: string, warnings: seq<string>): (r: Outcome<string>)
    ensures r.Ok?
    ensures r.warnings == warnings + IdWarnings(value)
  {
    if ValidId(value) then Ok(value, warnings)
    else
      var safe := SafeId(value);
      Ok(safe, warnings + [IdWarning(value, safe)])
  }

  /** The `stroke-dasharray` and `points` rules, on the trimmed value; only `points`
      demands an even count. */
  function NormalizeList(parts: seq<string>, warnings: seq<string>, evenCount: bool, message: string)
    : (r: Outcome<string>)
    ensures r.warnings == warnings
  {
    if (evenCount && |parts| % 2 != 0) || !AllFinite(parts) then Fail(message, warnings)
    else Ok(Text.Join(FormattedNumbers(parts), " "), warnings)
  }

  /** A token list fails exactly when its count is odd where an even count is demanded or
      a token is not a number, with the rule's message; otherwise every printed token is
      a plain decimal. */
  lemma ListRule(parts: seq<string>, warnings: seq<string>, evenCount: bool, message: string)
    ensures var r := NormalizeList(parts, warnings, evenCount, message);
      (r.Fail? <==> ((evenCount && |parts| % 2 != 0) || !AllFinite(parts))) &&
      (r.Fail? ==> r == Fail(message, warnings)) &&
      (r.Ok? ==> r.value == Text.Join(FormattedNumbers(parts), " ") &&
                 forall i :: 0 <= i < |parts| ==> Numbers.IsPlainDecimal(FormattedNumbers(parts)[i]))
  {
    if AllFinite(parts) {
      FormattedNumbersPlain(parts);
    }
  }

  /** The rule for the attributes in `NumericAttributes`, on the trimmed value. */
  function NormalizeNumeric(value: string, warnings: seq<string>, rejectNegative: bool, isOpacity: bool)
    : (r: Outcome<string>)
    ensures r.Ok? ==> r.warnings == warnings
    ensures r.Fail? ==> r.warnings == warnings || r.warnings == []
  {
    match NormaliseNumber(value, rejectNegative)
    case Rejected(message) => Fail(message, [])
    case Number(m) =>
      if isOpacity && (m < 0 || m > 1000) then Fail("opacity must be between 0 and 1", warnings)
      else Ok(Numbers.FormatMilli(m), warnings)
  }

  /** `normalizeAttribute(name, rawValue, warnings)`. */
  function NormalizeAttribute(name: string, raw: string, warnings: seq<string>): (r: Outcome<string>)
    ensures RuleOf(name) == ById ==> r.Ok? && r.warnings == warnings + IdWarnings(Text.Trim(raw))
    ensures RuleOf(name) != ById && r.Ok? ==> r.warnings == warnings
    ensures r.Fail? ==> r.warnings == warnings || (RuleOf(name).ByNumber? && r.warnings == [])
  {
    var value := Text.Trim(raw);
    match RuleOf(name)
    case ById => NormalizeId(value, warnings)
    case ByTransform => Ok(CompressTransform(value), warnings)
    case ByDasharray => NormalizeList(NumberTokens(value), warnings, false, "stroke-dasharray must contain numeric values")
    case ByPoints => NormalizeList(NumberTokens(value), warnings, true, "points must contain an even number of numeric values")
    case ByNumber(rejectNegative, isOpacity) => NormalizeNumeric(value, warnings, rejectNegative, isOpacity)
    case Verbatim => Ok(value, warnings)
  }

  /** An id never makes the call fail; a valid one is kept as it is. */
  lemma IdKeptWhenValid(raw: string, warnings: seq<string>)
    requires ValidId(Text.Trim(raw))
    ensures NormalizeAttribute("id", raw, warnings) == Ok(Text.Trim(raw), warnings)
  {
    RuleOfSpecialNames();
  }

  /** An invalid id is rewritten to `[A-Za-z0-9_-]` characters not starting with a dash,
      and one warning names both values. */
  lemma IdRewrittenWhenInvalid(raw: string, warnings: seq<string>)
    requires !ValidId(Text.Trim(raw))
    ensures var r := NormalizeAttribute("id", raw, warnings);
      r.Ok? && SafeChars(r.value) && (r.value == [] || r.value[0] != '-') &&
      r.warnings == warnings + [IdWarning(Text.Trim(raw), r.value)]
  {
    RuleOfSpecialNames();
  }

  /** The rewritten id need not be valid: the empty id stays empty, and a leading digit stays. */
  lemma RewrittenIdMayBeInvalid(warnings: seq<string>)
    ensures !ValidId("") && NormalizeId("", warnings).value == ""
    ensures !ValidId("9") && NormalizeId("9", warnings).value == "9"
  {
    assert IsSafeIdChar('9');
    assert ReplaceUnsafe("9") == "9" by {
      assert ReplaceUnsafe("9"[1..]) == [];
    }
    assert DashRun("9") == 0;
    assert SafeId("9") == "9";
  }

  /** `transform` never fails and comes out compressed. */
  lemma TransformCompressed(raw: string, warnings: seq<string>)
    ensures var r := NormalizeAttribute("transform", raw, warnings);
      r.Ok? && r.warnings == warnings && Text.Tight(r.value) && Text.Trimmed(r.value) &&
      CompressTransform(r.value) == r.value
  {
    RuleOfSpecialNames();
    CompressTransformIsTight(Text.Trim(raw));
    CompressTransformIdempotent(Text.Trim(raw));
  }

  /** `points` fails exactly on an odd count or a non-finite token; otherwise the rounded
      tokens are joined by single spaces. */
  lemma PointsValues(raw: string, warnings: seq<string>)
    ensures var parts := NumberTokens(Text.Trim(raw));
      var r := NormalizeAttribute("points", raw, warnings);
      (r.Fail? <==> (|parts| % 2 != 0 || !AllFinite(parts))) &&
      (r.Fail? ==> r == Fail("points must contain an even number of numeric values", warnings)) &&
      (r.Ok? ==> r == Ok(Text.Join(FormattedNumbers(parts), " "), warnings) &&
                 forall i :: 0 <= i < |parts| ==> Numbers.IsPlainDecimal(FormattedNumbers(parts)[i]))
  {
    RuleOfSpecialNames();
    var parts := NumberTokens(Text.Trim(raw));
    var message := "points must contain an even number of numeric values";
    assert NormalizeAttribute("points", raw, warnings) == NormalizeList(parts, warnings, true, message);
    ListRule(parts, warnings, true, message);
  }

  /** `stroke-dasharray` fails exactly on a non-finite token; any count is accepted. */
  lemma DasharrayValues(raw: string, warnings: seq<string>)
    ensures var parts := NumberTokens(Text.Trim(raw));
      var r := NormalizeAttribute("stroke-dasharray", raw, warnings);
      (r.Fail? <==> !AllFinite(parts)) &&
      (r.Fail? ==> r == Fail("stroke-dasharray must contain numeric values", warnings)) &&
      (r.Ok? ==> r == Ok(Text.Join(FormattedNumbers(parts), " "), warnings) &&
                 forall i :: 0 <= i < |parts| ==> Numbers.IsPlainDecimal(FormattedNumbers(parts)[i]))
  {
    RuleOfSpecialNames();
    var parts := NumberTokens(Text.Trim(raw));
    var message := "stroke-dasharray must contain numeric values";
    assert NormalizeAttribute("stroke-dasharray", raw, warnings) == NormalizeList(parts, warnings, false, message);
    ListRule(parts, warnings, false, message);
  }

  /** Every numeric attribute is normalised by the numeric rule, negatives rejected for
      the positive-only names and the [0, 1] range enforced for `opacity`. */
  lemma NumericDispatch(name: string, raw: string, warnings: seq<string>)
    requires name in NumericAttributes
    ensures NormalizeAttribute(name, raw, warnings) ==
      NormalizeNumeric(Text.Trim(raw), warnings, name in PositiveOnly, name == "opacity")
  {
    RuleOfClassifies(name);
  }

  /** The numeric rule: a non-finite value fails, a negative value fails where negatives
      are rejected, both with no warnings; an opacity outside [0, 1] after rounding fails
      with the warnings so far; otherwise the value is printed rounded to thousandths, and
      the rounded thousandths are never negative where negatives are rejected and lie
      within [0, 1000] for opacity (`Numbers.ParseFormatMilli` reads them back). */
  lemma NumericRuleValue(value: string, warnings: seq<string>, rejectNegative: bool, isOpacity: bool)
    ensures var v := Numbers.ParseNumber(value);
      var r := NormalizeNumeric(value, warnings, rejectNegative, isOpacity);
      (v.None? ==> r == Fail("Attribute expected numeric value but received '" + value + "'", [])) &&
      (v.Some? && rejectNegative && v.value < 0.0 ==> r == Fail("Numeric attributes must not be negative", [])) &&
      (v.Some? && isOpacity && !(rejectNegative && v.value < 0.0) && !(0.0 <= Numbers.Round3(v.value) <= 1.0) ==>
         r == Fail("opacity must be between 0 and 1", warnings)) &&
      (r.Ok? ==> v.Some? && r == Ok(Numbers.FormatMilli(Numbers.Milli(v.value)), warnings) &&
                 (rejectNegative ==> Numbers.Milli(v.value) >= 0) &&
                 (isOpacity ==> 0 <= Numbers.Milli(v.value) <= 1000))
  {
  }

  /** Any other attribute keeps its trimmed value. */
  lemma PlainAttributeTrimmed(name: string, raw: string, warnings: seq<string>)
    requires RuleOf(name) == Verbatim
    ensures NormalizeAttribute(name, raw, warnings) == Ok(Text.Trim(raw), warnings)
  {
  }

  // ---------------------------------------------------------------------------
  // The tree walk

  /** The names of the attributes the allow-list keeps, in order. */
  function AllowedNames(attrs: seq<Attr>, schema: Schema): (r: seq<string>)
    ensures forall i :: 0 <= i < |r| ==> r[i] in schema.attrs
  {
    if attrs == [] then []
    else if attrs[0].name in schema.attrs then [attrs[0].name] + AllowedNames(attrs[1..], schema)
    else AllowedNames(attrs[1..], schema)
  }

  /** The warnings an attribute list produces: one removal per disallowed attribute,
      one rewrite notice per invalid id, in attribute order. */
  function AttrsWarnings(attrs: seq<Attr>, schema: Schema): seq<string> {
    if attrs == [] then []
    else
      var a := attrs[0];
      (if a.name !in schema.attrs then [RemovalWarning(a.name)] else AttributeWarnings(a.name, a.value))
      + AttrsWarnings(attrs[1..], schema)
  }

  predicate AttrsAllowed(attrs: seq<Attr>, schema: Schema) {
    forall i :: 0 <= i < |attrs| ==> attrs[i].name in schema.attrs
  }

  /** The attribute loop: `kept` holds the attributes set so far. */
  function SanitizedAttrs(attrs: seq<Attr>, schema: Schema, kept: seq<Attr>, warnings: seq<string>)
    : (r: Outcome<seq<Attr>>)
    ensures r.Ok? && AttrsAllowed(kept, schema) ==> AttrsAllowed(r.value, schema)
    decreases |attrs|
  {
    if attrs == [] then Ok(kept, warnings)
    else
      var a := attrs[0];
      if a.name !in schema.attrs then
        SanitizedAttrs(attrs[1..], schema, kept, warnings + [RemovalWarning(a.name)])
      else
        match NormalizeAttribute(a.name, a.value, warnings)
        case Fail(message, w) => Fail(message, w)
        case Ok(v, w) => SanitizedAttrs(attrs[1..], schema, kept + [Attr(a.name, v)], w)
  }

  /** The warnings of a successful attribute pass: a removal notice per disallowed
      attribute and a rewrite notice per invalid id, in attribute order, after the
      warnings already collected. */
  lemma {:induction false} SanitizedAttrsWarnings(attrs: seq<Attr>, schema: Schema, kept: seq<Attr>,
                                                  warnings: seq<string>)
    ensures var r := SanitizedAttrs(attrs, schema, kept, warnings);
      r.Ok? ==> r.warnings == warnings + AttrsWarnings(attrs, schema)
    decreases |attrs|
  {
    if attrs != [] {
      var a := attrs[0];
      var rest := AttrsWarnings(attrs[1..], schema);
      if a.name !in schema.attrs {
        SanitizedAttrsWarnings(attrs[1..], schema, kept, warnings + [RemovalWarning(a.name)]);
        assert AttrsWarnings(attrs, schema) == [RemovalWarning(a.name)] + rest;
        Text.AppendAssoc(warnings, [RemovalWarning(a.name)], rest);
      } else {
        var n := NormalizeAttribute(a.name, a.value, warnings);
        if n.Ok? {
          SanitizedAttrsWarnings(attrs[1..], schema, kept + [Attr(a.name, n.value)], n.warnings);
          var aw := AttributeWarnings(a.name, a.value);
          assert AttrsWarnings(attrs, schema) == aw + rest;
          if RuleOf(a.name) == ById {
            assert n.warnings == warnings + aw;
          } else {
            assert aw == [] && n.warnings == warnings;
            assert warnings + aw == warnings;
          }
          Text.AppendAssoc(warnings, aw, rest);
        }
      }
    }
  }

  /** A successful attribute pass keeps exactly the allowed attributes, in order. */
  lemma {:induction false} SanitizedAttrsNames(attrs: seq<Attr>, schema: Schema, kept: seq<Attr>,
                                               warnings: seq<string>)
    ensures var r := SanitizedAttrs(attrs, schema, kept, warnings);
      r.Ok? ==> Names(r.value) == Names(kept) + AllowedNames(attrs, schema)
    decreases |attrs|
  {
    if attrs != [] {
      var a := attrs[0];
      var rest := AllowedNames(attrs[1..], schema);
      if a.name !in schema.attrs {
        SanitizedAttrsNames(attrs[1..], schema, kept, warnings + [RemovalWarning(a.name)]);
      } else {
        var n := NormalizeAttribute(a.name, a.value, warnings);
        if n.Ok? {
          var kept' := kept + [Attr(a.name, n.value)];
          SanitizedAttrsNames(attrs[1..], schema, kept', n.warnings);
          assert Names(kept') == Names(kept) + [a.name];
          assert AllowedNames(attrs, schema) == [a.name] + rest;
          Text.AppendAssoc(Names(kept), [a.name], rest);
        }
      }
    }
  }

  /** Text as the sanitizer emits it. */
  predicate CleanText(v: string) {
    v != [] && Text.Trimmed(v) && Text.SingleSpaced(v) && '<' !in v && '>' !in v
  }

  /** Every element tag and attribute name is on the allow-list, every text node is clean,
      and no other node kind remains. */
  predicate Conforms(n: Node, schema: Schema) {
    match n
    case Element(tag, attrs, children) =>
      tag in schema.elements && AttrsAllowed(attrs, schema) &&
      forall i :: 0 <= i < |children| ==> Conforms(children[i], schema)
    case Text(v) => CleanText(v)
    case Other => false
  }

  /** The text rule: `replace(/\s+/g, " ").trim()`, dropped when empty, fatal on markup. */
  function SanitizedText(content: string, warnings: seq<string>): (r: Outcome<Option<Node>>)
    ensures r.Ok? && r.value.Some? ==> r.value.value.Text? && CleanText(r.value.value.content)
    ensures r.Ok? <==> !Text.Contains(Text.Trim(Text.Collapse(content)), "<") &&
                       !Text.Contains(Text.Trim(Text.Collapse(content)), ">")
    ensures r.Ok? ==> r.warnings == warnings && (r.value.None? <==> Text.Trim(Text.Collapse(content)) == [])
  {
    var v := Text.Trim(Text.Collapse(content));
    Text.CollapseSingleSpaced(content);
    Text.TrimSingleSpaced(Text.Collapse(content));
    Text.ContainsChar(v, '<');
    Text.ContainsChar(v, '>');
    if v == [] then Ok(None, warnings)
    else if '<' in v || '>' in v then Fail("Text nodes may not contain markup", warnings)
    else Ok(Some(Node.Text(v)), warnings)
  }

  /** `sanitizeNode`. */
  function SanitizedNode(node: Node, schema: Schema, warnings: seq<string>): (r: Outcome<Option<Node>>)
    ensures r.Ok? && r.value.Some? ==> Conforms(r.value.value, schema)
    decreases node
  {
    match node
    case Element(tag, attrs, children) => SanitizedElement(tag, attrs, children, schema, warnings)
    case Text(content) => SanitizedText(content, warnings)
    case Other => Ok(None, warnings)
  }

  /** The element branch of `sanitizeNode`: the tag check, the attributes, then the children. */
  function SanitizedElement(tag: string, attrs: seq<Attr>, children: seq<Node>, schema: Schema,
                            warnings: seq<string>): (r: Outcome<Option<Node>>)
    ensures r.Ok? ==> r.value.Some? && Conforms(r.value.value, schema)
    decreases children, 1
  {
    if tag !in schema.elements then Fail("Element <" + tag + "> is not allowed", warnings)
    else
      match SanitizedAttrs(attrs, schema, [], warnings)
      case Fail(message, w) => Fail(message, w)
      case Ok(kept, w) =>
        (match SanitizedChildren(children, schema, [], w)
         case Fail(message, w') => Fail(message, w')
         case Ok(kids, w') => Ok(Some(Element(tag, kept, kids)), w'))
  }

  /** The child loop: `acc` holds the children appended so far. */
  function SanitizedChildren(nodes: seq<Node>, schema: Schema, acc: seq<Node>, warnings: seq<string>)
    : (r: Outcome<seq<Node>>)
    ensures r.Ok? ==> |acc| <= |r.value| <= |acc| + |nodes| && r.value[..|acc|] == acc
    ensures r.Ok? ==> forall i :: |acc| <= i < |r.value| ==> Conforms(r.value[i], schema)
    decreases nodes, 0
  {
    if nodes == [] then Ok(acc, warnings)
    else
      match SanitizedNode(nodes[0], schema, warnings)
      case Fail(message, w) => Fail(message, w)
      case Ok(n, w) =>
        var acc' := if n.Some? then acc + [n.value] else acc;
        var r := SanitizedChildren(nodes[1..], schema, acc', w);
        if r.Ok? then
          KeptPrefix(r.value, acc, n, schema);
          r
        else r
  }

  /** What the child loop keeps when `n` was appended to `acc` (if present) and the
      rest conforms. */
  lemma KeptPrefix(kids: seq<Node>, acc: seq<Node>, n: Option<Node>, schema: Schema)
    requires n.Some? ==> Conforms(n.value, schema)
    requires var acc' := if n.Some? then acc + [n.value] else acc;
      |acc'| <= |kids| && kids[..|acc'|] == acc' &&
      forall i :: |acc'| <= i < |kids| ==> Conforms(kids[i], schema)
    ensures |acc| <= |kids| && kids[..|acc|] == acc
    ensures forall i :: |acc| <= i < |kids| ==> Conforms(kids[i], schema)
  {
    var acc' := if n.Some? then acc + [n.value] else acc;
    assert kids[..|acc|] == kids[..|acc'|][..|acc|];
    if n.Some? {
      assert kids[|acc|] == acc'[|acc|] == n.value;
    }
  }

  /** Warnings are only ever added: a successful node keeps every warning collected before it. */
  lemma {:induction false} NodeKeepsWarnings(node: Node, schema: Schema, warnings: seq<string>)
    ensures var r := SanitizedNode(node, schema, warnings);
      r.Ok? ==> Extends(r.warnings, warnings)
    decreases node
  {
    match node
    case Element(tag, attrs, children) =>
      if tag in schema.elements {
        var a := SanitizedAttrs(attrs, schema, [], warnings);
        if a.Ok? {
          SanitizedAttrsWarnings(attrs, schema, [], warnings);
          ExtendsAppend(warnings, AttrsWarnings(attrs, schema));
          ChildrenKeepWarnings(children, schema, [], a.warnings);
          var c := SanitizedChildren(children, schema, [], a.warnings);
          if c.Ok? {
            ExtendsTrans(warnings, a.warnings, c.warnings);
          }
        }
      }
    case Text(content) =>
      assert warnings[..|warnings|] == warnings;
    case Other =>
      assert warnings[..|warnings|] == warnings;
  }

  lemma {:induction false} ChildrenKeepWarnings(nodes: seq<Node>, schema: Schema, acc: seq<Node>,
                                                warnings: seq<string>)
    ensures var r := SanitizedChildren(nodes, schema, acc, warnings);
      r.Ok? ==> Extends(r.warnings, warnings)
    decreases nodes
  {
    if nodes == [] {
      assert warnings[..|warnings|] == warnings;
    } else {
      var n := SanitizedNode(nodes[0], schema, warnings);
      if n.Ok? {
        NodeKeepsWarnings(nodes[0], schema, warnings);
        var acc' := if n.value.Some? then acc + [n.value.value] else acc;
        ChildrenKeepWarnings(nodes[1..], schema, acc', n.warnings);
        var r := SanitizedChildren(nodes[1..], schema, acc', n.warnings);
        if r.Ok? {
          ExtendsTrans(warnings, n.warnings, r.warnings);
        }
      }
    }
  }

  /** Children are handled in order: the children of `xs + ys` are those of `xs` followed
      by those of `ys`, with the warnings carried across. */
  lemma {:induction false} SanitizedChildrenAppend(xs: seq<Node>, ys: seq<Node>, schema: Schema,
                                                   acc: seq<Node>, warnings: seq<string>)
    ensures SanitizedChildren(xs + ys, schema, acc, warnings) ==
      match SanitizedChildren(xs, schema, acc, warnings)
      case Fail(m, w) => Fail(m, w)
      case Ok(a, w) => SanitizedChildren(ys, schema, a, w)
    decreases xs
  {
    if xs == [] {
      assert xs + ys == ys;
    } else {
      assert (xs + ys)[0] == xs[0] && (xs + ys)[1..] == xs[1..] + ys;
      match SanitizedNode(xs[0], schema, warnings)
      case Fail(_, _) =>
      case Ok(n, w) =>
        var acc' := if n.Some? then acc + [n.value] else acc;
        SanitizedChildrenAppend(xs[1..], ys, schema, acc', w);
    }
  }

  lemma ExtendsKeeps(w: seq<string>, w0: seq<string>)
    requires Extends(w, w0)
    ensures forall x :: x in w0 ==> x in w
  {
    forall x | x in w0
      ensures x in w
    {
      var i :| 0 <= i < |w0| && w0[i] == x;
      assert w[..|w0|][i] == x;
    }
  }

  /** `e` is `n` itself or a node somewhere below it. */
  ghost predicate InTree(e: Node, n: Node)
    decreases n
  {
    e == n || (n.Element? && exists i :: 0 <= i < |n.children| && InTree(e, n.children[i]))
  }

  /** A successful walk visits every element below the node it starts from, so the
      attribute warnings of each of them are among the warnings it returns. */
  lemma {:induction false} NodeVisitsElements(node: Node, schema: Schema, warnings: seq<string>, e: Node)
    requires e.Element? && InTree(e, node)
    requires SanitizedNode(node, schema, warnings).Ok?
    ensures forall x :: x in AttrsWarnings(e.attrs, schema) ==> x in SanitizedNode(node, schema, warnings).warnings
    decreases node
  {
    var Element(tag, attrs, children) := node;
    var a := SanitizedAttrs(attrs, schema, [], warnings);
    SanitizedAttrsWarnings(attrs, schema, [], warnings);
    var c := SanitizedChildren(children, schema, [], a.warnings);
    assert SanitizedNode(node, schema, warnings).warnings == c.warnings;
    if e == node {
      ChildrenKeepWarnings(children, schema, [], a.warnings);
      ExtendsAppend(warnings, AttrsWarnings(attrs, schema));
      ExtendsTrans(warnings + AttrsWarnings(attrs, schema), a.warnings, c.warnings);
      ExtendsKeeps(c.warnings, a.warnings);
    } else {
      var i :| 0 <= i < |children| && InTree(e, children[i]);
      ChildrenVisitElements(children, schema, [], a.warnings, i, e);
    }
  }

  lemma {:induction false} ChildrenVisitElements(nodes: seq<Node>, schema: Schema, acc: seq<Node>,
                                                 warnings: seq<string>, k: nat, e: Node)
    requires k < |nodes| && e.Element? && InTree(e, nodes[k])
    requires SanitizedChildren(nodes, schema, acc, warnings).Ok?
    ensures forall x :: x in AttrsWarnings(e.attrs, schema) ==> x in SanitizedChildren(nodes, schema, acc, warnings).warnings
    decreases nodes
  {
    var n := SanitizedNode(nodes[0], schema, warnings);
    var acc' := if n.value.Some? then acc + [n.value.value] else acc;
    var r := SanitizedChildren(nodes[1..], schema, acc', n.warnings);
    assert SanitizedChildren(nodes, schema, acc, warnings) == r;
    if k == 0 {
      NodeVisitsElements(nodes[0], schema, warnings, e);
      ChildrenKeepWarnings(nodes[1..], schema, acc', n.warnings);
      ExtendsKeeps(r.warnings, n.warnings);
    } else {
      ChildrenVisitElements(nodes[1..], schema, acc', n.warnings, k - 1, e);
    }
  }

  /** `sanitizeSvg(source)`, given what the parser makes of the wrapped input. */
  function SanitizedSvg(source: string, parsed: Parsed, schema: Schema): (r: Outcome<Markup>)
    ensures Text.Trim(source) == [] ==> r == Ok(Literal("<g></g>"), [])
  {
    if Text.Trim(source) == [] then Ok(Literal("<g></g>"), [])
    else
      match parsed
      case ParseError(details) => Fail("Invalid SVG markup", [details])
      case Parsed(nodes) => SanitizedRoot(FirstElement(nodes), schema)
  }

  /** The checks on the first top-level element and the walk below it. */
  function SanitizedRoot(first: Option<Node>, schema: Schema): (r: Outcome<Markup>)
    ensures r.Ok? ==>
      r.value.Tree? && first.Some? && first.value.Element? &&
      var root := r.value.root;
      root.Element? && root.tag == "g" && AttrsAllowed(root.attrs, schema) &&
      forall i :: 0 <= i < |root.children| ==> Conforms(root.children[i], schema)
  {
    match first
    case None => Fail("SVG markup must contain at least one element", [])
    case Some(root) =>
      if !root.Element? || root.tag != "g" then Fail("Root element must be a <g> container", [])
      else
        (match SanitizedAttrs(root.attrs, schema, [], [])
         case Fail(message, w) => Fail(message, w)
         case Ok(kept, w) =>
           (match SanitizedChildren(root.children, schema, [], w)
            case Fail(message, w') => Fail(message, w')
            case Ok(kids, w') => Ok(Tree(Element("g", kept, kids)), w')))
  }

  /** A successful run visits every element of the tree under the root `<g>`, the
      root included: the attribute warnings of each are among the run's warnings. */
  lemma RootVisitsElements(root: Node, schema: Schema, e: Node)
    requires e.Element? && InTree(e, root)
    requires SanitizedRoot(Some(root), schema).Ok?
    ensures forall x :: x in AttrsWarnings(e.attrs, schema) ==> x in SanitizedRoot(Some(root), schema).warnings
  {
    var Element(_, attrs, children) := root;
    var a := SanitizedAttrs(attrs, schema, [], []);
    SanitizedAttrsWarnings(attrs, schema, [], []);
    var c := SanitizedChildren(children, schema, [], a.warnings);
    assert SanitizedRoot(Some(root), schema).warnings == c.warnings;
    if e == root {
      assert a.warnings == AttrsWarnings(attrs, schema);
      ChildrenKeepWarnings(children, schema, [], a.warnings);
      ExtendsKeeps(c.warnings, a.warnings);
    } else {
      var i :| 0 <= i < |children| && InTree(e, children[i]);
      ChildrenVisitElements(children, schema, [], a.warnings, i, e);
    }
  }

  /** Only the first top-level element counts: later top-level nodes change nothing. */
  lemma LaterSiblingsIgnored(source: string, nodes: seq<Node>, later: seq<Node>, schema: Schema)
    requires FirstElementIndex(nodes) < |nodes|
    ensures SanitizedSvg(source, Parsed(nodes + later), schema) == SanitizedSvg(source, Parsed(nodes), schema)
  {
    FirstElementOfPrefix(nodes, later);
    if Text.Trim(source) != [] {
      var first := FirstElement(nodes);
      assert SanitizedSvg(source, Parsed(nodes + later), schema) == SanitizedRoot(first, schema);
    }
  }

  lemma FirstElementOfPrefix(nodes: seq<Node>, later: seq<Node>)
    requires FirstElementIndex(nodes) < |nodes|
    ensures FirstElement(nodes + later) == FirstElement(nodes)
  {
    FirstElementPrefix(nodes, later);
    assert (nodes + later)[FirstElementIndex(nodes)] == nodes[FirstElementIndex(nodes)];
  }

  lemma {:induction false} FirstElementPrefix(nodes: seq<Node>, later: seq<Node>)
    requires FirstElementIndex(nodes) < |nodes|
    ensures FirstElementIndex(nodes + later) == FirstElementIndex(nodes)
  {
    assert (nodes + later)[0] == nodes[0];
    if !nodes[0].Element? {
      assert (nodes + later)[1..] == nodes[1..] + later;
      FirstElementPrefix(nodes[1..], later);
    }
  }

  /** A root that is not `<g>` is fatal, with no warnings. */
  lemma RootMustBeGroup(source: string, nodes: seq<Node>, schema: Schema)
    requires Text.Trim(source) != []
    requires FirstElement(nodes).Some? && FirstElement(nodes).value.tag != "g"
    ensures SanitizedSvg(source, Parsed(nodes), schema) == Fail("Root element must be a <g> container", [])
  {
  }

  /** Every warning of a successful attribute pass is a removal notice when no attribute is an id. */
  lemma RemovalsOnly(attrs: seq<Attr>, schema: Schema)
    requires forall i :: 0 <= i < |attrs| ==> attrs[i].name != "id"
    ensures AttrsWarnings(attrs, schema) == RemovalWarnings(attrs, schema)
  {
    if attrs != [] {
      RemovalsOnly(attrs[1..], schema);
    }
  }

  /** One "Removed disallowed attribute" warning per dropped attribute, in order. */
  function RemovalWarnings(attrs: seq<Attr>, schema: Schema): (r: seq<string>)
    ensures |r| == |attrs| - |AllowedNames(attrs, schema)|
  {
    if attrs == [] then []
    else if attrs[0].name !in schema.attrs then [RemovalWarning(attrs[0].name)] + RemovalWarnings(attrs[1..], schema)
    else RemovalWarnings(attrs[1..], schema)
  }

  // ---------------------------------------------------------------------------
  // The imperative walk, as the source writes it

  /** The attribute loop of `sanitizeSvg` and `sanitizeNode`. */
  method SanitizeAttributes(attrs: seq<Attr>, schema: Schema, warnings: seq<string>)
    returns (r: Outcome<seq<Attr>>)
    ensures r == SanitizedAttrs(attrs, schema, [], warnings)
  {
    var kept: seq<Attr> := [];
    var w := warnings;
    var i := 0;
    while i < |attrs|
      invariant 0 <= i <= |attrs|
      invariant SanitizedAttrs(attrs[i..], schema, kept, w) == SanitizedAttrs(attrs, schema, [], warnings)
    {
      var a := attrs[i];
      assert attrs[i..][0] == a && attrs[i..][1..] == attrs[i + 1..];
      if a.name !in schema.attrs {
        w := w + [RemovalWarning(a.name)];
      } else {
        var n := NormalizeAttribute(a.name, a.value, w);
        if n.Fail? {
          return Fail(n.message, n.warnings);
        }
        kept := kept + [Attr(a.name, n.value)];
        w := n.warnings;
      }
      i := i + 1;
    }
    assert attrs[i..] == [];
    return Ok(kept, w);
  }

  /** The child loop of `sanitizeSvg` and `sanitizeNode`. */
  method SanitizeChildren(nodes: seq<Node>, schema: Schema, warnings: seq<string>)
    returns (r: Outcome<seq<Node>>)
    ensures r == SanitizedChildren(nodes, schema, [], warnings)
    decreases nodes, 0
  {
    var kids: seq<Node> := [];
    var w := warnings;
    var i := 0;
    while i < |nodes|
      invariant 0 <= i <= |nodes|
      invariant SanitizedChildren(nodes[i..], schema, kids, w) == SanitizedChildren(nodes, schema, [], warnings)
    {
      assert nodes[i..][0] == nodes[i] && nodes[i..][1..] == nodes[i + 1..];
      var n := SanitizeNode(nodes[i], schema, w);
      if n.Fail? {
        return Fail(n.message, n.warnings);
      }
      if n.value.Some? {
        kids := kids + [n.value.value];
      }
      w := n.warnings;
      i := i + 1;
    }
    assert nodes[i..] == [];
    return Ok(kids, w);
  }

  /** `sanitizeNode(node, targetDoc, warnings)`. */
  method SanitizeNode(node: Node, schema: Schema, warnings: seq<string>) returns (r: Outcome<Option<Node>>)
    ensures r == SanitizedNode(node, schema, warnings)
    decreases node, 1
  {
    match node {
      case Element(tag, attrs, children) =>
        if tag !in schema.elements {
          return Fail("Element <" + tag + "> is not allowed", warnings);
        }
        var a := SanitizeAttributes(attrs, schema, warnings);
        if a.Fail? {
          return Fail(a.message, a.warnings);
        }
        var c := SanitizeChildren(children, schema, a.warnings);
        if c.Fail? {
          return Fail(c.message, c.warnings);
        }
        return Ok(Some(Element(tag, a.value, c.value)), c.warnings);
      case Text(content) =>
        var value := Text.Trim(Text.Collapse(content));
        if value == [] {
          return Ok(None, warnings);
        }
        if '<' in value || '>' in value {
          return Fail("Text nodes may not contain markup", warnings);
        }
        return Ok(Some(Node.Text(value)), warnings);
      case Other =>
        return Ok(None, warnings);
    }
  }

  /** `sanitizeSvg(source)`. */
  method SanitizeSvg(source: string, parsed: Parsed, schema: Schema) returns (r: Outcome<Markup>)
    ensures r == SanitizedSvg(source, parsed, schema)
  {
    var input := Text.Trim(source);
    if input == [] {
      return Ok(Literal("<g></g>"), []);
    }
    if parsed.ParseError? {
      return Fail("Invalid SVG markup", [parsed.details]);
    }
    var first := FirstElement(parsed.nodes);
    if first.None? {
      return Fail("SVG markup must contain at least one element", []);
    }
    var root := first.value;
    if root.tag != "g" {
      return Fail("Root element must be a <g> container", []);
    }
    var a := SanitizeAttributes(root.attrs, schema, []);
    if a.Fail? {
      return Fail(a.message, a.warnings);
    }
    var c := SanitizeChildren(root.children, schema, a.warnings);
    if c.Fail? {
      return Fail(c.message, c.warnings);
    }
    return Ok(Tree(Element("g", a.value, c.value)), c.warnings);
  }
}
