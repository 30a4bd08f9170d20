# RoughRefine bidirectional SVG sync and direct manipulation, in Dafny

RoughRefine keeps a code editor and a drawing canvas in sync. On the code side,
the `@roughrefine/bisync` package does four things:

- The **sanitizer** turns user-typed SVG fragments into a safe `<g>` tree. It uses
  an allow-list of elements and attributes, normalises ids, numbers, point lists,
  dash arrays and transforms, and either collects warnings or stops with a fatal
  `SanitizeError`.
- The **normalizer** pretty-prints markup in a canonical form: attributes in a
  fixed order with canonical values, two spaces of indentation per level.
- The **diagnostics** turn the sanitizer's verdict, plus a regular-expression
  scan of numeric attributes, into editor markers with line and column spans.
- The **differ** reconciles the live children of the rendered group with freshly
  parsed markup. It keys each element, updates matched elements in place, clones
  new ones, removes stale ones, re-appends in incoming order, and reports what it
  created, updated and removed.

On the canvas side, `apps/web` provides three pieces:

- affine matrix utilities;
- a snapping system that aligns a dragged box with its neighbours;
- the transform controller, which turns a pointer drag into a move or a resize
  (matrix and new bounds).

## Project layout

| file | module | models |
|---|---|---|
| `wrappers.dfy` | `Wrappers` | `Option` |
| `text.dfy` | `Text` | the string built-ins the core uses: `trim`, `replace(/\s+/g, " ")`, `replace(/ ,/g, ",")`, `split`, `includes`, `indexOf`, `join`, `repeat` |
| `numbers.dfy` | `Numbers` | `Number(s)` on decimal literals, `toFixed(3)`, `parseFloat` and `toString` of the rounded value, the plain-decimal test `/^-?\d+(?:\.\d+)?$/` |
| `dom.dfy` | `Dom` | parsed nodes (element, text, other), attributes, `getAttribute`, `firstElementChild`, element filtering |
| `sanitize.dfy` | `Sanitize` | `packages/bisync/src/sanitize.ts` |
| `normalizer.dfy` | `Normalizer` | `packages/bisync/src/normalizer.ts` |
| `diagnostics.dfy` | `Diagnostics` | `packages/bisync/src/diagnostics.ts` |
| `diff.dfy` | `Diff` | `packages/bisync/src/diff.ts` |
| `matrix.dfy` | `Geometry` | `apps/web/src/utils/matrix.ts` |
| `snap.dfy` | `Snapping` | `apps/web/src/utils/snap.ts` |
| `transform.dfy` | `Transform` | `apps/web/src/hooks/useTransformController.ts` (move and resize) |

### How the modules are built

- **Pure logic** is written as functions, with lemmas about them.
- **Loops that build a result step by step** are methods: the attribute and child
  loops of the sanitizer, `serializeNode`, the warning loops and the regex scan of
  the diagnostics, `getBounds`, and the two loops of `snap`. Each is proved equal
  to the function that specifies it.
- **State objects** are classes:
  - the differ's live elements (`Diff.LiveElement`) and live group
    (`Diff.LiveGroup`), which `diffApply` updates in place;
  - `SnapSystem`;
  - the controller's React state (`Transform.TransformController`).
- **The sanitizer's shared `warnings` array** is threaded through by value.
  `SanitizeError` is the `Fail` case of `Sanitize.Outcome`.
- **The DOM parser** is a parameter. Each operation takes what the parser makes of
  its input: a parse error or a node list.
- **The allow-list** from `./schema` is a parameter (`Sanitize.Schema`).
- **The differ's serialiser** (`innerHTML`/`outerHTML` and re-parsing) is a
  parameter (`Diff.Markup`).
- **The canvas modules** compute over exact reals.

## Model

| member | source | states |
|---|---|---|
| Text.TrimStart | packages/bisync/src/sanitize.ts:42 | the result is a suffix of the input; everything dropped is white space; the result does not start with white space |
| Text.TrimEnd | packages/bisync/src/sanitize.ts:42 | the result is a prefix of the input; everything dropped is white space; the result does not end with white space |
| Text.Trim | packages/bisync/src/sanitize.ts:42 | `trim()`: the result has no white space at either end; trimmed text is left alone; the result is empty exactly when the input is all white space |
| Text.TrimIsSlice | packages/bisync/src/sanitize.ts:138 | trimming returns one contiguous piece of the input |
| Text.Collapse | packages/bisync/src/sanitize.ts:121 | `replace(/\s+/g, " ")` never lengthens a string, keeps it empty exactly when it was, and turns a white-space character at either end into a space |
| Text.CollapseSingleSpaced | packages/bisync/src/sanitize.ts:121 | after collapsing, the only white space left is single plain spaces |
| Text.CollapseKeepsSingleSpaced | packages/bisync/src/sanitize.ts:121 | collapsing single-spaced text changes nothing, so collapsing is idempotent |
| Text.CollapseKeepsWord | packages/bisync/src/sanitize.ts:126 | collapsing keeps every occurrence of a word without white space, such as `<`, `>` or `matrix` |
| Text.CollapseAddsNoWord | packages/bisync/src/sanitize.ts:126 | collapsing creates no new occurrence of a word without white space |
| Text.ReplacePair | packages/bisync/src/sanitize.ts:201 | `replace(/ ,/g, ",")`-style replacement of a two-character pattern never lengthens the string and keeps it empty exactly when it was |
| Text.ReplacePairWithoutMatch | packages/bisync/src/sanitize.ts:201 | a string without the pattern is left unchanged |
| Text.DropSpaceBeforeComma | packages/bisync/src/sanitize.ts:201 | on single-spaced text, `replace(/ ,/g, ",")` leaves no space before a comma and keeps the text single-spaced |
| Text.DropSpaceAfterComma | packages/bisync/src/sanitize.ts:202 | then `replace(/, /g, ",")` leaves no space on either side of a comma |
| Text.CollapseTightenIsTight | packages/bisync/src/sanitize.ts:198-204 | collapsing and then tightening commas always gives the tight normal form |
| Text.TightIsFixed | packages/bisync/src/sanitize.ts:198-204 | text in the tight normal form is unchanged by collapsing and by tightening |
| Text.TrimSingleSpaced | packages/bisync/src/sanitize.ts:121 | trimming keeps single-spaced text single-spaced |
| Text.ReplacePairKeepsWord | packages/bisync/src/normalizer.ts:115-116 | tightening commas keeps every occurrence of a word without spaces or commas |
| Text.ReplaceChar | packages/bisync/src/sanitize.ts:154 | `replace(/,/g, " ")`: same length; each comma is a space and every other character is kept |
| Text.Split | packages/bisync/src/sanitize.ts:155 | `split(" ")` gives at least one piece, and no piece holds the separator |
| Text.JoinSplit | packages/bisync/src/sanitize.ts:155 | joining the pieces of `split(sep)` with `sep` gives back the input |
| Text.SplitJoin | packages/bisync/src/sanitize.ts:155 | splitting a join of separator-free pieces gives back the pieces |
| Text.IndexOf | packages/bisync/src/diagnostics.ts:125 | the first position of a character that occurs |
| Text.NonEmpty | packages/bisync/src/sanitize.ts:155 | `filter(Boolean)` keeps only non-empty pieces, each taken from the input |
| Text.NonEmptyKeeps | packages/bisync/src/sanitize.ts:155 | every non-empty piece of the input is kept |
| Text.NonEmptyAppend | packages/bisync/src/sanitize.ts:155 | the filter works piece by piece over a concatenation, so the kept pieces stay in input order |
| Text.Repeat | packages/bisync/src/normalizer.ts:58 | `repeat(n)` has length n times the piece |
| Text.RepeatAt | packages/bisync/src/normalizer.ts:58 | position `i` of `s.repeat(n)` holds `s[i % |s|]`: the result is n copies of the piece |
| Text.RunUntil | packages/bisync/src/diagnostics.ts:84 | the maximal run of characters other than a given one, as `[^"]` here and `[^)]` in `parseMatrix`, ending at the text's end or at that character |
| Text.RunUntilChars | packages/bisync/src/diagnostics.ts:84 | no character of the run is the excluded one |
| Text.RunUntilOf | apps/web/src/utils/matrix.ts:13 | a run that stops at the first excluded character has exactly the length up to it |
| Numbers.NatDigits | packages/bisync/src/diff.ts:63 | the decimal digits of a count: non-empty, all digits, reading back as the count, no leading zero |
| Numbers.DigitRun | packages/bisync/src/sanitize.ts:183 | the longest run of digits at the front of a string |
| Numbers.Fraction | packages/bisync/src/sanitize.ts:183 | digits after a decimal point have a value in [0, 1) |
| Numbers.ParseNumber | packages/bisync/src/sanitize.ts:183-188 | `Number(s)` for a decimal literal, `None` where JavaScript gives a non-finite value; characterised by `Numbers.ParseNumberIgnoresSpace`, `Numbers.ParseBlank`, `Numbers.ParseDigits` and the round trip `Numbers.ParseFormatMilli` |
| Numbers.ParseNumberIgnoresSpace | packages/bisync/src/sanitize.ts:183 | `Number(s)` ignores white space around the literal |
| Numbers.ParseBlank | packages/bisync/src/sanitize.ts:188 | `Number` of an empty or all-white-space string is 0 |
| Numbers.ParseDigits | packages/bisync/src/sanitize.ts:188 | a string of digits reads as its decimal value |
| Numbers.Milli | packages/bisync/src/sanitize.ts:195 | `toFixed(3)` keeps the nearest whole number of thousandths, with halves rounded away from zero (stated as bounds on both sides) |
| Numbers.Round3 | packages/bisync/src/sanitize.ts:195 | `parseFloat(x.toFixed(3))` as an exact value; `Numbers.Round3Close` bounds how far it moves a value |
| Numbers.Round3Close | packages/bisync/src/sanitize.ts:195 | rounding to thousandths moves a value by at most half a thousandth |
| Numbers.MilliOfMilli | packages/bisync/src/sanitize.ts:195 | rounding an already rounded value changes nothing |
| Numbers.FractionDigitsValue | packages/bisync/src/sanitize.ts:176 | the printed fraction is empty for whole numbers; otherwise it is a point and digits whose value is the thousandths |
| Numbers.FormatMilli | packages/bisync/src/sanitize.ts:176 | `toString()` of a whole number of thousandths; `Numbers.ParseFormatMilli`, `Numbers.FormatMilliInjective` and `Numbers.FormatMilliIsPlainDecimal` state that it reads back, is injective and is a plain decimal |
| Numbers.ParseUnsignedFormat | packages/bisync/src/sanitize.ts:195 | the unsigned digits of a printed rounded value read back as that value |
| Numbers.ParseFormatMilli | packages/bisync/src/sanitize.ts:195 | round trip: `Number(x.toString())` gives back every rounded value `x` |
| Numbers.FormatMilliSign | packages/bisync/src/sanitize.ts:176 | a printed value is a minus sign followed by the unsigned form for negatives, and the unsigned form starting with a digit otherwise |
| Numbers.FormatMilliTrimmed | packages/bisync/src/sanitize.ts:176 | a printed number is non-empty and has no white space at either end |
| Numbers.FormatRoundedMilli | packages/bisync/src/sanitize.ts:195 | `parseFloat(x.toFixed(3)).toString()` of a thousandths value prints exactly those thousandths |
| Numbers.FormatMilliSettles | packages/bisync/src/normalizer.ts:112 | a printed rounded value is a plain decimal, reads back as itself, and rounds and prints to itself again |
| Numbers.FormatMilliInjective | packages/bisync/src/sanitize.ts:176 | distinct rounded values print differently |
| Numbers.FormatMilliIsPlainDecimal | packages/bisync/src/normalizer.ts:111 | every printed rounded value matches `/^-?\d+(?:\.\d+)?$/` |
| Numbers.PlainDecimalChars | packages/bisync/src/normalizer.ts:111 | a plain decimal holds only digits, a minus sign and a point |
| Numbers.PlainDecimalParses | packages/bisync/src/normalizer.ts:112 | every plain decimal is a finite `Number` |
| Dom.Names | packages/bisync/src/sanitize.ts:68 | the attribute names, position by position |
| Dom.GetAttribute | packages/bisync/src/diff.ts:56 | `getAttribute`: no value exactly when no attribute has that name; a value found belongs to an attribute of that name |
| Dom.FirstElementIndex | packages/bisync/src/sanitize.ts:55 | the position of the first element child; nothing before it is an element |
| Dom.Elements | packages/bisync/src/diff.ts:18 | the element filter keeps only element nodes taken from the list |
| Dom.ElementsMembers | packages/bisync/src/diff.ts:18 | the element filter keeps exactly the element nodes |
| Dom.ElementsAppend | packages/bisync/src/diff.ts:18 | the element filter keeps the order of the nodes |
| Sanitize.ReplaceUnsafe | packages/bisync/src/sanitize.ts:142 | after `replace(/[^A-Za-z0-9_-]+/g, "-")` only characters of `[A-Za-z0-9_-]` remain |
| Sanitize.SafeId | packages/bisync/src/sanitize.ts:142 | a rewritten id holds only `[A-Za-z0-9_-]` and never starts with `-` |
| Sanitize.ReplaceUnsafeOfSafe | packages/bisync/src/sanitize.ts:142 | a string of safe characters passes the rewriting unchanged |
| Sanitize.SafeIdIdempotent | packages/bisync/src/sanitize.ts:142 | rewriting an id twice gives the same as rewriting it once |
| Sanitize.CompressTransform | packages/bisync/src/sanitize.ts:198-204 | `compressTransform`: collapse white space, drop spaces beside commas, trim; `Sanitize.CompressTransformIsTight` and `Sanitize.CompressTransformIdempotent` state what it gives |
| Sanitize.CompressTransformIsTight | packages/bisync/src/sanitize.ts:198-204 | `compressTransform` leaves single spaces only, none at either end and none next to a comma |
| Sanitize.CompressTransformIdempotent | packages/bisync/src/sanitize.ts:198-204 | `compressTransform` applied twice equals applying it once |
| Sanitize.NormaliseNumber | packages/bisync/src/sanitize.ts:187-196 | succeeds exactly when the value is a finite number that is not negative where negatives are rejected; the result is its rounded thousandths, non-negative when negatives are rejected |
| Sanitize.FormattedNumbers | packages/bisync/src/sanitize.ts:159 | one normalised number per token |
| Sanitize.FormattedNumbersPlain | packages/bisync/src/sanitize.ts:168 | every normalised token is a plain decimal |
| Sanitize.RuleOf | packages/bisync/src/sanitize.ts:140-179 | the branch of `normalizeAttribute` a name takes, tested in the program's order; `Sanitize.RuleOfSpecialNames` and `Sanitize.RuleOfClassifies` state which names take which branch |
| Sanitize.RuleOfSpecialNames | packages/bisync/src/sanitize.ts:140-162 | `id`, `transform`, `stroke-dasharray` and `points` take their own branches |
| Sanitize.RuleOfClassifies | packages/bisync/src/sanitize.ts:171-179 | the numeric branch is taken exactly for the fourteen numeric names; negatives are rejected exactly for `width`, `height` and `stroke-width`; the opacity check only for `opacity`; every other name is kept verbatim |
| Sanitize.NormalizeId | packages/bisync/src/sanitize.ts:140-147 | the id branch never fails and pushes exactly the id warning: one for an invalid id, none for a valid one |
| Sanitize.NormalizeList | packages/bisync/src/sanitize.ts:153-169 | the list branches leave the warnings as they were |
| Sanitize.ListRule | packages/bisync/src/sanitize.ts:153-169 | a list fails exactly when a token is not finite, or, for an even-count list, when the count is odd; the failure carries the warnings so far; success joins the normalised tokens by single spaces, each a plain decimal |
| Sanitize.NormalizeNumeric | packages/bisync/src/sanitize.ts:171-177 | success keeps the warnings; a failure carries either the warnings so far or none |
| Sanitize.NormalizeAttribute | packages/bisync/src/sanitize.ts:137-180 | only the id branch adds a warning, and it never fails; any other success keeps the warnings; a failure carries the warnings so far, except the number errors, which carry none |
| Sanitize.IdKeptWhenValid | packages/bisync/src/sanitize.ts:140-147 | a trimmed id matching `idPattern` is kept unchanged, with no warning |
| Sanitize.IdRewrittenWhenInvalid | packages/bisync/src/sanitize.ts:141-144 | an invalid id is rewritten to safe characters not starting with `-`, and one warning naming the old and the new value is pushed |
| Sanitize.RewrittenIdMayBeInvalid | packages/bisync/src/sanitize.ts:142 | the rewritten id can still fail `idPattern`: an empty id stays empty, and `9` stays `9` |
| Sanitize.TransformCompressed | packages/bisync/src/sanitize.ts:149-151 | `transform` never fails, adds no warning, and comes out compressed: tight, trimmed and a fixed point of `compressTransform` |
| Sanitize.PointsValues | packages/bisync/src/sanitize.ts:162-169 | `points` fails exactly on an odd count or a non-finite token, with its message and the warnings so far; otherwise it is the normalised tokens joined by single spaces |
| Sanitize.DasharrayValues | packages/bisync/src/sanitize.ts:153-160 | `stroke-dasharray` fails exactly on a non-finite token, whatever the count; otherwise it is the normalised tokens joined by single spaces |
| Sanitize.NumericDispatch | packages/bisync/src/sanitize.ts:171-172 | a numeric name goes to the number rule, rejecting negatives exactly for the positive-only names |
| Sanitize.NumericRuleValue | packages/bisync/src/sanitize.ts:171-196 | a non-finite value fails with "expected numeric value" and no warnings; a rejected negative fails with "must not be negative" and no warnings; an opacity outside [0, 1] after rounding fails with the warnings so far; otherwise the value is the printed rounded number |
| Sanitize.PlainAttributeTrimmed | packages/bisync/src/sanitize.ts:179 | any other attribute keeps its trimmed value, with no warning |
| Sanitize.AllowedNames | packages/bisync/src/sanitize.ts:101-108 | the names the attribute loop keeps are all on the allow-list |
| Sanitize.SanitizedAttrs | packages/bisync/src/sanitize.ts:101-108 | after the attribute loop every attribute set is on the allow-list |
| Sanitize.SanitizedAttrsWarnings | packages/bisync/src/sanitize.ts:101-108 | a successful attribute loop appends exactly one removal warning per dropped attribute, plus the id warnings, in attribute order |
| Sanitize.SanitizedAttrsNames | packages/bisync/src/sanitize.ts:101-108 | a successful attribute loop keeps exactly the allowed attributes, in their order |
| Sanitize.RemovalWarnings | packages/bisync/src/sanitize.ts:102-104 | one "Removed disallowed attribute" warning for each dropped attribute |
| Sanitize.RemovalsOnly | packages/bisync/src/sanitize.ts:68-72 | without an `id` attribute the only warnings are removal notices |
| Sanitize.SanitizedText | packages/bisync/src/sanitize.ts:120-131 | text is collapsed and trimmed; it yields no node exactly when it comes out empty; it fails exactly when it contains `<` or `>`; success adds no warning |
| Sanitize.SanitizedNode | packages/bisync/src/sanitize.ts:88-135 | every node the sanitizer keeps conforms: allowed tag, allowed attributes, clean text, all the way down |
| Sanitize.SanitizedElement | packages/bisync/src/sanitize.ts:93-118 | a successful element always yields a conforming node |
| Sanitize.SanitizedChildren | packages/bisync/src/sanitize.ts:110-115 | the children are appended after those already kept, at most one per child, each conforming |
| Sanitize.NodeKeepsWarnings | packages/bisync/src/sanitize.ts:88-135 | warnings are only ever added: a successful node keeps every earlier warning in front |
| Sanitize.ChildrenKeepWarnings | packages/bisync/src/sanitize.ts:110-115 | the child loop only ever adds warnings |
| Sanitize.NodeVisitsElements | packages/bisync/src/sanitize.ts:93-117 | a successful `sanitizeNode` visits every element below it, so each one's attribute warnings are among the warnings it returns |
| Sanitize.ChildrenVisitElements | packages/bisync/src/sanitize.ts:110-115 | a successful child loop visits every element below every child, so each one's attribute warnings are among the warnings it returns |
| Sanitize.SanitizedChildrenAppend | packages/bisync/src/sanitize.ts:110-115 | the child loop over two lists is the loop over the first, then over the second from where it stopped; a failure stops it |
| Sanitize.SanitizedSvg | packages/bisync/src/sanitize.ts:41-45 | empty or white-space input gives `<g></g>` and no warnings |
| Sanitize.SanitizedRoot | packages/bisync/src/sanitize.ts:55-82 | success means the first element is a `<g>` whose attributes are allowed and whose children all conform |
| Sanitize.RootVisitsElements | packages/bisync/src/sanitize.ts:64-82 | a successful run visits every element of the tree under the root `<g>`, the root included, so each one's attribute warnings are among the run's warnings |
| Sanitize.LaterSiblingsIgnored | packages/bisync/src/sanitize.ts:55 | only the first top-level element counts: nodes after it change nothing and add no warning |
| Sanitize.RootMustBeGroup | packages/bisync/src/sanitize.ts:60-62 | a first element other than `<g>` is fatal, with no warnings |
| Sanitize.SanitizeAttributes | packages/bisync/src/sanitize.ts:101-108 | the attribute loop computes the attribute pass |
| Sanitize.SanitizeChildren | packages/bisync/src/sanitize.ts:110-115 | the child loop computes the child pass |
| Sanitize.SanitizeNode | packages/bisync/src/sanitize.ts:88-135 | `sanitizeNode` computes the node pass |
| Sanitize.SanitizeSvg | packages/bisync/src/sanitize.ts:41-86 | `sanitizeSvg` computes the sanitizer's verdict |
| Normalizer.IndexIn | packages/bisync/src/normalizer.ts:93-94 | `indexOf`: -1 exactly for an absent name, otherwise the first position holding it |
| Normalizer.LexLeTotal | packages/bisync/src/normalizer.ts:96 | the name order is total |
| Normalizer.LexLeTrans | packages/bisync/src/normalizer.ts:96 | the name order is transitive |
| Normalizer.LexLeAntisymmetric | packages/bisync/src/normalizer.ts:96 | the name order is antisymmetric |
| Normalizer.KeyLeTotal | packages/bisync/src/normalizer.ts:92-101 | the comparator ranks any two entries |
| Normalizer.KeyLeTrans | packages/bisync/src/normalizer.ts:92-101 | the comparator is transitive |
| Normalizer.RankedLeAntisymmetric | packages/bisync/src/normalizer.ts:92-101 | entries the comparator ranks equal share their name |
| Normalizer.Insert | packages/bisync/src/normalizer.ts:92-101 | insertion adds exactly the one entry |
| Normalizer.Sort | packages/bisync/src/normalizer.ts:92-101 | the sort is a permutation |
| Normalizer.InsertOrdered | packages/bisync/src/normalizer.ts:92-101 | insertion keeps a list ordered |
| Normalizer.SortOrdered | packages/bisync/src/normalizer.ts:92-101 | the sorted list is ordered by the comparator |
| Normalizer.OrderedUnique | packages/bisync/src/normalizer.ts:92-101 | with distinct names there is only one ordered arrangement, so the output does not depend on the sort algorithm |
| Normalizer.Ranks | packages/bisync/src/normalizer.ts:93-94 | each attribute is paired with its `attributeOrder` index |
| Normalizer.SortedLayout | packages/bisync/src/normalizer.ts:92-101 | listed names come first, in `attributeOrder` order; unlisted names come after all listed ones, in alphabetical order |
| Normalizer.RoundedDecimalFixed | packages/bisync/src/normalizer.ts:111-112 | a printed thousandths value is a plain decimal that rounds to itself |
| Normalizer.RoundedDecimalForm | packages/bisync/src/normalizer.ts:111-112 | a rounded plain decimal is the printed form of a whole number of thousandths |
| Normalizer.MatrixShapeFixed | packages/bisync/src/normalizer.ts:115-117 | a value containing `matrix` comes out non-empty, trimmed, still containing `matrix`, not a plain decimal, and already tight |
| Normalizer.SpaceShapeFixed | packages/bisync/src/normalizer.ts:119-121 | a value with a space and no `matrix` comes out trimmed, still containing a space, and already collapsed |
| Normalizer.ShapeFixed | packages/bisync/src/normalizer.ts:111-123 | on trimmed input the shape rules give trimmed text that they map to itself |
| Normalizer.NormaliseAttributeValue | packages/bisync/src/normalizer.ts:105-124 | `normaliseAttributeValue`: the trimmed value put in canonical form by its shape (plain decimal, `matrix`, containing a space, other); `Normalizer.NormaliseIdempotent` states that a second pass changes nothing |
| Normalizer.NormaliseIdempotent | packages/bisync/src/normalizer.ts:105-124 | `normaliseAttributeValue` is idempotent |
| Normalizer.NormalisedAttrs | packages/bisync/src/normalizer.ts:87-91 | one normalised attribute per attribute |
| Normalizer.NormalisedAttrsAt | packages/bisync/src/normalizer.ts:87-91 | each attribute keeps its name and gets its normalised value |
| Normalizer.SortedAttrs | packages/bisync/src/normalizer.ts:86-101 | the sort keeps the number of attributes |
| Normalizer.Rendered | packages/bisync/src/normalizer.ts:102 | one `name="value"` string per entry |
| Normalizer.SortAttributes | packages/bisync/src/normalizer.ts:86-103 | `sortAttributes` emits one string per attribute |
| Normalizer.EmittedAttributes | packages/bisync/src/normalizer.ts:86-103 | the emitted attributes are a permutation of the normalised attributes, listed names first in `attributeOrder` order, then the others alphabetically |
| Normalizer.Indent | packages/bisync/src/normalizer.ts:58 | the indent is two spaces per level |
| Normalizer.IndentLine | packages/bisync/src/normalizer.ts:58 | an indented line sits at exactly its depth |
| Normalizer.FramedIndented | packages/bisync/src/normalizer.ts:81-83 | an open line, deeper lines and a close line form a block at the open line's depth |
| Normalizer.NodeLines | packages/bisync/src/normalizer.ts:57-84 | the lines `serializeNode` appends for a node; `Normalizer.NodeLinesIndented` and `Normalizer.SerializeNode` state their indentation and that the method appends them |
| Normalizer.NodeLinesIndented | packages/bisync/src/normalizer.ts:57-84 | every line of a node is indented at least to its depth, and its first and last lines exactly to it |
| Normalizer.ChildLinesIndented | packages/bisync/src/normalizer.ts:82 | every child line is indented at least to the children's depth |
| Normalizer.TextLines | packages/bisync/src/normalizer.ts:59-69 | a text node gives one indented line with its trimmed text, or none when that is empty; other non-element nodes give none |
| Normalizer.ElementShape | packages/bisync/src/normalizer.ts:71-83 | a childless element gives one `<tag attrs />` line; an element with children gives an open line, the children's lines one level deeper, and a close line at the same depth |
| Normalizer.NormalizedSvg | packages/bisync/src/normalizer.ts:31-55 | the text `normalizeSvg` returns; `Normalizer.NormalizeFallbacks`, `Normalizer.NormalizeLines` and `Normalizer.NormalizeSvg` state its cases |
| Normalizer.NormalizeFallbacks | packages/bisync/src/normalizer.ts:31-47 | white-space input gives `""`; a parse error or a missing container gives the trimmed input back; it never fails |
| Normalizer.NormalizeLines | packages/bisync/src/normalizer.ts:49-54 | otherwise the output is the container's child lines at depth 1, joined by newlines, each indented at least one level |
| Normalizer.SerializeNode | packages/bisync/src/normalizer.ts:57-84 | `serializeNode` appends exactly the node's lines |
| Normalizer.SerializeElement | packages/bisync/src/normalizer.ts:71-83 | the element branch appends exactly the element's lines |
| Normalizer.NormalizeSvg | packages/bisync/src/normalizer.ts:31-55 | `normalizeSvg` computes the normalised text |
| Diagnostics.SplitLines | packages/bisync/src/diagnostics.ts:125 | `split(/\r?\n/)` always gives at least one line |
| Diagnostics.LineStart | packages/bisync/src/diagnostics.ts:127 | the start of the last line lies within the text |
| Diagnostics.PositionFromIndex | packages/bisync/src/diagnostics.ts:123-129 | line and column are both at least 1 |
| Diagnostics.SplitLinesCounts | packages/bisync/src/diagnostics.ts:125-127 | there is one more line than there are `\n` breaks, and the last line is everything after the last break |
| Diagnostics.PositionCounts | packages/bisync/src/diagnostics.ts:123-129 | line = 1 + the breaks before the index; column = 1 + the characters since the last break |
| Diagnostics.PositionAtStart | packages/bisync/src/diagnostics.ts:123-129 | index 0 is line 1, column 1 |
| Diagnostics.PositionStep | packages/bisync/src/diagnostics.ts:123-129 | one more character moves to the next column, or to column 1 of the next line after a `\n` |
| Diagnostics.PositionPastEnd | packages/bisync/src/diagnostics.ts:124 | offsets past the end are clamped as `slice` clamps them |
| Diagnostics.PositionMonotone | packages/bisync/src/diagnostics.ts:123-129 | a later index never gives an earlier position |
| Diagnostics.NameRun | packages/bisync/src/diagnostics.ts:84 | the maximal run of `[a-zA-Z-]` at a position |
| Diagnostics.MatchAt | packages/bisync/src/diagnostics.ts:84 | a match at a position starts there and ends after it, within the text |
| Diagnostics.MatchAtParts | packages/bisync/src/diagnostics.ts:84 | a match is a name run, `="`, a run without quotes, and a closing quote |
| Diagnostics.MatchText | packages/bisync/src/diagnostics.ts:87 | the matched text is exactly `name="raw"`, with a non-empty name of name characters and a raw value without quotes |
| Diagnostics.NextMatch | packages/bisync/src/diagnostics.ts:86 | `regex.exec` from `lastIndex` finds the leftmost match, or reports none exactly when there is none |
| Diagnostics.Matches | packages/bisync/src/diagnostics.ts:84-86 | the matches of the global `exec` loop; `Diagnostics.MatchesInOrder` and `Diagnostics.MatchesSkipNothing` state that they are all the matches, in order and without overlap |
| Diagnostics.MatchesInOrder | packages/bisync/src/diagnostics.ts:86-107 | the scan's matches are real matches, in text order, and do not overlap |
| Diagnostics.MatchesSkipNothing | packages/bisync/src/diagnostics.ts:86-107 | no match is skipped: none before the first, between consecutive ones, or after the last |
| Diagnostics.CreatedDiagnostic | packages/bisync/src/diagnostics.ts:110-121 | `createDiagnostic` is an error with the given message, spanning from the position of the index to that of index + length |
| Diagnostics.CreatedSpan | packages/bisync/src/diagnostics.ts:110-121 | a created diagnostic's start does not come after its end |
| Diagnostics.Complaint | packages/bisync/src/diagnostics.ts:88-105 | the message one match earns, if any; `Diagnostics.ComplaintCases` states the order of the checks |
| Diagnostics.ComplaintCases | packages/bisync/src/diagnostics.ts:88-105 | only numeric names are checked; the checks come in order: not finite, then negative for positive-only names, then opacity outside [0, 1]; no complaint exactly when all pass |
| Diagnostics.Reported | packages/bisync/src/diagnostics.ts:94-105 | a match yields at most one diagnostic, exactly when there is a complaint: an error with that message over the match |
| Diagnostics.AllMatchDiagnostics | packages/bisync/src/diagnostics.ts:86-107 | at most one diagnostic per match |
| Diagnostics.NumericDiagnostics | packages/bisync/src/diagnostics.ts:82-108 | `numericAttributeDiagnostics`; `Diagnostics.NumericDiagnosticsShape` and `Diagnostics.ScanNumericAttributes` state what it returns |
| Diagnostics.NumericDiagnosticsShape | packages/bisync/src/diagnostics.ts:82-108 | every scan diagnostic is an error with one of the three messages |
| Diagnostics.MatchReported | packages/bisync/src/diagnostics.ts:86-107 | every match's diagnostic is in the scan's list |
| Diagnostics.NegativeReported | packages/bisync/src/__tests__/diagnostics.test.ts:7-11 | a negative width, height or stroke width found by the scan is reported as "cannot be negative" over its match |
| Diagnostics.VerdictOf | packages/bisync/src/diagnostics.ts:34-76 | the sanitizer model never crashes; it returns exactly when it succeeds, with the same warnings, and a failure keeps its message |
| Diagnostics.AnchoredWarnings | packages/bisync/src/diagnostics.ts:36-45 | one warning diagnostic per sanitizer warning |
| Diagnostics.AnchoredWarningsAt | packages/bisync/src/diagnostics.ts:36-45 | each warning becomes a warning diagnostic anchored at (1,1)-(1,1), in the same order |
| Diagnostics.AnchoredWarningsMembers | packages/bisync/src/diagnostics.ts:36-45 | the warning diagnostics are exactly the anchored sanitizer warnings |
| Diagnostics.VerdictDiagnostics | packages/bisync/src/diagnostics.ts:34-76 | a success gives one diagnostic per warning; a `SanitizeError` gives one error plus one per warning; any other error gives one |
| Diagnostics.SvgDiagnostics | packages/bisync/src/diagnostics.ts:78 | the scan's diagnostics are always included |
| Diagnostics.WarningsAreSanitizerWarnings | packages/bisync/src/diagnostics.ts:36-76 | a warning diagnostic appears exactly when the sanitizer reported that warning, and every warning diagnostic is anchored at (1,1) |
| Diagnostics.FailureComesFirst | packages/bisync/src/diagnostics.ts:46-55 | a failed sanitizer run puts its message first, as an error anchored at (1,1) |
| Diagnostics.ScanComesLast | packages/bisync/src/diagnostics.ts:78 | the scan's diagnostics come last, whatever the sanitizer said |
| Diagnostics.RemovalListed | packages/bisync/src/sanitize.ts:68-72 | every disallowed attribute has its removal warning |
| Diagnostics.DisallowedAttributeWarns | packages/bisync/src/__tests__/diagnostics.test.ts:13-17 | a disallowed attribute on any element of a successful run, the root `<g>` or any element below it, shows up as a warning diagnostic |
| Diagnostics.DisallowedChildAttributeWarns | packages/bisync/src/__tests__/diagnostics.test.ts:13-17 | the test's case: a disallowed attribute on a child of the root, as in `<g><rect foo="bar" …/></g>`, shows up as a warning diagnostic |
| Diagnostics.ReportVerdict | packages/bisync/src/diagnostics.ts:34-76 | the warning loops push exactly the verdict's diagnostics |
| Diagnostics.ScanNumericAttributes | packages/bisync/src/diagnostics.ts:82-108 | the `while (regex.exec(code))` loop pushes exactly the scan's diagnostics |
| Diagnostics.CollectSvgDiagnostics | packages/bisync/src/diagnostics.ts:32-80 | `svgDiagnostics` returns the verdict's diagnostics followed by the scan's |
| Diff.Heads | packages/bisync/src/diff.ts:55-60 | one key head per element |
| Diff.Keys | packages/bisync/src/diff.ts:55-64 | one key per element |
| Diff.KeyAt | packages/bisync/src/diff.ts:55-64 | each key depends only on the element and the anonymous same-tag elements before it |
| Diff.KeysPrefix | packages/bisync/src/diff.ts:13-16 | the keys of a prefix are the prefix of the keys |
| Diff.AnonCountStep | packages/bisync/src/diff.ts:57-62 | an element with an id does not advance any counter; an anonymous one advances only its own tag's counter |
| Diff.KeyShape | packages/bisync/src/diff.ts:55-64 | an element with an id has key `#id`; otherwise `tag:n`, where n is the number of earlier anonymous elements of its tag |
| Diff.OrdinalKeysDistinct | packages/bisync/src/diff.ts:60-63 | two anonymous elements of the same tag never share a key |
| Diff.CountsAgree | packages/bisync/src/diff.ts:61-62 | each counter in the map holds the number of anonymous elements of its tag seen so far |
| Diff.ComputeKey | packages/bisync/src/diff.ts:55-64 | `computeKey` returns the element's key and leaves the counters one element further on |
| Diff.SetAttr | packages/bisync/src/diff.ts:74 | `setAttribute` makes the name read the new value and leaves every other name as it was |
| Diff.RemoveAttrMembers | packages/bisync/src/diff.ts:81 | `removeAttribute` drops exactly the attributes of that name |
| Diff.SetAttrSame | packages/bisync/src/diff.ts:73 | setting a value an attribute already has changes nothing |
| Diff.MemberByName | packages/bisync/src/diff.ts:72 | with distinct names, an attribute is present exactly when looking up its name gives its value |
| Diff.Kept | packages/bisync/src/diff.ts:79-84 | the removing loop keeps exactly the attributes whose names the source has |
| Diff.AssignedReads | packages/bisync/src/diff.ts:70-77 | after the assigning loop every source name reads the source's value and every other name is untouched |
| Diff.NewAttrsMirrorSource | packages/bisync/src/diff.ts:70-84 | after `updateElement` the element holds exactly the source's name/value pairs |
| Diff.QuietAssign | packages/bisync/src/diff.ts:70-77 | the assigning loop sets nothing exactly when every source attribute is already present |
| Diff.AttrsChangedIff | packages/bisync/src/diff.ts:66-84 | `updateElement` reports an attribute change exactly when the two attribute sets differ |
| Diff.ContentFollowsSource | packages/bisync/src/diff.ts:86-104 | an empty source clears the children; otherwise the children serialise to the source's markup; the content is replaced exactly when it differs |
| Diff.LiveElement.Clone | packages/bisync/src/diff.ts:33 | `cloneNode(true)` copies the tag, the attributes and the children |
| Diff.LiveElement.SetAttribute | packages/bisync/src/diff.ts:74 | sets one attribute and touches nothing else |
| Diff.LiveElement.RemoveAttribute | packages/bisync/src/diff.ts:81 | removes one attribute and touches nothing else |
| Diff.LiveElement.ReplaceContent | packages/bisync/src/diff.ts:88 | assigning `textContent` or `innerHTML` replaces the children wholesale and keeps the attributes |
| Diff.AssignAttributes | packages/bisync/src/diff.ts:70-77 | the assigning loop sets every source attribute, collects the names it saw, and reports whether any value differed |
| Diff.RemoveUnseen | packages/bisync/src/diff.ts:79-84 | the removing loop drops every attribute the source lacks and reports whether it dropped any |
| Diff.UpdateElement | packages/bisync/src/diff.ts:66-105 | `updateElement` leaves the updated state and returns whether anything changed |
| Diff.UpdateSettles | packages/bisync/src/diff.ts:66-105 | updating a second time with the same source changes nothing |
| Diff.Minus | packages/bisync/src/diff.ts:40 | removing nodes keeps exactly the others |
| Diff.LiveGroup.Remove | packages/bisync/src/diff.ts:40 | `remove()` takes the node out of the group and keeps the order of the rest |
| Diff.LiveGroup.AppendChild | packages/bisync/src/diff.ts:45-49 | `appendChild` moves the node from its old place, if any, to the end |
| Diff.MinusTwice | packages/bisync/src/diff.ts:39-50 | removing twice is removing both sets |
| Diff.MinusAppend | packages/bisync/src/diff.ts:39-50 | removal works piece by piece |
| Diff.LiveKeys | packages/bisync/src/diff.ts:10-16 | one key per live child, from the first counter map |
| Diff.IncomingKeys | packages/bisync/src/diff.ts:18-23 | one key per incoming element, from a second, independent counter map |
| Diff.Dedup | packages/bisync/src/diff.ts:15 | the key order of the index has exactly the keys handed out |
| Diff.IndexOf | packages/bisync/src/diff.ts:13-16 | the index has exactly the live keys |
| Diff.IndexLive | packages/bisync/src/diff.ts:10-16 | the indexing loop builds the index and its key order |
| Diff.Unclaimed | packages/bisync/src/diff.ts:39 | the keys left in the index are exactly those no incoming key claimed |
| Diff.Drop | packages/bisync/src/diff.ts:31 | `Map.delete` removes exactly that key |
| Diff.UnclaimedRepeat | packages/bisync/src/diff.ts:24-31 | an incoming key seen a second time claims nothing more |
| Diff.Reconcile | packages/bisync/src/diff.ts:22-37 | the matching loop leaves the report lists, the placed nodes and their states as the specification says |
| Diff.Prune | packages/bisync/src/diff.ts:39-42 | the removing loop removes the unclaimed nodes, lists their keys in `removed`, and leaves the placed nodes alone |
| Diff.Reorder | packages/bisync/src/diff.ts:44-50 | the append loop leaves first the nodes that were not placed, then the placed nodes in order, and keeps their states |
| Diff.Rebuild | packages/bisync/src/diff.ts:39-50 | the two loops leave the old children minus the indexed ones, then the placed nodes in order, each once; every removed key is reported; no element's state changes |
| Diff.Rendered | packages/bisync/src/diff.ts:22-37 | one rendered state per incoming element |
| Diff.RenderedAt | packages/bisync/src/diff.ts:24-36 | a claimed position holds its live element updated from the source; any other holds a copy of the incoming element |
| Diff.MatchChildren | packages/bisync/src/diff.ts:10-37 | indexing and matching: the report lists, the claimed or cloned node at each position, and their states |
| Diff.DiffApply | packages/bisync/src/diff.ts:7-53 | `diffApply` reports `created`, `updated` and `removed` as specified and leaves the children as the kept nodes then the placed ones; a kept node whose key was overwritten in the index keeps its state; with distinct live keys the children are exactly the placed nodes in incoming order; an empty fragment creates and updates nothing and removes every live key |
| Diff.CreatedKeys | packages/bisync/src/diff.ts:32-36 | the `created` list; `Diff.CreatedIff` states which keys it holds |
| Diff.CreatedIff | packages/bisync/src/diff.ts:32-36 | a key is `created` exactly when some incoming position with that key claims nothing |
| Diff.UpdatedKeys | packages/bisync/src/diff.ts:25-31 | the `updated` list; `Diff.UpdatedIff` states which keys it holds |
| Diff.UpdatedIff | packages/bisync/src/diff.ts:25-31 | a key is `updated` exactly when some incoming position claims it and its update changed something |
| Diff.CreatedOfDistinct | packages/bisync/src/__tests__/diff.test.ts:7-17 | with distinct incoming keys, `created` is exactly the incoming keys that are not live |
| Diff.RepeatedIncomingCreated | packages/bisync/src/diff.ts:24-36 | an incoming key seen a second time is always reported `created` |
| Diff.ReportDisjoint | packages/bisync/src/diff.ts:22-42 | a `removed` key is neither `created` nor `updated`, and with distinct incoming keys no key is both `created` and `updated` |
| Diff.DuplicateIncomingOverlaps | packages/bisync/src/diff.ts:24-36 | with a repeated incoming key the reports overlap: two incoming `<rect id="a">` against a changed live `#a` put `#a` in both `updated` and `created` |
| Diff.UpdatedOfDistinct | packages/bisync/src/__tests__/diff.test.ts:19-36 | with distinct incoming keys, a claimed key is `updated` exactly when its element changed |
| Diff.IndexOfLast | packages/bisync/src/diff.ts:15 | each index key maps to the last live element carrying it |
| Diff.OverwrittenSurvives | packages/bisync/src/diff.ts:15 | an earlier live element whose key repeats is not in the index, so it is never removed |
| Diff.DistinctKeysLeaveNone | packages/bisync/src/__tests__/diff.test.ts:38-49 | with distinct live keys every live element is indexed, so none survives unless it is reused |
| Diff.RenderedSettles | packages/bisync/src/diff.ts:66-105 | each rendered element holds its source's attributes, and updating it again changes nothing |
| Geometry.Identity | apps/web/src/utils/matrix.ts:5-7 | `identityMatrix`: the unit matrix; `Geometry.IdentityNeutral` and `Geometry.IdentityFixes` state what it does |
| Geometry.Multiply | apps/web/src/utils/matrix.ts:25-32 | `multiplyMatrix`: the product that applies the right factor first; its laws are `Geometry.IdentityNeutral`, `Geometry.MultiplyAssociative` and `Geometry.TransformComposes` |
| Geometry.Translate | apps/web/src/utils/matrix.ts:34-36 | `translateMatrix`: characterised by `Geometry.TranslateMoves` and `Geometry.TranslationsAdd` |
| Geometry.Scale | apps/web/src/utils/matrix.ts:38-40 | `scaleMatrix`: characterised by `Geometry.ScaleStretches` and `Geometry.ScalesMultiply` |
| Geometry.TransformPoint | apps/web/src/utils/matrix.ts:50-53 | `transformPoint`: the affine image of a point; `Geometry.TransformComposes` relates it to the product |
| Geometry.IdentityNeutral | apps/web/src/utils/matrix.ts:25-32 | the identity is a left and a right unit of the product |
| Geometry.MultiplyAssociative | apps/web/src/utils/matrix.ts:25-32 | the product is associative |
| Geometry.TransformComposes | apps/web/src/utils/matrix.ts:50-53 | transforming by a product applies the right factor first |
| Geometry.IdentityFixes | apps/web/src/utils/matrix.ts:5-7 | the identity fixes every point |
| Geometry.TranslationsAdd | apps/web/src/utils/matrix.ts:34-36 | translations compose by adding offsets |
| Geometry.ScalesMultiply | apps/web/src/utils/matrix.ts:38-40 | scales compose by multiplying factors |
| Geometry.TranslateMoves | apps/web/src/utils/matrix.ts:34-36 | a translation shifts every point by its offset |
| Geometry.ScaleStretches | apps/web/src/utils/matrix.ts:38-40 | a scale multiplies the coordinates |
| Geometry.MinOfBounds | apps/web/src/utils/matrix.ts:63-71 | the running minimum is no larger than any value and is one of them |
| Geometry.MaxOfBounds | apps/web/src/utils/matrix.ts:63-71 | the running maximum is no smaller than any value and is one of them |
| Geometry.BoundsTight | apps/web/src/utils/matrix.ts:55-74 | for a non-empty list the box has non-negative size, holds every point, and each of its four sides is reached by a point |
| Geometry.BoundsOfNone | apps/web/src/utils/matrix.ts:56 | no points give the zero box |
| Geometry.GetBounds | apps/web/src/utils/matrix.ts:55-74 | `getBounds` computes the bounding box of the points |
| Geometry.FirstMatrixBody | apps/web/src/utils/matrix.ts:13 | `match(/matrix\(([^)]+)\)/)` finds the leftmost match, or none exactly when there is none |
| Geometry.Fields | apps/web/src/utils/matrix.ts:16 | `split(/[,\s]+/)` gives at least one field |
| Geometry.Values | apps/web/src/utils/matrix.ts:16 | `map(Number)` gives one number per field |
| Geometry.ValuesRead | apps/web/src/utils/matrix.ts:16 | fields that each read as a number give those numbers, in order |
| Geometry.ParseMatrix | apps/web/src/utils/matrix.ts:12-23 | `parseMatrix`: the identity without a `matrix(...)` or without six fields, otherwise the six numbers; `None` for a non-finite entry; characterised by `Geometry.NoMatrixMeansIdentity`, `Geometry.WrongCountMeansIdentity` and the round trip `Geometry.ParseMatrixOfString` |
| Geometry.NoMatrixMeansIdentity | apps/web/src/utils/matrix.ts:14 | a string without `matrix(...)` reads as the identity |
| Geometry.WrongCountMeansIdentity | apps/web/src/utils/matrix.ts:17 | a `matrix(...)` without exactly six fields reads as the identity |
| Geometry.MatrixToString | apps/web/src/utils/matrix.ts:9-10 | `matrixToString`: `matrix(` and the six entries joined by commas, then `)`; `Geometry.PrintedBody` and `Geometry.ParseMatrixOfString` state that it reads back as the matrix |
| Geometry.EntryTexts | apps/web/src/utils/matrix.ts:9-10 | each entry is printed as its number text |
| Geometry.ThousandthsRead | apps/web/src/utils/matrix.ts:16 | an entry's text reads back as that entry |
| Geometry.FieldsOfJoin | apps/web/src/utils/matrix.ts:16 | splitting a comma-joined list of plain fields gives the fields back |
| Geometry.PrintedBody | apps/web/src/utils/matrix.ts:9-13 | the pattern finds exactly the comma-joined entries of a printed matrix |
| Geometry.ParseMatrixOfString | apps/web/src/utils/matrix.ts:9-23 | round trip: reading back a printed matrix gives the matrix |
| Snapping.KindNameAxis | apps/web/src/utils/snap.ts:58 | a kind's name contains `x` exactly for the x kinds and `y` exactly for the others |
| Snapping.Neighbors | apps/web/src/utils/snap.ts:25 | the candidates kept by `filter`; `Snapping.NeighborsMembers` states which |
| Snapping.NeighborsMembers | apps/web/src/utils/snap.ts:25 | the neighbours are exactly the candidates whose id is not excluded |
| Snapping.Alignments | apps/web/src/utils/snap.ts:30-40 | six alignments per neighbour |
| Snapping.AllAlignments | apps/web/src/utils/snap.ts:29-40 | six alignments per neighbour, for every neighbour |
| Snapping.Choose | apps/web/src/utils/snap.ts:42-47 | the choice is one of the alignments |
| Snapping.Chosen | apps/web/src/utils/snap.ts:42-47 | the alignment the scan keeps, if any; `Snapping.ChooseFirstNearest` states it is the first nearest within the threshold |
| Snapping.ResultOf | apps/web/src/utils/snap.ts:24-51 | what `snap` returns for the alignment kept; `Snapping.SnapFacts` states its properties |
| Snapping.ChooseFirstNearest | apps/web/src/utils/snap.ts:42-47 | nothing is chosen exactly when no alignment is within the threshold, a distance equal to it included; otherwise the choice is within it, no alignment within it is nearer, and every earlier one within it is strictly farther |
| Snapping.AlignmentOwner | apps/web/src/utils/snap.ts:29-40 | the alignment at each scan position belongs to the neighbour that position falls in |
| Snapping.AlignmentsMeet | apps/web/src/utils/snap.ts:30-43 | after the shift the near edges, far edges or centres coincide; x kinds have no dy and y kinds no dx; the distance is abs(dx) + abs(dy) |
| Snapping.FarEdgeGuideAtNearEdge | apps/web/src/utils/snap.ts:33-38 | a far-edge alignment makes the far edges meet, while the shifted near edge, where the guide is drawn, lies one width (height) short of that line, meeting it exactly when the width (height) is 0 |
| Snapping.SnapFacts | apps/web/src/utils/snap.ts:24-51 | no snap gives {0, 0, null, 0} exactly when nothing is within the threshold; a snap is within it, moves along one axis, has distance abs(dx) + abs(dy), and comes from a candidate that is not excluded |
| Snapping.SnapSystem.constructor | apps/web/src/utils/snap.ts:11-13 | no candidates, threshold 6, zoom 1 |
| Snapping.SnapSystem.SetZoom | apps/web/src/utils/snap.ts:15-18 | the zoom is stored and the threshold becomes 6 / zoom; the candidates are kept |
| Snapping.SnapSystem.SetCandidates | apps/web/src/utils/snap.ts:20-22 | the candidates are replaced and the threshold and zoom are kept |
| Snapping.SnapSystem.Snap | apps/web/src/utils/snap.ts:24-51 | `snap` returns the result for the first nearest alignment within the threshold among the non-excluded neighbours |
| Snapping.SnapSystem.GetSnapGuides | apps/web/src/utils/snap.ts:53-83 | no kind gives no guide; otherwise one guide, vertical for an x kind and horizontal for a y kind, drawn at the box's near edge (or its centre, for a centre kind) after the shift, and 20 beyond the box, labelled "Center" for centre kinds and "Edge" otherwise |
| Transform.Corners | apps/web/src/hooks/useTransformController.ts:183-188 | the four corners of the box |
| Transform.Image | apps/web/src/hooks/useTransformController.ts:190 | each corner transformed by the matrix |
| Transform.MoveOutcome | apps/web/src/hooks/useTransformController.ts:88-106 | the move branch: the translation by the offset plus the snap, and the start box shifted by it; `Transform.MoveCarriesBox` and `Transform.MoveAligns` state what it does |
| Transform.MoveCarriesBox | apps/web/src/hooks/useTransformController.ts:98-106 | a move keeps the width and height, and its matrix carries each corner of the start box onto the same corner of the new box |
| Transform.MoveAligns | apps/web/src/hooks/useTransformController.ts:88-106 | a move that takes a snap lands the snapped edge or centre on the neighbour's |
| Transform.HandleLetters | apps/web/src/hooks/useTransformController.ts:113-159 | the dragged handle's opposite point is fixed: `w` scales against the right edge and `e` against the left; `n` against the bottom and `s` against the top; a handle without a letter for an axis keeps that axis at the centre |
| Transform.ResizeOutcome | apps/web/src/hooks/useTransformController.ts:110-193 | the resize branch; `Transform.NoHandleKeepsBox`, `Transform.HandleLetters`, `Transform.ScaledBox` and `Transform.ResizeStep` state what it does |
| Transform.NoHandleKeepsBox | apps/web/src/hooks/useTransformController.ts:111 | a resize without a handle gives the identity and the start bounds |
| Transform.EdgeHandleOneAxis | apps/web/src/hooks/useTransformController.ts:143-158 | an edge handle leaves the other axis at scale 1 |
| Transform.OtherHandle | apps/web/src/hooks/useTransformController.ts:113-118 | any other handle name scales by 1 about the centre |
| Transform.FlooredFacts | apps/web/src/hooks/useTransformController.ts:169-170 | a zero scale stays 0; any other scale keeps its sign and ends with magnitude at least 0.1; magnitudes of 0.1 or more are kept and smaller ones become 0.1 |
| Transform.AveragedFacts | apps/web/src/hooks/useTransformController.ts:162-166 | the aspect constraint sets both magnitudes to the mean of the two and keeps each sign |
| Transform.ResizeMatrixForm | apps/web/src/hooks/useTransformController.ts:173-180 | `translate(o)·scale·translate(-o)` is the scale with the offset that keeps the origin in place |
| Transform.ResizeMaps | apps/web/src/hooks/useTransformController.ts:173-180 | the resize matrix scales every point's offset from the origin, and fixes the origin |
| Transform.CornerImages | apps/web/src/hooks/useTransformController.ts:183-190 | the transformed corners of the box under the resize matrix |
| Transform.ScaledBox | apps/web/src/hooks/useTransformController.ts:183-191 | with positive scales the new bounds are the start box scaled about the origin |
| Transform.AspectExample | apps/web/src/hooks/useTransformController.ts:131-136 | `se` on a 100×100 box dragged by (50, 20) asks for 1.5 and 1.2; the aspect constraint makes both 1.35, which the floor keeps |
| Transform.OutcomeOf | apps/web/src/hooks/useTransformController.ts:78-110 | the `switch (mode)` of `updateTransform`; `Transform.OutcomeByMode` states its cases |
| Transform.OutcomeByMode | apps/web/src/hooks/useTransformController.ts:78-110 | the outcome is the identity and the start bounds in mode `none`, the move outcome in move mode and the resize outcome in resize mode, both from the offset since the start of the drag |
| Transform.TransformController.constructor | apps/web/src/hooks/useTransformController.ts:37-40 | no session and no snap |
| Transform.TransformController.Start | apps/web/src/hooks/useTransformController.ts:42-60 | a new session at the start point, with the given flags |
| Transform.TransformController.Update | apps/web/src/hooks/useTransformController.ts:62-233 | no session gives no result and changes nothing; otherwise the session moves to the new point with sticky constrain flags, the snap is stored in move mode, and the result is the outcome at the new point |
| Transform.TransformController.End | apps/web/src/hooks/useTransformController.ts:235-245 | no session does nothing; otherwise the final outcome is computed at the last point (for a move, the translation by the offset plus the snap found there; for a resize, the resize outcome; in mode `none`, the identity and the start bounds), the session is cleared and the snap reset |
| Transform.TransformController.Cancel | apps/web/src/hooks/useTransformController.ts:247-250 | the session is cleared and the snap reset |
| Transform.ResizeStep | apps/web/src/hooks/useTransformController.ts:110-193 | the resize branch computes the resize outcome |
| Transform.HandleScales | apps/web/src/hooks/useTransformController.ts:113-159 | the handle switch gives the handle's scales and origin, finite exactly when the dragged extents are non-zero |
| Transform.ScaleAbout | apps/web/src/hooks/useTransformController.ts:173-191 | the matrix scaling about the origin, and the bounds of the transformed corners |

## Left out

- Parsing and serialising markup is not modelled: `DOMParser`, `XMLSerializer`, `innerHTML`, `outerHTML` and `parse.ts`. Each operation takes the parser's result (a parse error or a node list) as an argument. `Sanitize.SanitizedSvg` returns the sanitized tree and not its serialised text. The differ takes serialising and re-parsing of child markup as a parameter (`Diff.Markup`).
- The allow-list `Allowed` lives in `./schema`, which is not part of this model. It is a parameter of the sanitizer and of the diagnostics.
- JavaScript numbers are exact reals and integers in the model: there is no binary floating point, no rounding of products, no `-0`, `NaN` or infinities.
  - `Number(s)` is modelled for decimal literals with an optional sign, point and exponent. Hexadecimal, binary and octal literals and `Infinity` are treated as not numbers, although JavaScript reads some of them.
  - `toString` is modelled only for whole numbers of thousandths, which is what `toFixed(3)` and `parseFloat` produce, and always as plain digits; the exponent form JavaScript uses from a magnitude of 1e21 on is not modelled.
- Geometry.MatrixToString: modelled only for matrices whose entries are whole numbers of thousandths, printed as plain digits. Printing other reals, and any entry of magnitude 1e21 or more, needs JavaScript's exponent form (`1e+21`), which is not modelled.
- Numbers.FormatMilli: prints plain digits for every whole number of thousandths. For a magnitude of 1e21 or more JavaScript's `toString` gives the exponent form (`1e+21`), which is not modelled.
- Numbers.FormatRoundedMilli: states the printed thousandths for every value, which matches JavaScript only below a magnitude of 1e21; beyond it `toString` uses exponent form.
- Numbers.FormatMilliIsPlainDecimal: holds of the model for every value. In JavaScript a rounded value of magnitude 1e21 or more prints in exponent form and does not match `/^-?\d+(?:\.\d+)?$/`, so the plain-decimal branch of `normaliseAttributeValue` does not apply to it.
- Diagnostics.PositionFromIndex: indices and columns count characters (Unicode scalar values), while JavaScript's `slice`, `.length` and `match.index` count UTF-16 code units. A character outside the Basic Multilingual Plane counts once here and twice in the program, so columns after it differ.
- Diagnostics.PositionCounts: counts characters (Unicode scalar values), not UTF-16 code units, for the same reason.
- Diagnostics.MatchAt: match offsets and lengths are counted in characters (Unicode scalar values), not in the UTF-16 code units of `match.index` and `full.length`.
- Sanitize.NormaliseNumber: stated over the decimal-literal model of `Number`. A value written as hexadecimal or `Infinity` is rejected here, although JavaScript reads some of them. The numeric diagnostics (`Diagnostics.ComplaintCases`) share this reading.
- `localeCompare` is modelled as plain lexicographic order on character codes.
- A non-`SanitizeError` exception cannot arise in the model, since the sanitizer model reports every failure as a value. The diagnostic for that path is modelled (`Diagnostics.VerdictDiagnostics`, the `Crashed` verdict), but the sanitizer never produces it.
- `Diff.NodeMarkup` gives the text of a text node and nothing for other non-element nodes such as comments, whose `textContent` would be their comment text.
- The differ works on the element children of the live group only; text nodes directly inside the live group are not modelled.
- In `existingMap`, a later live element with a repeated key overwrites an earlier one. The earlier one is then neither reused nor removed; `Diff.OverwrittenSurvives` states this as the code behaves.
- The two `appendChild` branches of the reordering loop are identical and are modelled as one call.
- The order in which `existingMap.forEach` visits the remaining keys is first-insertion order (`Diff.Unclaimed` keeps the order of `Diff.Dedup`).
- Rotation is not modelled (the mode `rotate` is not among `Transform.Mode`): `rotateMatrix`, `degreesToRadians`, `radiansToDegrees`, `constrainAngle`, and the rotate branch of `updateTransform` with `Math.atan2`. They are transcendental floating-point functions. The `constrainAngle` flag is kept in the session but has no effect in the model.
- `Transform.NonFinite` stands for the matrix with infinite or NaN entries that a resize of a zero-width or zero-height box along the dragged axis gives. Its entries are not modelled.
- A zoom of 0 makes the snap threshold infinite (`Snapping.Unlimited`). The JavaScript special values that a zoom of `-0`, `NaN` or `Infinity` would give are not modelled.
- The callbacks `onTransformStart`, `onTransformEnd` and `onSnapUpdate`, React's `useState` and `useCallback`, and the stale-closure behaviour of React hooks are left out. The controller is a class whose fields are the two pieces of state.
- `Snapping.SnapSystem.Snap` works on the candidate list. The module-level shared instance `snapSystem` is a parameter (`snapper`) of the controller.
