# Nearest-palette colour conversion, in Dafny

This project models `convert.py` of the ThoughtWorks theme converter. The
converter rewrites every `#rrggbb` colour literal of a text (a theme) into the
nearest colour of a palette. Four functions do the work:

- `evaluate` reads the three hex pairs of a literal.
- `get_euclidean_distance` measures two literals apart.
- `find_nearest_colour` takes the palette entry with the least distance (Python's `min`).
- `convert` collects the distinct literals of the content, builds a table from
  each one to its nearest palette entry, and substitutes in one left-to-right pass.

The model is pure, as the source is: datatypes, functions and lemmas.

| file | module | models |
|---|---|---|
| `common.dfy` | `Common` | `Option`, `Result`, and the exceptions the source can raise |
| `hex_colour.dfy` | `HexColour` | `evaluate`, the hex-digit and literal rules |
| `distance.dfy` | `Distance` | `get_euclidean_distance`, as an integer squared distance |
| `nearest.dfy` | `Nearest` | `find_nearest_colour` and Python's first-minimum rule |
| `convert.dfy` | `Convert` | `findall`, the dictionary, the alternation `sub`, `convert` |
| `convert_properties.dfy` | `ConvertProperties` | what the rewrite promises |
| `scenarios.dfy` | `Scenarios` | the unit tests' worked examples |

Modelling decisions:

- The palette is a sequence of lines, as the command-line driver passes it
  (`palette_file.read().splitlines()`). `None` and `[]` are both falsy, so both are the empty sequence.
- The distance is the integer sum of squared channel differences.
  `Nearest.SqrtArgMinAgrees` proves that keying `min` by the square roots selects the same entry.
- `re.findall` is modelled directly as a scan (`Convert.FindAll`). It tries a match at
  each position and resumes after a match.
- `pattern.sub` with the alternation of the table's keys is modelled as `Convert.Rewrite`.
  The keys are exact, case-sensitive literals. A key matches at a position only if it equals the next seven characters.
  Because `#` is not a hex digit, literals never overlap (`Convert.NoOverlap`).
  So the rewrite replaces exactly the windows that `findall` found (`ConvertProperties.RewritePositional`).
- Errors are values: `EmptyPalette` (the `min` of nothing), `InvalidLiteral` (`int(..., 16)`
  on a non-hex palette line) and `KeyError` (the empty pattern).
- Where the later design and the code disagree, the model follows the code. A replacement is the
  verbatim palette line, not an upper-case rendering. A content without literals
  raises `KeyError` when the palette is non-empty; see Findings.

## Model

| member | source | states |
|---|---|---|
| `HexColour.Evaluate` | convert.py:7-8 | defined exactly when characters 1 to 6 are hex digits; each of the three values is in [0, 255] |
| `HexColour.EvaluateRender` | convert.py:7-8 | every in-range triple is read back unchanged from its `#rrggbb` rendering |
| `HexColour.RenderEvaluate` | convert.py:7-8 | rendering the triple read from a literal gives the literal back, lower-cased |
| `HexColour.EvaluateCaseInsensitive` | convert.py:8 | upper- and lower-case digits give the same triple |
| `HexColour.SameColourIffSameIgnoringCase` | convert.py:7-8 | two literals give the same triple if and only if they are equal up to case |
| `Distance.SquaredDistance` | convert.py:11-14 | non-negative, and zero exactly when the two triples are equal |
| `Distance.SquaredDistanceSymmetric` | convert.py:11-14 | swapping the two colours does not change the distance |
| `Distance.SquaredDistanceBound` | convert.py:11-14 | for in-range triples the squared distance is at most 3·255² |
| `Distance.EuclideanDistance` | convert.py:11-14 | defined exactly when both literals evaluate; zero exactly when they evaluate to the same triple; bounded by 3·255² |
| `Distance.SqrtOrderAgrees` | convert.py:12 | non-negative square roots compare (`<` and `==`) as their squares do |
| `Nearest.ArgMin` | convert.py:18 | the left-to-right `min` scan returns the first position of the least key |
| `Nearest.FirstMinimumUnique` | convert.py:18 | the first-minimum position is unique, so the tie rule fixes the result |
| `Nearest.SqrtArgMinAgrees` | convert.py:12-18 | a position is the first minimum of the squared distances iff it is the first minimum of their square roots |
| `Nearest.FindNearestColour` | convert.py:17-18 | empty palette: EmptyPalette; otherwise a result iff the target and every palette line evaluate; the result is the palette entry at the first minimum of the distances |
| `Nearest.NearestAtFirstMinimum` | convert.py:17-18 | conversely, the entry at the first minimum of the distances is the result |
| `Nearest.NearestIsClosest` | convert.py:17-18 | the result is in the palette and no palette entry is strictly closer |
| `Nearest.NearestCaseInsensitive` | convert.py:17-18 | a literal and its lower-case spelling have the same nearest entry |
| `Nearest.NearestSameIgnoringCase` | convert.py:17-18 | literals equal up to case have the same nearest entry |
| `Nearest.NearestIsFixedPoint` | convert.py:17-18 | looking up an entry that a lookup returned gives that same entry |
| `Convert.NoOverlap` | convert.py:23 | two `#`+6-hex-digit windows never overlap |
| `Convert.FindAll` | convert.py:23 | every match is a `#`+6-hex-digit literal |
| `Convert.FindAllIsEveryWindow` | convert.py:23 | a string is among the matches iff it is the text of some window of the content |
| `Convert.Literals` | convert.py:23 | the set of distinct matches holds only literals |
| `Convert.LiteralsAreWindows` | convert.py:23 | the set holds exactly the window texts; it is empty iff the content has no literal |
| `Convert.BuildTable` | convert.py:24-27 | fails with InvalidLiteral iff there is a literal and some palette line does not evaluate; keys are the distinct literals; each value is that literal's nearest entry, a palette line |
| `Convert.Substitute` | convert.py:28-29 | the empty table (pattern `''`) raises KeyError; any other table substitutes |
| `Convert.ConvertText` | convert.py:21-30 | empty palette: content unchanged; otherwise fails iff the content has no literal (KeyError) or a palette line does not evaluate (InvalidLiteral) |
| `Convert.ConvertTextCorrected` | convert.py:21-30 | content without a literal is returned unchanged; otherwise as ConvertText; fails only on a palette line that does not evaluate |
| `ConvertProperties.RewritePositional` | convert.py:28-29 | the output has the input's length; inside a window it holds the window's replacement; every other position keeps its character |
| `ConvertProperties.PositionalAfterLiteral` | convert.py:28-29 | when the text starts with a literal of the table, the replacement's characters occupy its seven positions and the rest of the output lines up with the rest of the text |
| `ConvertProperties.PositionalAfterCopy` | convert.py:28-29 | when the text does not start with a literal of the table, its first character is copied and the rest of the output lines up with the rest of the text |
| `ConvertProperties.WindowReplaced` | convert.py:28-29 | each window's seven characters become exactly its replacement |
| `ConvertProperties.NonDigitAfterHash` | convert.py:23 | a `#` that starts no window has a non-hex-digit within the next six characters |
| `ConvertProperties.NonDigitSurvives` | convert.py:28-29 | that non-digit, or a replacement's `#` before it, is still a non-digit in the output |
| `ConvertProperties.UncoveredStartsNoWindow` | convert.py:28-29 | a `#` copied from outside every window never starts a literal of the output |
| `ConvertProperties.RewriteWindowsAreValues` | convert.py:28-29 | every literal of the rewritten text is one of the table's replacements |
| `ConvertProperties.RewriteIdentity` | convert.py:28-29 | a table mapping each key to itself leaves the text unchanged |
| `ConvertProperties.FindAllSkipsPlain` | convert.py:23 | text without `#` contributes no match |
| `ConvertProperties.FindAllTakesLiteral` | convert.py:23 | a leading literal is the first match |
| `ConvertProperties.RewriteCopiesPlain` | convert.py:28-29 | text without `#` is copied through unchanged |
| `ConvertProperties.RewriteReplacesLiteral` | convert.py:28-29 | a leading literal that is a key is replaced by its value |
| `ConvertProperties.ConvertTable` | convert.py:23-29 | a successful `convert` is the rewrite by a non-empty table keyed by the content's literals, mapping each to its nearest palette line |
| `ConvertProperties.ConvertChangesOnlyWindows` | convert.py:21-30 | same length; every character outside the literals unchanged; each literal replaced by the verbatim text of its nearest palette line |
| `ConvertProperties.ConvertIgnoresCase` | convert.py:23-29 | literals equal up to case receive the same replacement |
| `ConvertProperties.ConvertOutputUsesPalette` | convert.py:21-30 | every literal of the output is a palette line |
| `ConvertProperties.ConvertIdempotent` | convert.py:21-30 | converting the output again with the same palette returns it unchanged |
| `ConvertProperties.ConvertCorrectedIdempotent` | convert.py:21-30 | the corrected conversion is idempotent as well |
| `Scenarios.EvaluateBlack` | test_convert.py:96-97 | `#000000` evaluates to (0, 0, 0) |
| `Scenarios.EvaluateExample` | convert.py:7-8 | `#ABCDEF` and `#abcdef` both evaluate to (171, 205, 239) |
| `Scenarios.DistancesFromBlack` | test_convert.py:18-29 | the squared distances from black are 49, 57 and 51 |
| `Scenarios.NearestOfThree` | convert.py:17-18 | a three-line palette with known distances yields the entry at their first minimum |
| `Scenarios.NearestOfTwo` | convert.py:17-18 | a two-line palette with known distances yields the entry at their first minimum |
| `Scenarios.NearestToBlack` | test_convert.py:18-29 | `#020306` is chosen from the three candidates |
| `Scenarios.DistancesFromNavy` | test_convert.py:89-92 | the squared distances from `#123456` to the three primaries are 66269, 48929 and 31589 |
| `Scenarios.NearestPrimary` | test_convert.py:89-92 | `#123456` is nearest to `#0000ff` |
| `Scenarios.DistancesToGrey` | test_convert.py:84-87 | the squared distances from `#010101` to `#000000` and to itself are 3 and 0 |
| `Scenarios.NearestExactMatch` | test_convert.py:84-87 | an exact palette match is chosen |
| `Scenarios.DistancesAcrossGrey` | convert.py:18 | `#010101` and `#030303` are both at squared distance 3 from `#020202` |
| `Scenarios.NearestTieGoesToEarlier` | convert.py:18 | of two equidistant entries the earlier one wins |
| `Scenarios.NearestOfNothing` | convert.py:17-18 | an empty palette raises |
| `Scenarios.ConvertWithoutPalette` | test_convert.py:9-13 | no palette: the content, even `""`, is returned unchanged |
| `Scenarios.ConvertWithoutLiteral` | convert.py:28-29 | a palette but no literal raises KeyError; the corrected conversion returns the content |
| `Scenarios.ConvertBlankPaletteLine` | convert.py:8 | a blank palette line makes the lookup raise |
| `Scenarios.ConvertLoneLiteral` | convert.py:21-30 | a content that is one literal, against a one-line palette, becomes that line |
| `Scenarios.ConvertSingle` | test_convert.py:15-16 | `#f0f0f0` becomes `#ffffff`; `#ABCDEF` becomes `#000000` |
| `Scenarios.PlainPieces` | test_convert.py:57-77 | the markup around the two literals holds no `#` |
| `Scenarios.DocumentLiterals` | test_convert.py:57-77 | the two-line document has exactly the literals `#123456` and `#654321` |
| `Scenarios.DistancesFromBrown` | test_convert.py:57-77 | the squared distances from `#654321` to the three primaries are 29294, 46634 and 63974 |
| `Scenarios.NearestBrown` | test_convert.py:57-77 | `#654321` is nearest to `#ff0000` |
| `Scenarios.DocumentRewrite` | test_convert.py:57-77 | the rewrite keeps the markup and replaces the two literals |
| `Scenarios.ConvertDocument` | test_convert.py:57-77 | the document converts to `#0000ff` and `#ff0000` in the palette's own spelling |

`Convert.Rewrite` (the `sub` pass itself) carries no contract of its own.
`RewritePositional` and the lemmas after it specify it.

## Left out

- The command-line block (convert.py:33-42): argument handling, file reading and writing, and the `ThoughtWorks` output name. It is I/O and driver code.
- Floating point: `math.pow` and `math.sqrt` become exact integers. The argument needs correctly rounded `sqrt` to keep distinct squares up to 195075 distinct, which doubles do. The model does not restate that.
- Python's `re` engine: the scan and the substitution are modelled as position-by-position recognition, not as regular-expression semantics.
- Evaluate: stricter than `int(pair, 16)`. Python also accepts a pair with surrounding whitespace or a leading sign, and a single digit as the last pair of a six-character string. On such palette lines the model reports InvalidLiteral where Python computes a value.
- FindNearestColour: reports a single InvalidLiteral. It does not say which string Python's lazily interleaved `int` calls reject first.
- ConvertChangesOnlyWindows: requires every palette line to be exactly a seven-character literal. `evaluate` also accepts lines with trailing text, which are pasted verbatim and can change the length. For those only `Convert.Rewrite`'s definition describes the output.
- ConvertOutputUsesPalette: requires literal palette lines, for the same reason.
- ConvertIdempotent: requires literal palette lines, for the same reason.
- ConvertIgnoresCase: requires literal palette lines, for the same reason.
- The `Colour` and `ColourDistance` classes, the `manhattan` and `uniform` metrics, the rgba format and the upper-case hex rendering. Only test_convert.py and a later revision use them; the modelled convert.py has none of them.
- Palettes given as one newline-joined string, as the unit tests pass them. Iterating such a string in the modelled code yields single characters. The model takes the list of lines the driver produces.

## Findings

| source | as written | input that shows it | evidently intended | confidence | as-written member | corrected member |
|---|---|---|---|---|---|---|
| convert.py:28-29 | with a non-empty palette and no literal in the content, the table is empty, the joined pattern is `''`, its empty match is looked up, and `dictionary['']` raises KeyError | `convert("anything", ["#ffffff"])` | return the content unchanged, as it does without a palette | high; not executed | `Scenarios.ConvertWithoutLiteral` | `Convert.ConvertTextCorrected` |
