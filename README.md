# Crochet blanket estimates, modelled in Dafny

This project models the measurement and estimation core of the
CraftLogic crochet helper, `CraftLogicCrochet_v0_1.py`. The core covers:

- unit conversion to inches (`to_inches`);
- the size presets and the free-form dimension parser (`parse_dimensions`),
  which accepts `52x68`, `52 by 68` and `52,68`;
- how one answer to the size question becomes a preset or a custom size
  (`ask_size_or_custom`);
- the border menu, the border record and its normalisation
  (`ask_border`), and the body left inside a border (`compute_body_size`);
- the yardage range (`estimate_yardage_range`);
- the granny-square round count and square grid (`estimate_granny_rounds`,
  `estimate_square_layout`, and the layout part of
  `print_granny_blanket_plan`);
- how a typed answer is read as back, quit or a value (`prompt` and the
  sentinel test its callers apply).

Modules:

- `Wrappers`: `Option` and `Result`.
- `PyText`: the Python string builtins the core relies on. These are
  `lower` (ASCII letters), `strip` (Python's whitespace set, by code point),
  `replace` (left to right, non-overlapping) and `split` with no argument.
- `PyNumbers`: `math.ceil`, Python 3 `round` (ties to even) and the decimal
  numerals `float()` accepts here: an optional sign, digits, and an
  optional fraction.
- `Units`: `to_inches`, `SIZE_PRESETS` and `parse_dimensions`. The parser is
  a method whose loop replaces each separator in order. It is proved equal
  to the specification function `DimensionsOf`. Round-trip lemmas show that
  two plain numerals joined by any separator form parse back to their
  values.
- `Border`: the style table, `WidthAnswer` (one width answer), `MakeBorder`
  (the record `ask_border` returns), `BodySize` and `AddBorder`.
- `Yardage`: the effective area and the low and high figures, rounded to
  the nearest 50 yards and raised to 200 and 300.
- `Granny`: the round count, the grid layout and the blanket plan.
- `Navigation`: prompt answers.

Floats are modelled as exact `real` numbers. An error Python raises is a
`Result` error, and a `None` return is an `Option`. The interactive loops
that ask again after a bad answer are modelled answer by answer: one
function per answer, returning `None` or `Unrecognized` where the program
asks again.

## Model

| member | source | states |
|---|---|---|
| Units.ToInches | CraftLogicCrochet_v0_1.py:69-78 | succeeds exactly for `in`, `ft`, `cm` and `m`, and fails with the unit error otherwise; keeps the sign; converting back with the fixed ratios gives the value |
| Units.ToInchesRoundTrip | CraftLogicCrochet_v0_1.py:69-78 | converting an inch length into a supported unit and back to inches gives the length |
| Units.UnitsAgree | CraftLogicCrochet_v0_1.py:71-77 | a value in metres converts like a hundred times it in centimetres, and feet like twelve times as many inches |
| Units.PairOf | CraftLogicCrochet_v0_1.py:125-134 | a pair exists exactly when both numbers parsed and both are positive, and it is those two numbers |
| Units.DimensionsOf | CraftLogicCrochet_v0_1.py:116-134 | a result has two positive dimensions, and they are the values of exactly two words of the normalised text |
| Units.ParseDimensions | CraftLogicCrochet_v0_1.py:116-134 | the loop over the separators `by`, `x`, `,` computes exactly `DimensionsOf`, and every result is positive |
| Units.DimensionsOfPair | CraftLogicCrochet_v0_1.py:116-134 | two plain numerals joined by `x`, ` x `, `,` or ` by ` parse back to the pair of their values, positive ones accepted and others refused |
| Units.DimensionsOfOne | CraftLogicCrochet_v0_1.py:117-123 | a single word is one token, so it is not a dimension pair |
| Units.DimensionsOfNormalises | CraftLogicCrochet_v0_1.py:117 | letter case and surrounding whitespace do not change the result |
| Units.ParseDimensionsAccepts | CraftLogicCrochet_v0_1.py:116-134 | `52x68`, `52 by 68` and `52,68` all give 52 by 68 |
| Units.ParseDimensionsRefuses | CraftLogicCrochet_v0_1.py:116-134 | one number, a word, a negative and a zero dimension are all refused |
| Units.SizeForEntry | CraftLogicCrochet_v0_1.py:151-164 | a preset name wins and gives exactly the preset's size with a preset source; every chosen size is positive |
| Units.SizeForEntryCustom | CraftLogicCrochet_v0_1.py:158-166 | for a non-preset answer: asked again exactly when the text is no dimension pair; the unit error exactly when it is one but the unit is unknown; otherwise a custom size that converts back to the typed pair |
| Units.SelectSize | CraftLogicCrochet_v0_1.py:151-166 | the answer is stripped and lower-cased first; a preset name in any case and padding gives the preset's size; any other answer is asked again exactly when the typed text is no dimension pair, is the unit error exactly when it is one but the unit is unknown, and otherwise is a custom size that converts back to the typed pair |
| Units.Label | CraftLogicCrochet_v0_1.py:156-164 | a label starts with `preset (` or `custom (` and ends with `)` |
| Units.LabelIdentifiesSource | CraftLogicCrochet_v0_1.py:156-164 | different sources (a preset name, or custom with a unit) never share a label |
| Units.SelectSizeNormalises | CraftLogicCrochet_v0_1.py:151 | an answer is read the same way whatever its case and surrounding whitespace |
| Units.SelectSizeExamples | CraftLogicCrochet_v0_1.py:151-166 | `throw` is 50 by 60; `4x5` in feet is 48 by 60 inches; an unknown unit is the unit error; a word is asked again; ` Throw ` is cleaned up to the throw preset |
| PyNumbers.Ceil | CraftLogicCrochet_v0_1.py:469-470 | the least integer not below the value |
| PyNumbers.RoundHalfEven | CraftLogicCrochet_v0_1.py:330-331 | the nearest integer, within one half, and the even one on a tie |
| PyNumbers.RoundHalfEvenOfInt | CraftLogicCrochet_v0_1.py:451 | an integer rounds to itself |
| PyNumbers.ParseReal | CraftLogicCrochet_v0_1.py:126-127 | `float` succeeds only on sign, digit and point characters; the value is never negative without a leading minus and never positive with one |
| PyNumbers.ParseDigits | CraftLogicCrochet_v0_1.py:126-127 | `float` of a digit string is its decimal value |
| PyNumbers.ParseFraction | CraftLogicCrochet_v0_1.py:237-242 | `float` of `3.5`, the example width, is 3.5 |
| PyNumbers.ParseNegative | CraftLogicCrochet_v0_1.py:126-127 | `float` of a minus sign and digits is the negated value |
| PyText.StripSpec | CraftLogicCrochet_v0_1.py:117 | the result is a slice of the input starting after its leading whitespace; everything cut off after it is whitespace; it neither starts nor ends with whitespace |
| PyText.StripLower | CraftLogicCrochet_v0_1.py:117 | `strip` and `lower` commute, and `strip` is idempotent |
| PyText.ReplaceAllFirst | CraftLogicCrochet_v0_1.py:118-119 | `replace` works left to right: the text before the first occurrence is copied, that occurrence is replaced, and replacing goes on after it |
| PyText.ReplaceAllAbsent | CraftLogicCrochet_v0_1.py:118-119 | text in which the separator does not occur is left as it is |
| PyText.Split | CraftLogicCrochet_v0_1.py:120 | empty text has no words; every word is non-empty and holds no whitespace |
| PyText.SplitSpaces | CraftLogicCrochet_v0_1.py:120 | leading whitespace yields no word |
| PyText.SplitWord | CraftLogicCrochet_v0_1.py:120 | a word followed by whitespace is the first word, and the rest is split on its own; with `Split`'s contract for empty text, `SplitSpaces` and `SplitOne` this determines `split()` on every input |
| PyText.SplitOne | CraftLogicCrochet_v0_1.py:120 | a word on its own splits into just itself |
| PyText.SplitTwo | CraftLogicCrochet_v0_1.py:120-122 | two words with whitespace between them split into exactly those two words |
| PyText.DropEmptyKeepsWords | CraftLogicCrochet_v0_1.py:120 | filtering out empty strings keeps a list of non-empty words unchanged |
| Border.StyleFor | CraftLogicCrochet_v0_1.py:185-205 | an answer is accepted exactly when, stripped and lower-cased, it is one of the digits 0 to 5; every menu style has a factor of at least 1.0 and a non-negative default width, and only "none" has default width 0 |
| Border.StyleForExamples | CraftLogicCrochet_v0_1.py:185-205 | ` 1 ` picks the simple border (2 in, factor 1.00), `5` the custom one (2 in, factor 1.10), and `6` is refused |
| Border.WidthAnswer | CraftLogicCrochet_v0_1.py:232-243 | an empty answer takes the default; any other accepted answer is a positive number that the text parses to; a refused answer does not parse to a positive number |
| Border.MakeBorder | CraftLogicCrochet_v0_1.py:208-250 | "none" is always width 0, factor 1.0 and no description; other kinds keep the width and the style's factor; only a custom border keeps the stripped description; the record is valid |
| Border.BorderFromAnswersValid | CraftLogicCrochet_v0_1.py:194-250 | a menu choice and an accepted width always give a valid border |
| Border.BodySize | CraftLogicCrochet_v0_1.py:278-292 | the size is kept when the border is excluded or absent; otherwise there is no body exactly when a side is at most twice the border, and adding the border back to the body gives the finished size |
| Border.AddBorder | CraftLogicCrochet_v0_1.py:323-324 | both sides grow by the same amount, and a border of non-negative width never makes the blanket smaller |
| Border.BodySizeOfAddBorder | CraftLogicCrochet_v0_1.py:284-292 | taking the border off a body with the border added gives the body |
| Border.BodyWithinFinished | CraftLogicCrochet_v0_1.py:278-292 | the body is never larger than the finished size |
| Border.BodySizeExamples | CraftLogicCrochet_v0_1.py:278-292 | a 3 in border in 50 by 60 leaves 44 by 54; a 30 in border leaves nothing; no border keeps 50 by 60 either way |
| Yardage.EffectiveArea | CraftLogicCrochet_v0_1.py:304-328 | without a border (or a zero width) the area is width times height; there is no area exactly when an included border leaves no body |
| Yardage.BorderInsideArea | CraftLogicCrochet_v0_1.py:309-328 | with the border inside the finished size, the area is the body `(w-2b)(h-2b)` plus the ring `2b(w+h-2b)` times 0.7 times the factor |
| Yardage.BorderOutsideArea | CraftLogicCrochet_v0_1.py:319-328 | with the border added outside, the area is `w*h` plus the ring `2b(w+h+2b)` times 0.7 times the factor |
| Yardage.BorderOutsideSameCost | CraftLogicCrochet_v0_1.py:309-328 | a border added outside a body gives the same area as that border inside the finished size it makes |
| Yardage.RoundToFifty | CraftLogicCrochet_v0_1.py:330-331 | a multiple of 50 within 25 of the amount, the even multiple on a tie |
| Yardage.RoundToFiftyMonotonic | CraftLogicCrochet_v0_1.py:330-331 | a larger amount never rounds to a smaller multiple of 50 |
| Yardage.EstimateYardage | CraftLogicCrochet_v0_1.py:299-332 | "n/a" exactly when there is no effective area; otherwise both figures are multiples of 50, the low is at least 200 and the high at least 300; each is within 25 of 0.35 or 0.55 times the area unless raised to its floor, which happens only for small areas; at an exact half-way point it is the even number of fifties |
| Yardage.EffectiveAreaPositive | CraftLogicCrochet_v0_1.py:304-328 | for a positive size and a valid border the effective area is at least the body's own area and positive |
| Yardage.LowNotAboveHigh | CraftLogicCrochet_v0_1.py:330-332 | for any size and border, the low figure never exceeds the high one |
| Yardage.NotAvailableIffNoBody | CraftLogicCrochet_v0_1.py:309-313 | with a border, "n/a" is given exactly when the border leaves no body |
| Yardage.NoBorderIgnoresFlag | CraftLogicCrochet_v0_1.py:307-308 | with no border, whether the size includes a border makes no difference |
| Yardage.ThrowWithSimpleBorder | CraftLogicCrochet_v0_1.py:320-332 | the throw with a 2 in border added outside is 54 by 64 finished, with effective area 3319.2, giving 1150 to 1850 yards |
| Yardage.SmallPieceFloors | CraftLogicCrochet_v0_1.py:330-332 | a 10 by 10 piece is raised to 200 to 300 yards |
| Granny.Rounds | CraftLogicCrochet_v0_1.py:443-452 | at least two rounds; two up to 2 in; above that, the nearest integer to the size, even on a tie |
| Granny.RoundsAboveTwo | CraftLogicCrochet_v0_1.py:449-452 | above 2 in the lower clamp never applies |
| Granny.RoundsMonotonic | CraftLogicCrochet_v0_1.py:443-452 | a larger square never needs fewer rounds |
| Granny.RoundsExamples | CraftLogicCrochet_v0_1.py:443-452 | 1.5 and 2 give 2; 6 and 6.4 give 6; the ties 6.5 and 7.5 give 6 and 8 |
| Granny.SquareLayout | CraftLogicCrochet_v0_1.py:465-475 | at least one square each way; the count is across times down; the assembled size is the count times the square; each count is the ceiling of the side over the square when that exceeds one |
| Granny.LayoutCoversBody | CraftLogicCrochet_v0_1.py:465-475 | the assembled grid covers the body, and one fewer row or column would not |
| Granny.BlanketPlan | CraftLogicCrochet_v0_1.py:491-499 | no plan exactly when the border leaves no body; otherwise at least one square each way, the count is across times down, and the assembled size is the count times the square |
| Granny.PlanCoversBody | CraftLogicCrochet_v0_1.py:491-499 | for a positive size and square, the plan's grid covers the body left inside the border, and one fewer row or column would not |
| Granny.BlanketPlanExample | CraftLogicCrochet_v0_1.py:491-499 | 50 by 60 including a 3 in border, in 6 in squares: 8 across, 9 down, 72 squares, 48 by 54 |
| Navigation.PromptAsWritten | CraftLogicCrochet_v0_1.py:37-52 | "b" and "q" in any case and padding give the sentinels, anything else the stripped text |
| Navigation.ReadSentinel | CraftLogicCrochet_v0_1.py:146-149 | back exactly for `__BACK__`, quit exactly for `__QUIT__`, and otherwise the string itself as a value |
| Navigation.Classify | CraftLogicCrochet_v0_1.py:37-52 | back exactly when the stripped answer is "b" in either case, quit exactly when it is "q", and otherwise the stripped answer |
| Navigation.ClassifyNavigation | CraftLogicCrochet_v0_1.py:46-51 | case and surrounding whitespace do not change back or quit |
| Navigation.AsWrittenAgrees | CraftLogicCrochet_v0_1.py:37-52 | the program reads every answer as documented unless its stripped text is a sentinel string |
| Navigation.SentinelCollision | CraftLogicCrochet_v0_1.py:146-149 | typing `__BACK__` is read as back and `__QUIT__` as quit, though the documented reading is the text itself |

## Left out

- Console input and output, the menus and `main`: answers are parameters, and printed text is not modelled.
- The ask-again loops: each is modelled as a function for one answer, and a refused answer is `None` or `Unrecognized`.
- The string formatting of the yardage range at line 332: the model returns the two numbers.
- `word`, `pattern_style`, the pattern text and the photo demo: these are fixed text, with no computation.
- `choose_unit`, `ask_border_included`, `confirm_selection` and `ask_target_square_size_in`: menus whose answers are the parameters of the modelled functions.
- Floating point: numbers are exact reals, so IEEE rounding, `inf` and `nan` are not modelled.
- PyNumbers.ParseReal: covers only an optional sign, digits and an optional fraction (such as `5`, `-2.5`, `.5`, `3.`). Exponents, underscores, `inf`, `nan` and non-ASCII digits are not accepted.
- PyText.Lower: lower-cases ASCII letters only.
- Granny.SquareLayout: requires a non-zero square size, where the program would raise a division error. The only caller passes a positive size.

## Findings

| source | as written | input that shows it | evidently intended | confidence | as-written member | corrected member |
|---|---|---|---|---|---|---|
| CraftLogicCrochet_v0_1.py:37-52 | `prompt` reports back and quit as the in-band strings `__BACK__` and `__QUIT__`, and returns other answers as their stripped text, so callers cannot tell them apart | typing `__BACK__` at any prompt goes back (likewise `__QUIT__` quits) | back and quit only for "b" and "q" as documented, and any other answer returned as text | low; not executed | Navigation.SentinelCollision | Navigation.Classify |
