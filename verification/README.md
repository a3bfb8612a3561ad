# Blade balancer: pasted-text parser and resultant analysis

A model of the computational core of the B-Balance.tech dashboard (`app.py`).
The user pastes two columns copied from a spreadsheet, "magnitude phase", one
blade per line. The dashboard turns the text into blade records, counts them,
sums the blades' moments as phasors into one resultant (magnitude and angle),
and judges the resultant "critical" above 0.05 and "stable" otherwise.

Modules:

- `Wrappers` (`wrappers.dfy`): the `Option` type used for rejected input.
- `Text` (`text.dfy`): the Python string built-ins the parser uses:
  `strip()`, `split('\n')`, `replace('\t', ' ')` and the argument-less
  `split()`. Each is a function with a contract; the round trips between
  splitting and joining are proved, and lemmas pin the tokens of `split()`
  down to the maximal whitespace-free runs. Whitespace is Python's set for
  these methods: tab to carriage return, the four ASCII separators
  `\x1c`-`\x1f`, the space, and the Unicode spaces and line separators.
- `Numbers` (`numbers.dfy`): `float(token)` on decimal tokens: an optional
  sign, then digits with an optional point and fraction, read as an exact real.
- `BladeParser` (`parser.dfy`): the per-line rule `ParseLine`, the
  specification `Parse` of the whole text, and `ParseInput`, the parsing loop
  of `app.py` as a method with a loop over the lines that appends to the
  record list. Its postcondition ties the result to `Parse`. The lemmas
  cover blank input, short lines, ignored extra tokens, tabs and `'\r'`,
  skip-on-error, order, and the bound on the blade count.
- `Analysis` (`analysis.dfy`): `calculate_analysis` and the diagnosis
  threshold. The trigonometric functions are not modelled; they are passed
  in as a `Trig` value.
- `Dashboard` (`dashboard.dfy`): the flow from text to the result card.
- `Scenarios` (`scenarios.dfy`): worked pastes, among them every paste of
  the shape "10 0", "abc", "10 90": two lines of whole numbers around a
  one-word line, which detects two blades.

A row of three tokens, `serial magnitude phase`, is not read as a serial and
two numbers. `app.py` always uses the first two tokens. So the serial is read
as the magnitude and the magnitude as the phase. When the serial is not a
number, the row is skipped. The model follows the code.

## Model

| member | source | states |
|---|---|---|
| `Text.Strip` | app.py:81-82 | The stripped text is the slice of the input that has only whitespace around it and neither starts nor ends with whitespace. It is empty exactly when the input is all whitespace. |
| `Text.StripUnique` | app.py:81-82 | That description fixes the stripped text: any slice meeting it equals `Strip`. |
| `Text.StripUnchanged` | app.py:81-82 | A non-empty text that neither starts nor ends with whitespace is left as it is. |
| `Text.Split` | app.py:82 | Splitting at line feeds always gives at least one line, and no line holds a line feed. |
| `Text.SplitCount` | app.py:82 | There is one more line than there are line feeds. |
| `Text.JoinSplit` | app.py:82 | Joining the lines again with line feeds gives back the original text. |
| `Text.SplitJoin` | app.py:82 | Splitting a join of lines without line feeds gives back those lines. |
| `Text.SplitConcat` | app.py:82 | Splitting at one line feed gives the lines of the text before it, then the lines of the text after it. |
| `Text.ReplaceTabs` | app.py:83 | Same length, no tab left, every tab became a space, every other character is kept. |
| `Text.Words` | app.py:83 | Every token is non-empty and free of whitespace. There are no tokens exactly when the line is blank. A line that starts with a non-blank character has a first token starting with that character. |
| `Text.WordsSplitAtSpace` | app.py:83 | Any whitespace character cuts the tokens: the tokens of the text before it, then those of the text after it. Repeated, leading and trailing whitespace therefore add no empty token, and `"10  0"` gives two tokens. |
| `Text.WordsOfWord` | app.py:83 | A whitespace-free non-empty string is its own single token. With `WordsSplitAtSpace`, this fixes the tokens of every line as its maximal whitespace-free runs. |
| `Text.WordsSameLayout` | app.py:83 | Two lines with whitespace at the same places and the same other characters give the same tokens. |
| `Text.WordsIgnoreTabs` | app.py:83 | Replacing tabs by spaces before tokenising does not change the tokens. |
| `Text.WordsTrailingSpace` | app.py:83 | A trailing whitespace character, such as the `'\r'` of a CRLF line, adds no token. |
| `Text.WordsUnwords` | app.py:83 | Joining tokens with single spaces and tokenising again gives the same tokens. |
| `Numbers.ParseNum` | app.py:85 | An accepted token is non-empty, holds a digit and has only digits, signs and points. A token with any other character is rejected. |
| `Numbers.ParseNumShape` | app.py:85 | In an accepted token a sign can stand only first, and there is at most one point, so `"1-2"`, `"5+"` and `"1.2.3"` are rejected. |
| `Numbers.ParseNumInt` | app.py:85 | The decimal rendering of a whole number, bare or with a `-` or `+` sign, reads back as that number. |
| `Numbers.ParseNumFixed` | app.py:85 | A fixed-point rendering `w.f` reads back as `w` plus the digits `f` in units of 10^-\|f\|. |
| `Numbers.ParseNumSignedFixed` | app.py:85 | A signed fixed-point rendering `-w.f` or `+w.f` reads back as minus or plus that value, so the phase `"-3.913"` is -3.913. |
| `BladeParser.ParseInput` | app.py:80-86 | The loop returns exactly `Parse(rawInput)`: one record per accepted line of the stripped text, in line order. |
| `BladeParser.ParseLineTokens` | app.py:83-86 | A line is accepted exactly when it has at least two whitespace tokens and both of the first two are numbers. Tabs count as whitespace. The record holds those two numbers. |
| `BladeParser.ShortLineSkipped` | app.py:84 | A blank line or a one-token line gives no record. |
| `BladeParser.ExtraTokensIgnored` | app.py:85 | Tokens after the second do not change the record or whether the line is accepted. |
| `BladeParser.CarriageReturnIgnored` | app.py:83 | A line ending in `'\r'` parses like the same line without it. |
| `BladeParser.CollectAppend` | app.py:82-86 | Parsing two blocks of lines one after the other gives their records one after the other. |
| `BladeParser.CollectAt` | app.py:82-86 | Each line contributes its own record or nothing, placed between the records of the lines before and after it. |
| `BladeParser.MalformedLineSkipped` | app.py:85-86 | A line that does not parse is dropped, and the lines after it parse as if it were absent. Parsing goes on; it does not stop. |
| `BladeParser.CollectBound` | app.py:82-85 | There are never more records than lines. |
| `BladeParser.AcceptedPositions` | app.py:82-85 | The accepted line positions are valid and strictly increasing. A line is among them exactly when the per-line rule accepts it. |
| `BladeParser.CollectInOrder` | app.py:82-85 | There is one record per accepted line, and the k-th record is what the k-th accepted line parses to. |
| `BladeParser.BlankInput` | app.py:80-81 | Empty or whitespace-only input gives no records. |
| `BladeParser.ParseIsCollect` | app.py:81-82 | The emptiness test before the loop changes nothing. Parsing is always the collection over the lines of the stripped text. |
| `BladeParser.CollectBlankText` | app.py:80-86 | A text of whitespace only, line feeds included, gives no records. |
| `BladeParser.CollectPadded` | app.py:81-86 | Whitespace around a text, line feeds included, adds no record and changes none: parsing the padded text line by line gives what parsing the text does. |
| `BladeParser.ParseRawLines` | app.py:80-86 | The outer strip and the emptiness test change no record: parsing a paste is collecting over its lines exactly as pasted, leading and trailing blank lines included. |
| `BladeParser.TrailingLineFeedIgnored` | app.py:81-82 | A paste ending in a line feed, as a spreadsheet copy does, gives the same records as the paste without it. |
| `BladeParser.LinesOfJoin` | app.py:81-82 | Any non-empty list of lines without line feeds, joined with line feeds, comes back as the same lines after stripping and splitting, provided the text neither starts nor ends with whitespace. |
| `BladeParser.ParseBound` | app.py:82-91 | The detected blade count is at most the number of lines of the stripped text, which is one more than its number of line feeds. |
| `Analysis.Mod360` | app.py:54 | Python's `% 360` on the angle always gives a value in [0, 360). |
| `Analysis.Mod360Periodic` | app.py:54 | Adding a full turn does not change the normalised angle. |
| `Analysis.Mod360InRange` | app.py:54 | An angle already in [0, 360) is unchanged. |
| `Analysis.Analyze` | app.py:47-54 | No blades give the resultant (0, 0). The resultant angle is always in [0, 360). |
| `Analysis.SumOfAppend` | app.py:52-53 | The sum over two lists one after the other is the sum of the two sums. |
| `Analysis.SumOfPermutation` | app.py:52-53 | The component sums do not depend on the order of the blades. |
| `Analysis.AnalyzePermutation` | app.py:47-54 | The resultant does not depend on the order in which the blades were pasted. |
| `Analysis.DiagnoseThreshold` | app.py:137-140 | The verdict is critical exactly when the magnitude is strictly above 0.05. A magnitude of exactly 0.05 is stable. |
| `Analysis.DiagnoseMonotone` | app.py:137-140 | A larger resultant is never judged better than a smaller critical one. |
| `Dashboard.Render` | app.py:88-97 | The placeholder is shown exactly when no blade was parsed. Otherwise the card shows a blade count equal to the number of records, at most the number of lines. Its magnitude and angle are the resultant `Analyze` computes from the parsed blades, the angle is in [0, 360), and the diagnosis is `Diagnose` of that magnitude: critical exactly when it is above 0.05. |
| `Scenarios.TwoIntegersLine` | app.py:83-85 | A line of two whole numbers separated by a space gives the record of those two numbers. |
| `Scenarios.OneWordLine` | app.py:84 | A line holding one token gives no record. |
| `Scenarios.MalformedMiddleLine` | app.py:80-86 | For any three lines without line feeds whose middle line is malformed, whatever whitespace the paste starts or ends with, the result is the records of the first and last lines, in order. |
| `Scenarios.ReadingsAroundWord` | app.py:80-86 | A one-token line between any two accepted lines without line feeds is skipped, whatever whitespace the paste starts or ends with: the result is the two records of the accepted lines, in order. |
| `Scenarios.TwoOfThreeLines` | app.py:80-86 | Two lines of whole numbers around a one-word line, as in the paste "10 0", "abc", "10 90", give exactly the two records of those numbers, in order: (10, 0) and (10, 90) for that paste. |

## Left out

- Page setup, CSS, header, footer, columns and the placeholder text (app.py:1-44, 56-78, 157-170) are presentation only.
- The Plotly polar chart (app.py:111-133) is drawn by an external library.
- The `mailto:` link and its button (app.py:149-156) are string formatting for an external mail client.
- The vector sum (app.py:51-54) uses floating-point `numpy` cosine, sine, `atan2` and `hypot`. These are passed in as uninterpreted functions, so no property that needs trigonometric laws is stated. One example is that a single blade's resultant is that blade.
- `Analysis.Analyze`: does not state that the magnitude is non-negative, because `hypot` is uninterpreted.
- Reals are exact. `float()` rounds a decimal to a double, and the sums are rounded. So the order independence proved here holds for the model only up to floating-point rounding.
- `Analysis.Analyze`: the angle bound holds only for finite values. A digit string too long for a double (309 or more digits) makes `float()` overflow to `inf` or `-inf`. At app.py:52-54 an infinite magnitude times `sin(0)` is `nan`, so the card then shows a `nan` angle. Overflow to infinity and the `nan` resultant it causes are not modelled.
- `Dashboard.Render`: the angle it shows is in [0, 360) only under the same finiteness, for the same reason.
- The `pd.to_numeric(..., errors='coerce').fillna(0)` coercion (app.py:49-50) is not modelled. In the source, `float("nan")` accepts a `nan` token, and this coercion then turns that NaN into 0, so a pasted `nan 45` line becomes a blade of magnitude 0. The model rejects `nan` (see `Numbers.ParseNum` below), so it skips that line instead.
- `Numbers.ParseNum`: covers only sign, digits and one decimal point. Python's `float()` also accepts exponents, `inf`, `nan`, digit-separating underscores, non-ASCII digits and surrounding whitespace. These tokens are rejected by the model but accepted by the source.
- The text area widget, the `DataFrame` wrapper and the display of the blade count (app.py:72-77, 88-93) are user-interface plumbing. Only the count itself is modelled, in `Dashboard.Render`.
