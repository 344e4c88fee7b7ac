# ESATAN FX/T reader

`read_fx_t` (helpers/funs.py) reads the text output of the ESATAN thermal
solver one line at a time. Each line is matched against a four-column record
pattern: a node number, then three signed decimal numerals (FX, T and QI).
Records of the two special (sentinel) nodes 99998 and 99999 are dropped. Every other
record appends its FX value to one list and its T value to another. The two
lists are returned as arrays.

This project models that function in four modules:

- `Numeral` (numeral.dfy) covers the lexical layer of the pattern:
  - ASCII whitespace and digits;
  - the greedy runs `\s*` and `\d+`;
  - the value `int()` gives a run of digits;
  - the numeral `[+-]?\d+(?:\.\d+)?(?:[Ee][+-]?\d+)?`. A numeral is kept as a
    lexeme (sign, integer digits, fraction digits, optional exponent) together
    with the exact decimal number it denotes, `Decimal(mantissa, exponent)`.
- `LinePattern` (line_pattern.dfy) models `pattern.match(line)` as the
  function `MatchLine`. A successful match is represented as a `Cut` of the
  line into its indentation, node, gaps, fields and the unexamined rest. The
  lemmas prove three things:
  - the matcher is sound and complete with respect to the pattern's shape;
  - it recovers groups 1 to 3 exactly;
  - the node, FX and T fields it recovers do not depend on text appended
    after the fourth field.
- `Extraction` (extraction.dfy) holds the rest of `read_fx_t`:
  - the sentinel filter;
  - the specification `Extracted(lines)`, the sequence of (FX, T) pairs that
    the lines contribute in order;
  - the lemmas about `Extracted`;
  - the loop itself, as the method `ReadFxT`. The method builds the two lists
    by appending, and is proved to return the two columns of `Extracted(lines)`.
- `Examples` (examples.dfy) works through concrete lines and files: the
  typical record from the solver's output, records of nodes 100 and 200,
  sentinel records (including `099999`), headers, blank lines and malformed
  rows.

The file is modelled as the sequence of its lines. Python iterates over a
text file with each line's `\n` still attached. `Extraction.LineTerminator`
proves that this terminator never changes what a line contributes, so a line
may be given with or without it.

Each numeral keeps its written form and its exact decimal value. `float()`'s
rounding to the nearest double is not modelled. The matcher accepts only
lexemes whose syntax `int()` and `float()` accept. So, apart from `int()`'s
limit on the number of digits (see "## Left out"), a matched line never
fails to convert.

How the pattern's backtracking is modelled:

- Whitespace and the characters of a numeral never overlap. So fields 1 to 3
  are whole whitespace-delimited tokens, and backtracking cannot make them
  shorter (`LinePattern.MatchLineComplete`).
- Nothing after the fourth field is examined. The fourth field is therefore
  the longest numeral at its position, and the matcher takes the first such
  reading (`Numeral.ScanNumeralLongest`).

The pattern is anchored at the start of the line and nowhere else. So
`100 1 2 3x` is a record whose fourth field is `3`, and a fifth column is
ignored (`Examples.TrailingMatch`, `Extraction.ContributionTrailing`).

## Model

| member | source | states |
|---|---|---|
| Numeral.SpanSpaces | helpers/funs.py:25 | `\s*` (and each `\s+` gap): splits a string into its longest all-whitespace prefix and the rest, which does not begin with whitespace; the two parts rejoin to the input |
| Numeral.SpanDigits | helpers/funs.py:25 | `\d+`: splits a string into its longest all-digit prefix and the rest, which does not begin with a digit; the parts rejoin to the input |
| Numeral.SpanSpacesOf | helpers/funs.py:25 | a whitespace run followed by a non-whitespace character (or nothing) is split exactly there |
| Numeral.SpanDigitsOf | helpers/funs.py:25 | a digit run followed by a non-digit (or nothing) is split exactly there |
| Numeral.DigitsValue | helpers/funs.py:35 | `int()` of a run of k digits, which is below 10^k |
| Numeral.DigitsValueSnoc | helpers/funs.py:35 | one more digit on the right multiplies the value by ten and adds the digit |
| Numeral.DigitsValueLeadingZeros | helpers/funs.py:35-36 | leading zeros do not change the node number that the sentinel test compares (`int("099999") == 99999`) |
| Numeral.ScanNumeral | helpers/funs.py:25 | the numeral sub-pattern: a reading exists exactly when the text begins with a digit, or with a sign followed by a digit; the numeral read is well formed and, followed by what is left, gives back the input |
| Numeral.ScanNumeralToken | helpers/funs.py:25 | a well-formed numeral followed by nothing, whitespace or any character other than a digit, `.`, `e` or `E` is read back whole and unchanged (the scanner inverts `Text`) |
| Numeral.ScanNumeralLongest | helpers/funs.py:25 | on text beginning with any well-formed numeral, the scanner succeeds and leaves no more over than that numeral does: it takes the longest numeral, as the greedy, unanchored fourth group does |
| Numeral.ScanNumeralBarePoint | helpers/funs.py:25 | a `.` without a digit after it is not part of the numeral: `1.` reads as `1` with the point left over |
| Numeral.TextEndsInDigit | helpers/funs.py:25 | every numeral the pattern accepts ends with a digit |
| Numeral.ValueTrailingZero | helpers/funs.py:38-39 | appending a zero fraction digit gives the same number: ten times the mantissa, with the exponent one lower |
| LinePattern.MatchField | helpers/funs.py:25 | `\s+(NUM)`: a non-empty whitespace gap, a well-formed numeral and the rest, which rejoin to the input |
| LinePattern.MatchLine | helpers/funs.py:33 | `pattern.match(line)`: any cut it returns has the pattern's shape and rejoins to the line |
| LinePattern.MatchLineUpToFourth | helpers/funs.py:25 | on a line of the pattern's shape, the matcher keeps the line's indentation, node, FX and T fields and the gaps; its fourth field is whatever the numeral scan reads there |
| LinePattern.MatchLineComplete | helpers/funs.py:25 | every line of the pattern's shape matches, with groups 1 to 3 and everything before the fourth field exactly as cut, and a fourth field at least as long |
| LinePattern.MatchLineExact | helpers/funs.py:25 | when the text after the fourth field cannot continue a numeral, the matcher returns the line's own cut |
| LinePattern.MatchLineNone | helpers/funs.py:33-34 | a line is rejected exactly when no cut of it has the pattern's shape |
| LinePattern.MatchLineTrailing | helpers/funs.py:25 | appending any text to a matching line keeps it matching, with the same node, FX and T fields (no end anchor) |
| LinePattern.MatchLineSpaceAfter | helpers/funs.py:32-33 | a line ending in one more whitespace character (such as its `\n`) matches exactly when the line without it does |
| Extraction.Accepted | helpers/funs.py:34-39 | the sentinel filter on a match result: a pair exactly when the line matched and its node number is neither 99998 nor 99999, and then the pair is the values of groups 2 and 3 |
| Extraction.Contribution | helpers/funs.py:33-41 | what one line adds: a pair exactly when `pattern.match` succeeds on it and its node is not a sentinel, and then the values of the matched FX and T fields |
| Extraction.Collected | helpers/funs.py:32-41 | what an append-per-line loop leaves in its list: at most one value per line |
| Extraction.Extracted | helpers/funs.py:28-43 | the pairs `read_fx_t` returns, in line order: at most one per line (the rest of its meaning is in `ExtractedOrigin`, `ExtractedEmpty` and `RecordLine`) |
| Extraction.RecordLine | helpers/funs.py:34-41 | on a line of the pattern's shape: a node whose value is 99998 or 99999 contributes nothing; any other node contributes the exact values of the line's own second and third fields, and never the fourth |
| Extraction.ContributionTrailing | helpers/funs.py:25 | text after a record does not change what the record contributes |
| Extraction.LineTerminator | helpers/funs.py:32-33 | a line's trailing whitespace character (its line feed) does not change what it contributes |
| Extraction.CollectedAppend | helpers/funs.py:32-41 | an append-per-line loop over two files in sequence collects the first file's values, then the second's |
| Extraction.CollectedOrigin | helpers/funs.py:32-41 | the k-th collected value comes from the k-th line that yields one; those lines are in increasing order, and every line that yields a value is among them |
| Extraction.FoundAtOrdered | helpers/funs.py:32 | positions of the lines that yield values are in range and strictly increasing |
| Extraction.CollectedAt | helpers/funs.py:32-41 | one recorded position per collected value, each position's line yielding that value |
| Extraction.FoundAtComplete | helpers/funs.py:32-34 | every line that yields a value has its position recorded |
| Extraction.CollectedEmpty | helpers/funs.py:28-29 | nothing is collected exactly when no line yields a value |
| Extraction.ExtractedAppend | helpers/funs.py:32-41 | the pairs of two files read one after the other are those of the first, then those of the second |
| Extraction.ExtractedSnoc | helpers/funs.py:32-41 | one more line adds exactly its own contribution at the end |
| Extraction.ExtractedOrigin | helpers/funs.py:32-41 | the output has one pair per matching non-sentinel line, in line order: the k-th pair is the contribution of the k-th contributing line, and no contributing line is missing |
| Extraction.SkippedLine | helpers/funs.py:33-37 | a line that does not match, or is a sentinel record, can be removed from any file without changing the output |
| Extraction.ExtractedEmpty | helpers/funs.py:28-29 | the output is empty exactly when no line contributes (an empty file, or one made only of sentinel and non-record lines) |
| Extraction.CollectedStep | helpers/funs.py:40-41 | appending a line's value to both columns keeps them the columns of what has been collected |
| Extraction.ExtractedStep | helpers/funs.py:33-41 | one loop iteration: a non-matching line or a sentinel record leaves both lists as they are; any other record appends its FX and T values, and the lists stay the columns of the pairs so far |
| Extraction.ReadFxT | helpers/funs.py:28-43 | the loop returns the FX and T columns of `Extracted(lines)`: two lists of the same length whose i-th entries come from the same accepted line, in file order |
| Examples.TypicalLine | helpers/funs.py:7 | the typical record cut is the line `  100   1.2345E-02   273.15   0.000` |
| Examples.SignedLine | helpers/funs.py:8 | the node-200 record cut is the line `200   -5   10   0.5` |
| Examples.TrailingLine | helpers/funs.py:25 | the trailing-text cut is the line `100 1 2 3x` |
| Examples.TypicalRecord | helpers/funs.py:38-41 | `  100   1.2345E-02   273.15   0.000` contributes FX = 0.012345 and T = 273.15 exactly |
| Examples.SignedRecord | helpers/funs.py:8 | a record of node 200 with FX `-5` is kept, with FX = -5 and T = 10 |
| Examples.SentinelNodes | helpers/funs.py:35-36 | `99998`, `99999` and `099999` all read as sentinel node numbers |
| Examples.SentinelRecords | helpers/funs.py:36-37 | the records of nodes `99998`, `99999` and `099999` contribute nothing |
| Examples.OrdinaryRecord | helpers/funs.py:8 | the same record for node 100 is kept, with FX = 1.0 and T = 2.0 |
| Examples.HeaderLine | helpers/funs.py:33-34 | the header `NODE  FX  T  QI` does not match |
| Examples.BlankLine | helpers/funs.py:33-34 | an empty line does not match |
| Examples.SignedNode | helpers/funs.py:25 | `+100 1 2 3` does not match: the node has no sign |
| Examples.GluedNode | helpers/funs.py:25 | `100abc 1 2 3` does not match: the node must be followed by whitespace |
| Examples.BarePointField | helpers/funs.py:25 | `100 1. 2 3` does not match: `1.` is not a field |
| Examples.LeadingPointField | helpers/funs.py:25 | `100 .5 2 3` does not match: `.5` is not a field |
| Examples.ThreeFields | helpers/funs.py:25 | `100 1 2` does not match: the fourth field is required |
| Examples.TrailingMatch | helpers/funs.py:25 | `100 1 2 3x` matches with fourth field `3` and the `x` left unexamined |
| Examples.TrailingText | helpers/funs.py:38-39 | `100 1 2 3x` contributes FX = 1 and T = 2 |
| Examples.RecordsInOrder | helpers/funs.py:40-41 | records of nodes 100, 200 and 100 give three pairs in line order, each FX with the T of its own line |
| Examples.NothingToReport | helpers/funs.py:36-37 | a header, a blank line and the two sentinel records give no pairs at all |

## Left out

- Opening, reading and closing the file (helpers/funs.py:31): this is I/O. The input is the sequence of the file's lines. Text mode turns `\r\n` into `\n`; that step is not modelled, but `Extraction.LineTerminator` shows that no line terminator changes the result.
- Conversion to `np.array` (helpers/funs.py:43) is a foreign library call. The method returns the two sequences.
- Value: has no contract of its own. It gives the exact decimal a numeral denotes, not the IEEE-754 double that `float()` rounds it to (helpers/funs.py:38-39). Floating-point rounding is not modelled, and `Decimal` values are not normalised (`1.0` is `Decimal(10, -1)`).
- NodeNumber: restates `int()` of the node digits. Its properties are proved about `DigitsValue`.
- Unicode: Python's `\s`, `\d` and `int()` on `str` also accept non-ASCII whitespace and digits, and `\s` also matches the separators `\x1c`-`\x1f`. The model takes only the six ASCII whitespace characters and the ASCII digits.
- helpers/configure_pyvista_notebook.py is not part of this model. It is environment set-up around foreign library calls with a run-once flag, and `read_fx_t` does not use it.
- DigitsValue: gives a value for a node field of any length. Since Python 3.11 (and the matching security releases of 3.7 to 3.10), `int()` raises `ValueError` on a decimal string longer than 4300 digits (the limit `sys.set_int_max_str_digits` sets), and helpers/funs.py:35 then ends `read_fx_t` with that error. The model has no such limit, so a line with a node of more than 4300 digits contributes a pair here, whereas the source fails on the whole file.
