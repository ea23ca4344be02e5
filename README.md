# utool text utilities — a Dafny model

utool is a set of small command-line filters for columns of text. This project models
the core of four of them:

- **ucol** picks columns out of each line. It covers:
  - how a line is split into columns (`linesplitter`, non-CSV modes);
  - how a column specification such as `3`, `-1`, `_2`, `2+` or `1[2,-1]` is parsed
    (`column_specifier`);
  - what each selector returns (`ColumnSelector`, `ColumnSelectorRange`,
    `ColumnSelectorSlice`);
  - the loop over the input that keeps, skips or rejects each row (`split`);
  - money clean-up (`remove_comma`);
  - column letters (`as_alpha`).
- **usum** reads numbers and aggregates them:
  - `num` reads a token, keeping how many digits it had after the point;
  - `group_by` aggregates per key built from chosen columns;
  - `agg_all` aggregates over every token;
  - the `line=N: ...` error of `UsumException`.
- **upar** re-flows text into paragraphs: `get_indent`, `get_paragraphs`, `paragraph`.
- **uavg** reads one number per line: `to_num`, `to_list`.

Python numbers are modelled as exact decimals. `Decimal.Dec` is a mantissa with a count
of digits after the point (its scale). Python's floats are doubles, so the model agrees
with Python wherever `float()` and float arithmetic lose nothing; the places where they
do are listed under "Left out". The one int/float comparison whose outcome decides what
a tool returns, `value_int == value_float` in uavg's `to_num`, is modelled
(`Uavg.ExactDouble`). Printing with `"{:.Nf}"` is `Decimal.Render`. Python's
`float()`/`int()` grammar for plain decimal numerals is `Decimal.ParseDecimal`.
Line splitting on a delimiter, on runs of it, and on whitespace lives in `Text`. The
money-shaped token test shared by `remove_comma` and `num` is in `Currency`.

Each loop of the source is a `method` with loop invariants. It is proved equal to a
function that specifies it, and the properties the tools promise are lemmas about those
functions:

| source | method | specification function |
|---|---|---|
| `as_alpha` | `Ucol.AsAlpha` | `Alpha` |
| `split` | `Ucol.Split` | `RowsFrom` |
| `group_by` | `Usum.GroupBy` | `GroupTable` |
| `agg_all` | `Usum.AggAll` | `AggText` |
| `get_indent` | `Upar.GetIndent` | `FirstIndent` |
| `get_paragraphs` | `Upar.GetParagraphs` | `Paragraphs` |
| `paragraph` | `Upar.Paragraph` | `Reflow` |
| `to_list` | `Uavg.ToList` | `NumbersOf` |

The generators `split` and `paragraph` are modelled by the whole sequence they yield.
Exceptions are the `Err` case of a `Result`, carrying the exception's message.

## Model

| member | source | states |
|---|---|---|
| Ucol.RemoveComma | utool/ucol.py:16-20 | a money-shaped value loses every `$` and `,` (by `Currency.DropMarks`, which keeps every other character in order); any other value is returned unchanged |
| Ucol.RemoveCommaExamples | utool/ucol.py:16-20 | `$1,234.56` becomes `1234.56`, and `-1,234` is returned unchanged |
| Currency.DropMarks | utool/ucol.py:19 | the result holds no `$` or `,` and is no longer than the input; one character is dropped exactly when it is `$` or `,` |
| Currency.DropMarksAppend | utool/ucol.py:19 | dropping the marks from a concatenation drops them from each part, so with the one-character case every other character is kept, in order, and nothing is added |
| Currency.DropMarksFree | utool/ucol.py:19 | text without `$` and `,` is returned unchanged |
| Currency.GroupedMoneyShaped | utool/usum.py:22 | `-?$d,ddd.f`, with one to three leading digits and a group of three, is money-shaped for num, and without the minus also for remove_comma |
| Currency.GroupedMoneyDropped | utool/usum.py:23 | cleaning `-?$d,ddd.f` drops exactly its dollar sign and its comma |
| Currency.OddGroupNotMoney | utool/usum.py:22 | `$d,d...f` with a comma group of other than three digits is not money-shaped |
| Ucol.RemoveCommaIdempotent | utool/ucol.py:16-20 | cleaning a value twice gives what cleaning it once does |
| Ucol.RemoveCommaMinusNeedsDollar | utool/ucol.py:18 | a value starting with `-` that is not followed by `$` is never changed, so `-1,000` keeps its comma |
| Ucol.AsAlpha | utool/ucol.py:23-30 | for values >= 1 the result is `Alpha(value)`; for -25..0 it is the single letter at index value-1 from the end; below -25 there is no result, because the index is out of range |
| Ucol.AlphaRoundTrip | utool/ucol.py:23-30 | the number is recovered from its name, reading the first letter 1..26 and each later letter as its position mod 26 |
| Ucol.AlphaInjective | utool/ucol.py:23-30 | distinct positive numbers get distinct names |
| Ucol.AlphaExamples | utool/ucol.py:23-30 | 26 is Z, 27 is AA, and 52 is BZ |
| Ucol.AlphaSkipsAZ | utool/ucol.py:23-30 | no positive number is named AZ |
| Ucol.SheetColumn | utool/ucol.py:23-30 | the corrected column name is a non-empty run of capitals |
| Ucol.SheetColumnRoundTrip | utool/ucol.py:23-30 | the corrected name reads back to its number, with every letter counting 1..26 |
| Ucol.SheetColumnOnto | utool/ucol.py:23-30 | every non-empty run of capitals is the corrected name of exactly the number it reads as |
| Ucol.SheetColumnExamples | utool/ucol.py:23-30 | the corrected names of 27, 52 and 53 are AA, AZ and BA |
| Ucol.Tokenise | utool/ucol.py:63-95 | splitting always gives at least one column, and no column holds the delimiter |
| Ucol.TokeniseWords | utool/ucol.py:80-86 | on a line that is not blank, stripped whitespace splitting with runs collapsed gives the line's words, as `line.split()` does |
| Ucol.TokeniseRunsJoin | utool/ucol.py:88-95 | collapsing splitting on a one-character delimiter, without strip, gives back delimiter-free parts joined one delimiter apart when no inner part is empty |
| Ucol.TokeniseRunsRejoin | utool/ucol.py:88-95 | collapsing splitting never yields an empty inner column, and its columns joined by one delimiter split back into the same columns |
| Text.SplitRunsInner | utool/ucol.py:89-95 | `re.split` on runs of a delimiter yields an empty field only first or last |
| Text.JoinSplitRuns | utool/ucol.py:89-95 | splitting on runs undoes a join with one delimiter of delimiter-free parts whose inner parts are not empty |
| Text.WordsStrip | utool/ucol.py:84-85 | stripping whitespace around a line keeps its words |
| Text.WordsTrailing | utool/ucol.py:84-86 | whitespace after a text adds no word |
| Text.SplitRunsWords | utool/ucol.py:86 | on a stripped, non-empty line, `re.split(r"\s+", line)` is `line.split()` |
| Ucol.TokeniseNullableCount | utool/ucol.py:63-78 | in nullable mode there is one column more than there are delimiters in the (stripped) line |
| Ucol.TokeniseCollapsedStripped | utool/ucol.py:80-95 | when runs of delimiters are collapsed after stripping: a line of delimiters only gives `[""]`; any other line gives non-empty columns only |
| Ucol.TokeniseJoin | utool/ucol.py:71-78 | splitting on every delimiter without stripping loses nothing: joining the columns with the delimiter gives the line back |
| Ucol.PyIndex | utool/ucol.py:110-111 | Python list indexing: defined exactly for -len <= i < len, counting negative indexes from the end |
| Ucol.SliceBound | utool/ucol.py:139-145 | a slice bound is clamped into 0..len, with negative bounds counted from the end |
| Ucol.PySlice | utool/ucol.py:139-145 | Python slicing: no bounds give the whole string; bounds inside 0..len, or both negative inside -len..-1, give exactly the characters between them; bounds that cross after clamping give the empty string; a slice is never longer than the string |
| Ucol.MatchSlice | utool/ucol.py:213-214 | a matched `N[start,end]` specification has well-formed parts |
| Ucol.ParseSelector | utool/ucol.py:189-216 | a range selector starts at a non-negative index; every error is the invalid-specification message, or `int()` rejecting a lone `-` |
| Ucol.SignedDigitsShow | utool/ucol.py:209-213 | a printed signed number is read back as that number |
| Ucol.SplitBoundsParts | utool/ucol.py:213 | the `start,end` part of a slice splits at its comma |
| Ucol.BracketSplit | utool/ucol.py:213 | a slice specification splits at its first `[` |
| Ucol.MatchSliceParts | utool/ucol.py:213-214 | a specification built from well-formed slice parts is matched back into those parts |
| Ucol.ParseSliceParts | utool/ucol.py:124-137 | a slice's index, start and end become 0-based as the constructor adjusts them; a start of `-` alone raises |
| Ucol.ParseShow | utool/ucol.py:189-216 | every well-formed selector is parsed back from its printed specification |
| Ucol.ParseShowRange | utool/ucol.py:211-212 | `N+` parses to the range starting at column N-1 |
| Ucol.ParseShowSlice | utool/ucol.py:213-215 | a printed slice selector parses back to itself |
| Ucol.SelectColumn | utool/ucol.py:103-111 | `N` selects column N counting from 1, and fails when the row has fewer columns |
| Ucol.SelectColumnZero | utool/ucol.py:106-108 | `0` selects the same column as `1` |
| Ucol.SelectFromRight | utool/ucol.py:104-111 | `-N` and `_N` both select the N-th column from the right, and fail when there are fewer |
| Ucol.SelectRange | utool/ucol.py:114-118 | `N+` selects column N and all after it, and an empty list when the row is shorter |
| Ucol.RangeSuffix | utool/ucol.py:117-118 | a range never fails: it is the suffix from its index, or empty |
| Ucol.SliceFailsOnlyOnColumn | utool/ucol.py:139-145 | a slice selector fails exactly when its column does not exist; the substring bounds never fail |
| Ucol.SliceEndMinusOne | utool/ucol.py:132-135 | an end of `-1` becomes 0, so the selected substring is always empty |
| Ucol.SelectSlice | utool/ucol.py:124-145 | `n[a,b]` with 1 <= a <= b parses to a 0-based slice and selects characters a to b of column n, counting from one, both included |
| Ucol.SelectSliceFromRight | utool/ucol.py:124-145 | `n[-a,-b]` with 2 <= b <= a selects the a-th to the b-th character from the right of column n, both included |
| Ucol.SliceFromRight | utool/ucol.py:145 | slicing from `-a` to `1-b` keeps the a-th to the b-th character from the right |
| Ucol.IntendedEnd | utool/ucol.py:132-137 | the corrected end bound: `-1` leaves the end open; any other end is shifted as the constructor shifts it |
| Ucol.IntendedSliceFromRight | utool/ucol.py:132-145 | with the corrected end, `[-a,-b]` selects the a-th to the b-th character from the right for every b >= 1, so `[-a,-1]` is the last a characters |
| Ucol.SliceStartMinusFails | utool/ucol.py:126-127 | `1[-]` raises from `int('-')` |
| Ucol.RejectsMinusSlice | utool/ucol.py:213-216 | a slice on a negative column must use `_`: `-1[2]` is an invalid specification |
| Ucol.RejectsUnderscoreRange | utool/ucol.py:211-216 | `_1+` is an invalid specification |
| Ucol.Split | utool/ucol.py:170-186 | the rows yielded, and the error raised, are those of `RowsFrom` over the input lines from line 1 |
| Ucol.RowsFromCons | utool/ucol.py:172-186 | the first line is handled, then the rest with the next line number |
| Ucol.SplitStops | utool/ucol.py:177-183 | in strict mode a line too short for the selectors raises `line=n:'...' does not have enough columns` after the rows already yielded |
| Ucol.SplitGoesOn | utool/ucol.py:172-186 | otherwise a line yields its projection when it is not empty, and the next line follows |
| Ucol.AfterRow | utool/ucol.py:185-186 | yielding a row, then the rest, is yielding the rows so far plus that row |
| Ucol.ProjectRow | utool/ucol.py:174-184 | the selectors' outputs are concatenated in order; the first failing selector makes the row fail |
| Ucol.ProjectFailsFrom | utool/ucol.py:175-181 | once a prefix of the selectors fails, the whole row fails |
| Ucol.ProjectConcat | utool/ucol.py:175-177 | selecting with two lists of selectors concatenates their results, and fails if either fails |
| Ucol.ProjectSnoc | utool/ucol.py:175-183 | one selector more extends the row by what it picks, or fails when it raises |
| Ucol.ProjectFailsIff | utool/ucol.py:175-184 | a row fails exactly when some selector is out of range for it |
| Ucol.RowsNonEmpty | utool/ucol.py:185-186 | no yielded row is empty |
| Ucol.LenientNeverFails | utool/ucol.py:179-181 | outside strict mode split never raises |
| Ucol.StepKept | utool/ucol.py:179-186 | a row that is not rejected is yielded when non-empty and skipped when empty or short |
| Ucol.LenientAppend | utool/ucol.py:172-186 | outside strict mode the rows of two blocks of lines are the rows of each block, with the line numbers continuing |
| Ucol.StrictStopsAt | utool/ucol.py:182-184 | in strict mode the first short line ends split. The rows before it are yielded. The error is `line=N:'<line>' does not have enough columns` |
| Ucol.StrictKeepsFirst | utool/ucol.py:172-186 | a first line with enough columns is yielded in strict mode as in lenient mode, in front of what the later lines give |
| Ucol.StrictAgrees | utool/ucol.py:178-184 | when no line is short, strict and lenient mode yield the same rows and neither raises |
| Usum.Num | utool/usum.py:16-40 | outside strict mode num always returns a number |
| Usum.NumPrecision | utool/usum.py:25-36 | a numeral is read at its value. An integral numeral has precision 0. Any other keeps its count of digits after the point |
| Usum.NumStrictFails | utool/usum.py:37-40 | in strict mode num raises exactly when `float()` rejects the token, with message `could not convert '<value>' to number` |
| Usum.NumLenientZero | utool/usum.py:37-39 | outside strict mode a token that is not a number and not money-shaped reads as 0 with precision 0 |
| Usum.NumModesAgree | utool/usum.py:21-23 | a token strict mode accepts reads the same in both modes |
| Usum.NumMoney | utool/usum.py:21-39 | outside strict mode a money-shaped token is read as `float()` reads it without its `$` and `,`, or as 0 when that fails; strict mode rejects it |
| Usum.NumGroupedMoney | utool/usum.py:21-36 | outside strict mode `-?$d,ddd.f` reads as the signed number its digits spell, at as many places as it has fraction digits; strict mode rejects it |
| Usum.NumOddGroup | utool/usum.py:21-39 | outside strict mode `$d,d...f` with a comma group of other than three digits reads as 0 with precision 0 |
| Usum.NumMoneyExamples | utool/usum.py:21-39 | outside strict mode `-$123,456.78` reads as -123456.78 at two places, and `$1,2345.6` as 0 |
| Usum.NumRender | utool/usum.py:16-36 | a number printed with N digits after the point is read back at its value with precision N |
| Usum.ParsedHasNoMark | utool/usum.py:21-26 | nothing `float()` accepts contains `$` or `,` |
| Usum.Picks | utool/usum.py:64 | the key columns are found exactly when every key column exists, and are the tokens at those 1-based positions |
| Usum.ValueColumns | utool/usum.py:65 | the value columns are the column numbers not used for the key, in increasing order, each present once |
| Usum.CollectItems | utool/usum.py:66 | reading a list of values succeeds exactly when each one does; otherwise the first error is raised |
| Usum.Values | utool/usum.py:66 | a row has one value per value column |
| Usum.GroupBy | utool/usum.py:43-112 | the result is `GroupTable`: the groups after the lines are fed one by one, or the first error in strict mode |
| Usum.AbsorbRow | utool/usum.py:71-97 | an accepted row updates the order, the accumulator, the count and the precision as `Absorb` states |
| Usum.Flush | utool/usum.py:103-110 | the output lists the keys in order, each with its optional count and formatted accumulator |
| Usum.FeedLineCases | utool/usum.py:60-101 | a line that fails to read, or whose width differs from its key's accumulator, is skipped, or raises `line=N: ...` in strict mode. Any other line is absorbed |
| Usum.FeedNext | utool/usum.py:59-101 | lines are handled in order, the n-th with line number n |
| Usum.FeedErrPersists | utool/usum.py:99-101 | after a strict-mode error no later line is read |
| Usum.FeedLenient | utool/usum.py:99-101 | outside strict mode group_by never raises |
| Usum.FeedRejected | utool/usum.py:68-69 | a rejected line leaves the groups and the accepted rows as they were, or raises in strict mode |
| Usum.FeedAccepted | utool/usum.py:71-97 | an accepted line is absorbed and joins the accepted rows |
| Usum.FeedLast | utool/usum.py:59-101 | the state after the last line is the state before it, updated by that line or left as it was |
| Usum.AbsorbKeys | utool/usum.py:77-97 | after a row the groups, counts and order know the same keys. Each key is listed once and has a positive count |
| Usum.AbsorbInv | utool/usum.py:71-97 | absorbing an accepted row preserves the group_by invariant |
| Usum.AbsorbScales | utool/usum.py:71-97 | no accumulated number has more digits after its point than the precision kept for its column |
| Usum.ApplyScale | utool/usum.py:86-97 | adding, or taking the minimum or maximum, never needs more digits after the point than the wider operand |
| Usum.NextAccScale | utool/usum.py:78-97 | the next accumulator's digits after the point are bounded by the precision and the row's value |
| Usum.FeedInv | utool/usum.py:59-101 | every state group_by reaches satisfies the invariant |
| Usum.CountedStep | utool/usum.py:77 | each key's count is the number of accepted rows with that key |
| Usum.WidthsStep | utool/usum.py:68-97 | a key's accumulator is never wider than any accepted row of that key |
| Usum.FoldedStep | utool/usum.py:86-97 | a sum accumulator is the total of its column; a min or max accumulator is one of the column's values and bounds all of them |
| Usum.FoldedFirst | utool/usum.py:78-84 | a new key starts from zeros for a sum, or from the row itself for min or max |
| Usum.AggregatedStep | utool/usum.py:78-97 | every accumulator stays the fold of its column over the key's accepted rows |
| Usum.AggregatedKey | utool/usum.py:78-97 | combining a row into a key's accumulator keeps each column the fold of that key's rows |
| Usum.WidestStep | utool/usum.py:71-75 | the precision of each column is the widest precision any accepted row had there |
| Usum.WidestFirst | utool/usum.py:71-72 | the first accepted row sets each column's precision to its own |
| Usum.WidestNext | utool/usum.py:73-75 | a later row raises a column's precision to its own where that is wider |
| Usum.KeysOfListed | utool/usum.py:103 | the output keys are exactly the keys of the accepted rows |
| Usum.KeysOfDistinct | utool/usum.py:103 | no key is output twice |
| Usum.KeysOfFirstSeen | utool/usum.py:103 | keys are output in the order in which they were first accepted |
| Usum.AgreesStep | utool/usum.py:59-97 | absorbing a row keeps the state in agreement with the accepted rows |
| Usum.FeedAgrees | utool/usum.py:59-101 | the state matches the accepted rows: counts, widths, the fold per column (sum, or attained min/max), the widest precision, and keys in first-seen order |
| Usum.EntriesNext | utool/usum.py:103-110 | keys are output one after the other, each with its own entry |
| Usum.EntriesAt | utool/usum.py:103-110 | the j-th output entry belongs to the j-th key |
| Usum.FormattedReads | utool/usum.py:106-109 | each formatted accumulator has exactly its column's precision and reads back to the accumulated value |
| Usum.TableEntry | utool/usum.py:103-110 | the j-th entry of a state that agrees with the accepted rows is the j-th key, with the count of its rows when asked for and its formatted folds |
| Usum.TableOutput | utool/usum.py:103-110 | such a state prints one entry per key, in first-seen order |
| Usum.GroupTableOutput | utool/usum.py:103-112 | the output has one entry per accepted key in first-seen order. Each entry starts with the count of the key's rows when asked for, followed by its formatted folds |
| Usum.LineNums | utool/usum.py:123-127 | a line that reads gives one number per token |
| Usum.Nums | utool/usum.py:126-127 | one reading per token |
| Usum.NumsAt | utool/usum.py:126-127 | the j-th token is read with num |
| Usum.Fold | utool/usum.py:130-137 | there is a result exactly when some number was read |
| Usum.FoldSnoc | utool/usum.py:128-137 | the first number read starts the result; each later one is added, or compared as min or max. The precision is the widest seen |
| Usum.FoldScale | utool/usum.py:128-137 | the result never has more digits after its point than the widest input |
| Usum.MaxScaleWidest | utool/usum.py:128 | the precision is attained by some input and bounds all of them, or is 0 with no input |
| Usum.Column | utool/usum.py:122-137 | every number read becomes a one-column row |
| Usum.FoldFolds | utool/usum.py:128-137 | the result is the total, or an attained minimum or maximum, of all numbers read |
| Usum.ReadToken | utool/usum.py:127 | the m-th token of a line is read with num |
| Usum.FoldFromSnoc | utool/usum.py:128-137 | carrying the fold on over one more number folds it into the running result and widens the running precision |
| Usum.FoldAppend | utool/usum.py:122-140 | the running result and precision carried from line to line equal one fold and one widest precision over all the numbers read |
| Usum.FoldTokens | utool/usum.py:126-137 | folding a line's tokens carries the running result and precision on over all of them, or fails with the first error num raises |
| Usum.AggLineStep | utool/usum.py:122-140 | a line that fails ends agg_all with `line=n: ...`; otherwise its numbers extend those read so far |
| Usum.AllNumsNext | utool/usum.py:122-140 | lines are read in order; an error on line n becomes `line=n: ...` |
| Usum.AllNumsErrPersists | utool/usum.py:138-140 | after an error nothing more is read |
| Usum.AllNumsStops | utool/usum.py:138-140 | the first line that fails decides the error |
| Usum.LineNumsRaises | utool/usum.py:126-127 | a line fails only in strict mode, at its first token `float()` rejects, with that token's message |
| Usum.AllNumsLenient | utool/usum.py:138-140 | outside strict mode agg_all never raises |
| Usum.CollectNext | utool/usum.py:126-127 | tokens are read left to right, stopping at the first error |
| Usum.CollectErrPersists | utool/usum.py:126-127 | tokens after a failing one are not read |
| Usum.CollectOk | utool/usum.py:126-128 | a token that reads extends the numbers of its line |
| Usum.CollectFails | utool/usum.py:126-127 | the first token that fails is the error of its line |
| Usum.AggReads | utool/usum.py:142-147 | the output has exactly the widest precision and reads back to the fold of all numbers, or to 0 when there were none |
| Usum.AggAll | utool/usum.py:115-147 | the result is `AggText`: the formatted fold of every number, or the first error in strict mode |
| Upar.FirstIndent | utool/upar.py:8-15 | a derived indent is never negative |
| Upar.FirstIndentAt | utool/upar.py:10-14 | the indent is the leading whitespace of the first line that is not blank |
| Upar.FirstIndentNone | utool/upar.py:10-15 | there is no indent exactly when every line is blank |
| Upar.GetIndent | utool/upar.py:8-15 | an explicit indent is kept; otherwise it is derived from the lines |
| Upar.GetParagraphs | utool/upar.py:18-36 | the result is `Paragraphs`: the words of each run of non-blank lines |
| Upar.ParagraphsWords | utool/upar.py:18-36 | the paragraphs hold all the words of the lines, in order |
| Upar.ParagraphsShape | utool/upar.py:18-36 | no paragraph is empty and every entry is a word |
| Upar.GatherWords | utool/upar.py:26-33 | the finished paragraphs plus the open one hold every word read so far |
| Upar.GatherShapes | utool/upar.py:26-33 | only non-empty paragraphs are closed |
| Upar.GatherAppend | utool/upar.py:26-33 | reading two blocks of lines is reading the first, then the second |
| Upar.GatherShift | utool/upar.py:26-33 | paragraphs closed earlier are not touched by later lines |
| Upar.ParagraphsBlankSplit | utool/upar.py:27-33 | a blank line separates paragraphs: the paragraphs around it are those of each side |
| Upar.ParagraphsBlock | utool/upar.py:27-29 | a run of non-blank lines is one paragraph of all its words |
| Upar.Paragraph | utool/upar.py:39-64 | the lines yielded are `Reflow`: the paragraphs laid out at width columns-indent |
| Upar.PrintParagraphs | utool/upar.py:48-64 | paragraphs are printed in order with one `""` between two of them |
| Upar.PackLines | utool/upar.py:51-64 | a paragraph's lines are its greedy packing, each printed after the indent |
| Upar.LayoutNext | utool/upar.py:48-50 | each paragraph after the first is preceded by one `""` |
| Upar.Print | utool/upar.py:54-63 | each packed line is the indent followed by its words joined by single spaces |
| Upar.PackKeepsWords | utool/upar.py:51-64 | packing neither drops, adds nor reorders words |
| Upar.PackFits | utool/upar.py:51-64 | the packed lines are non-empty and greedy. A line is longer than maxlen only when it is a single word. No line could take the next line's first word |
| Upar.PackWordInv | utool/upar.py:52-61 | each word keeps the packing invariant |
| Upar.PackFromInv | utool/upar.py:51-61 | the word loop keeps the packing invariant |
| Upar.PrintPacked | utool/upar.py:51-64 | a paragraph prints at least one line. Each line is the indent plus words joined by single spaces, longer than maxlen only for a single word |
| Upar.LayoutSeparated | utool/upar.py:48-64 | the output is empty exactly when there are no paragraphs. Exactly one `""` separates paragraphs, with none at the start or end |
| Upar.LayoutWords | utool/upar.py:48-64 | the words of the output lines are the words of the paragraphs, in order |
| Upar.LayoutParagraphs | utool/upar.py:48-64 | reading the output back into paragraphs gives the same paragraphs |
| Upar.PrintedParagraph | utool/upar.py:51-64 | the lines of one paragraph read back as that paragraph |
| Upar.ReflowWords | utool/upar.py:39-64 | paragraph keeps every word of its input, in order |
| Upar.ReflowShape | utool/upar.py:39-64 | the output is separated paragraphs of indented lines, and has the same paragraphs as the input |
| Upar.PrintedIndent | utool/upar.py:54-63 | a printed line is not blank and its leading whitespace is exactly the indent |
| Upar.FirstIndentPrinted | utool/upar.py:8-15 | the indent derived from the output is the indent that printed it |
| Upar.ReflowIdempotent | utool/upar.py:39-64 | re-flowing the output, joined with newlines, with the same width and indent gives the same output |
| Uavg.ToNum | utool/uavg.py:6-13 | to_num fails exactly when `float()` rejects the text, with `float()`'s message. Otherwise it returns a number of the numeral's value |
| Uavg.ToNumInt | utool/uavg.py:9-13 | the result is an int exactly when `int()` also accepts the text and that integer is exactly a double, so that it compares equal to what `float()` reads |
| Uavg.ExactDoubleIff | utool/uavg.py:13 | the test used for `value_int == value_float` accepts exactly the integers that are a significand below 2^53 times a power of two, no larger than the largest finite double |
| Uavg.SmallExact | utool/uavg.py:13 | every integer below 2^53 in magnitude is returned as an int |
| Uavg.ToNumShown | utool/uavg.py:6-13 | a written integer is returned as an int when it is a double, and as a float of the same value otherwise |
| Uavg.PastDoublePrecision | utool/uavg.py:13 | `9007199254740993` (2^53 + 1) is returned as a float, and `9007199254740994` as an int |
| Uavg.ToNumRender | utool/uavg.py:6-13 | a number printed without digits after the point reads as that int when it is a double, and as a float otherwise; printed with them, as a float; always of the same value |
| Uavg.ToList | utool/uavg.py:16-27 | the result is `NumbersOf`: the numbers of the lines read in order, or the first error |
| Uavg.NumbersBlank | utool/uavg.py:20 | blank lines are skipped |
| Uavg.NumbersTooMany | utool/uavg.py:22-26 | a line with several values raises `line=N: Too many values on line` |
| Uavg.NumbersNotNumber | utool/uavg.py:24-26 | a single value `float()` rejects raises its message prefixed with `line=N: ` |
| Uavg.NumbersStop | utool/uavg.py:19-26 | once a line raises, later lines do not matter |
| Uavg.NumbersReadable | utool/uavg.py:19-27 | to_list succeeds exactly when every line is blank or holds one number |
| Uavg.NumbersValues | utool/uavg.py:19-27 | the numbers are the values of the non-blank lines' single tokens, one per line, in order |

## Left out

- CSV parsing: `linesplitter` with `is_csv` and the `csv` module, which is a foreign call.
- The command-line `main()` functions, argument parsing and standard input/output. Input
  arrives as a string or a sequence of lines.
- `row_to_sc` and the `float(cell)` test it makes on each cell.
- `usum`'s `avg` operation (division and float rounding). `Usum.Op` is sum, min and max only.
- Op strings other than sum, avg, min and max. The source then keeps each key's first row.
- `uavg`'s statistics (`statistics.mean`, `quantiles`) and output formatting.
- Float arithmetic. Numbers are exact decimals, so rounding of large or long values, and
  `"{:.Nf}"` rounding of an inexact float, are not modelled.
- Uavg.ToNum: a float keeps the exact value of its numeral, not the nearest double that
  `float()` returns (nor `inf` for a numeral beyond the largest double). Which numerals
  come back as an int, decided by `value_int == value_float`, is modelled exactly.
- Usum.Num: an integral numeral that is not a double, such as `9007199254740993`, is
  returned by the source as the rounded float (`value_int == value_float` fails, usum.py
  line 34); the model keeps its exact value, so its printed form can differ in the last
  digits.
- Negative zero. Python prints the float `-0.0` as `-0.0`; the model's decimals have a
  single zero and print `0.0`. This shows in agg_all over `-0.0` alone, in a group_by min,
  max or sum left at `-0.0` (usum.py lines 106-109 and 147), and in lenient num of
  `-$0.00`, which the source reads as `-0.0`.
- Unicode digits. Python 3's `\d` matches every Unicode decimal digit, in the patterns of
  remove_comma (ucol.py line 18), num (usum.py line 22) and column_specifier (ucol.py
  lines 209-213); `Text.IsDigit` accepts `0`-`9` only.
- The parts of the `float()`/`int()` grammar beyond signed decimal numerals
  (`[+-]?(\d+(\.\d*)?|\.\d+)`): exponents, `inf`/`nan`, underscores, non-ASCII digits
  and surrounding whitespace. Such tokens are treated as not numbers.
- Regular-expression corner cases:
  - whitespace (`\s`, `str.split()`, `str.strip()`) is modelled as the ASCII whitespace
    characters, including `\x1c`-`\x1f`; non-ASCII Unicode whitespace is not modelled;
  - `$` matching before a final newline;
  - multi-character delimiters, and delimiters that are regex metacharacters other than `^`.
- `str.splitlines` is modelled as splitting at `\n` only, with no line after a final `\n`.
  Other line boundaries (`\r`, `\x0b`, `\x1c`, ...) are not modelled.
- Python's `repr` escaping of quotes inside error messages. Messages quote the value with
  `'` as it stands.
- Usum.GroupBy: key columns of 0 or less (Python index -1 and below) are excluded by the
  `KeyColumns` requirement; they index from the end of the line in the source.
- The `if not toks: continue` checks in `group_by` and `agg_all` (usum.py lines 61 and 123).
  They can never fire, because `str.split` with a separator never returns an empty list.
- The `hanging` and `prefix` arguments that the upar tests pass. `paragraph` in the source
  has neither.
- Upar.Paragraph: its docstring promises lines no longer than `columns`. The code prints a
  word longer than the width on a line of its own. The model follows the code, and
  `Upar.PackFits` states the weaker, true bound.

## Findings

| source | as written | input that shows it | evidently intended | confidence | as-written member | corrected member |
|---|---|---|---|---|---|---|
| utool/ucol.py:132-135 | an end bound `-1` is shifted to 0, so `[start,-1]` always selects the empty string, while the column-specifier help (ucol.py lines 201-203) counts `-1` as the last character | `1[-3,-1]` on the column `abcdef` gives `""` | `-1` is the last character: `1[-3,-1]` gives `def` | high; not executed | Ucol.SliceEndMinusOne | Ucol.IntendedSliceFromRight |
| utool/ucol.py:27-30 | a multiple of 26 takes `Z` from index -1 but keeps the full quotient in front, so the name after AY is BZ and no number is named AZ | 52 gives `BZ`, and 78 gives `CZ` | spreadsheet column names in bijective base 26: 52 is `AZ`, 53 is `BA` | high; not executed | Ucol.AlphaSkipsAZ | Ucol.SheetColumnRoundTrip |
