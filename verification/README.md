# weka-anova `analyze.py`: a Dafny model of its pure core

`analyze.py` reads the results file of a Weka experiment (an ARFF file),
groups the percentage of correctly classified instances by classifier, runs
a one-way ANOVA and a Kruskal-Wallis/Nemenyi post-hoc test, and prints a
table that compares every pair of classifiers. This project models the
deterministic parts of that script and proves properties about them:

- **Comma repair** (`-f`), in module `Repair`. The script finds the first
  line of the raw text that mentions `Key_Dataset`. On that line it takes the
  text from just after the first `{` up to, but not including, the character
  before the first `}`. It strips whitespace and then single quotes, and
  replaces every occurrence of that value in the whole text by the value
  with its commas deleted. Without such a line, `dataset_str` is never bound
  and the script raises `UnboundLocalError`, a kind of `NameError`.
- **Attribute selection**, in module `Selection`. The line the operator
  types is stripped and split at commas. Each entry goes through Python 2's
  `int()` and then has one subtracted. An entry that is not a number raises
  `ValueError`.
- **Column lookup**, in module `Columns`. A loop over the attribute names
  records the positions of `Percent_correct` and `Key_Scheme`, with -1 for
  "not found". It stops right after the second hit.
- **Grouping**, in module `Grouping`. A `defaultdict(list)` receives, for each
  record in order, the accuracy under that record's classifier.
- **Display names and column width**, in module `Names`. Each key is shown by
  the part after its last dot. The width is the longest such name; `max` of
  an empty list raises `ValueError`.
- **Pairs and report table**, in module `Report`. The pairs come from
  `combinations(range(k), 2)`. The table has a header and then one row per
  pair, with both names, the formatted corrected p-value and the reject flag
  at that pair's position.
- **The pipeline**, in module `Analysis`. It runs the steps above on a parsed
  file, with the statistics supplied as inputs.

Python 2's string operations are modelled in module `Text`: `find`, slicing
with negative bounds, `strip`, `split`, `join` and `replace`, plus the
skipping of leading whitespace (`TrimStart`) that `int()` does after a sign.
`int()` on a byte string is modelled as CPython 2.7 reads base 10: leading
whitespace, an optional sign, whitespace again, at least one digit and
trailing whitespace, and nothing else. A number too large for a machine
integer is read again as a `long` with the same value; Dafny's `int` is
unbounded, so `Selection.ParseInt` gives that value directly. A trailing `L`
makes `int()` raise `ValueError`, and `ParseInt` rejects it too. Errors
the script can raise are values of `Results.Error`. A Python 2 `str` is a
byte string; it is modelled as `seq<char>`, and whitespace is C's `isspace`
set (space, `\t`, `\n`, `\v`, `\f`, `\r`).

On a declaration line the slice `line[start+1:end-1]` stops one character
before the closing `}`. For the quoted values the repair is written for
(`{'a,b'}`), that character is the closing quote, which the following
`strip("'")` would have removed anyway, so the repair works as intended
(`Repair.QuotedDatasetValue`). For an unquoted value it cuts the value's
last character. `Repair.DatasetValueOfDeclaration` states that behaviour
exactly as written.

## Model

| member | source | states |
|---|---|---|
| Text.Find | analyze.py:34-37 | `find` returns -1 exactly when the text does not occur. Otherwise it returns a position where it occurs, and no earlier position holds an occurrence. |
| Text.Slice | analyze.py:38 | A slice within bounds is the plain subsequence. A slice whose upper bound is at or below its lower bound is empty. A negative upper bound counts from the end: the slice is empty when that lands at or below the lower bound, or below the start. The result is never longer than the input. |
| Text.SliceBound | analyze.py:38 | A bound within the text is kept, a negative one counts from the end, and one outside the text is clamped to its nearer end. |
| Text.Strip | analyze.py:40 | The result is no longer than the input and neither starts nor ends with a stripped character. |
| Text.StripIsTrimmed | analyze.py:40 | What `strip` keeps is a contiguous segment of the input, and everything it removed on either side is a stripped character. |
| Text.StripPadding | analyze.py:40 | Padding made of stripped characters around a core whose ends are not stripped is removed, and the core comes back unchanged. |
| Text.StripAllIn | analyze.py:67 | A text made only of stripped characters strips to the empty text. |
| Text.TrimStartIsSuffix | analyze.py:67 | The whitespace skip that `int()` does after a sign leaves a suffix of its input, and everything it dropped is whitespace. |
| Text.TrimStartSkips | analyze.py:67 | Leading whitespace makes no difference to that skip: `int()` reads the same digits after a sign whatever whitespace follows it. |
| Text.SplitRejoins | analyze.py:32 | Joining the pieces of `split` with the separator gives the text back. |
| Text.SplitCuts | analyze.py:32 | Every piece but the last ends where the first remaining occurrence of the separator starts, and the last piece holds no separator. This is the left-to-right scan. |
| Text.SplitJoin | analyze.py:67 | When no piece holds a one-character separator, `split` undoes `join`. |
| Text.SplitCount | analyze.py:67 | Splitting at a character gives one piece more than the character's occurrences. |
| Text.ContainsInJoin | analyze.py:32-35 | A word without the separator occurs in a joined text exactly when it occurs in one of the pieces. |
| Text.Replace | analyze.py:43-44 | A non-empty target that does not occur leaves the text unchanged. |
| Text.ReplaceIsSplitJoin | analyze.py:44 | `replace` with a non-empty target keeps the text between the left-to-right occurrences and puts the replacement in place of each occurrence. |
| Text.ReplaceBySelf | analyze.py:44 | Replacing a text by itself changes nothing. |
| Text.DeleteChar | analyze.py:43 | Deleting a character leaves no occurrence of it. Every other character keeps its count, and a text without the character is unchanged. |
| Text.DeleteCharAppend | analyze.py:43 | Deleting a character from a concatenation deletes it from each part. |
| Repair.FirstLineWith | analyze.py:33-35 | The line found is the first one containing the word. None is found exactly when no line contains it. |
| Repair.DatasetValue | analyze.py:36-40 | The declared value neither starts nor ends with a single quote. |
| Repair.BracePositions | analyze.py:36-37 | On `pre{body}post` with no brace in `pre` and no `}` in `body`, `find` sees the braces at their own positions. |
| Repair.DatasetValueWithoutBraces | analyze.py:36-40 | On a line with no braces, both `find` calls give -1, so the value is the line without its last two characters (empty for a shorter line), stripped of whitespace and then of quotes. |
| Repair.DatasetValueOfDeclaration | analyze.py:36-40 | On a line `pre{body}post` with no brace in `pre` and no `}` in `body`, the value is `body` without its last character, stripped of whitespace and then of quotes. |
| Repair.QuotedDatasetValue | analyze.py:36-40 | A value written in single quotes inside the braces comes out as the bare value, commas included. |
| Repair.RepairValue | analyze.py:32-41 | There is a value exactly when the text mentions `Key_Dataset`, and the value is free of surrounding quotes. |
| Repair.RepairValueOfFirstLine | analyze.py:32-41 | For a text made of lines, the value is the declared value on the first line that mentions `Key_Dataset`, whatever the later lines hold. |
| Repair.RepairText | analyze.py:31-44 | Without a `Key_Dataset` line, the repair raises `UnboundLocalError` on `dataset_str`. The cleaned value holds no comma. Between the occurrences of the value the text is kept, and each occurrence becomes the cleaned value. A value without commas leaves the text unchanged. |
| Repair.ReplaceValue | analyze.py:43-44 | Each occurrence of the value, found left to right, becomes the value without commas, and the text between occurrences is kept. A value without commas leaves the text unchanged. |
| Repair.PrepareText | analyze.py:30-44 | Only the repair can fail, and only when `Key_Dataset` is absent. With `-f` the parser receives the repaired text: each occurrence of the value replaced by the value without commas. Without `-f`, or when the value holds no comma, the text reaches the parser unchanged. |
| Selection.Decimal | analyze.py:64 | The numeral printed for an attribute is a non-empty run of digits. |
| Selection.DigitsOfDecimal | analyze.py:64-67 | Reading back the digits of a number gives the number. |
| Selection.ParsedIsNumeral | analyze.py:67 | Whatever `int()` accepts strips to a run of digits, or to a sign, whitespace and digits, and its value is that numeral's value with that sign. |
| Selection.NumeralIsParsed | analyze.py:67 | An entry that strips to such a numeral is accepted with the numeral's signed value. |
| Selection.ParseIntReadsNumerals | analyze.py:67 | `int()` accepts an entry with a value exactly when the entry strips to a numeral for that value. |
| Selection.ParseUnsigned | analyze.py:67 | An entry that strips to a run of digits is read as that number. |
| Selection.ParseSigned | analyze.py:67 | An entry that strips to a sign, optional whitespace and digits is read as the signed number. |
| Selection.ParseDecimal | analyze.py:67 | A numeral surrounded by any whitespace is read back as its number. |
| Selection.ParseSignedDecimal | analyze.py:67 | A signed numeral is read back, whatever whitespace surrounds it or separates the sign from the digits. |
| Selection.BlankIsNotANumber | analyze.py:67 | An empty or blank entry is not a number. |
| Selection.ParseEntries | analyze.py:67 | The entries are read exactly when each is a number. The i-th index is the i-th entry's number minus one. Otherwise `ValueError` names the first entry that is not a number. |
| Selection.ParseSelection | analyze.py:67 | The selection succeeds exactly when every comma-separated entry of the stripped line is a number. There is one index per entry, one more than the commas, and each index is its number minus one. A failure is `ValueError`. |
| Selection.ParseOrdinals | analyze.py:64-67 | The printed 1-based numerals of some indices read back as those indices. |
| Selection.SelectionRoundTrip | analyze.py:64-67 | Typing the printed numbers of a non-empty list of attributes, separated by commas, selects exactly those attributes in that order. |
| Selection.BlankSelectionFails | analyze.py:66-67 | A blank selection line raises `ValueError` on the empty entry. |
| Columns.IndexOf | analyze.py:73-84 | This is the reference for a column position. It is -1 exactly when the name is absent; otherwise it is the first position holding the name. |
| Columns.LastBefore | analyze.py:76-82 | This is the position a scan of the first `n` names leaves behind: -1 exactly when the name was not seen, otherwise the last position where it was seen. |
| Columns.LocateColumns | analyze.py:73-84 | The scan stops right after the second hit, or at the end. Each index is where its name was last seen among the examined names. When neither column name occurs twice, each index is the name's position, or -1 when it is absent. |
| Columns.HitsAreSeen | analyze.py:75-84 | When neither column name occurs twice, the hit count is the number of column names seen. |
| Columns.LocatedAreFirst | analyze.py:83-84 | When neither column name occurs twice, stopping after two hits loses nothing: the positions found are the positions in the whole list. |
| Grouping.ValuesOf | analyze.py:86-91 | A key that is not in the dictionary holds the empty list. A non-empty list is the one stored with its key at some position. |
| Grouping.ValuesAt | analyze.py:91 | With distinct keys, the list at a position is the list stored under its key. |
| Grouping.ValuesOfAbsent | analyze.py:86 | A key that was never appended to holds the empty list. |
| Grouping.Append | analyze.py:91 | `results[key].append(value)` adds `value` at the end of that key's list, and of no other list. An unseen key is added after the existing ones, and existing keys keep their positions. Keys stay distinct. |
| Grouping.GroupBy | analyze.py:86-91 | The result is a correct grouping: distinct keys, exactly the key fields of the records, and under each key the values of its records in record order (the same as the independent filter `Selected`). |
| Grouping.AppendSize | analyze.py:91 | One append adds exactly one value in total. |
| Grouping.GroupSizes | analyze.py:88-91 | Every record lands in exactly one group: the group sizes add up to the number of records. |
| Grouping.KeyCount | analyze.py:86-91 | With distinct keys, there are as many groups as keys. |
| Grouping.GroupCount | analyze.py:86-91 | There is one group per distinct classifier. |
| Grouping.GroupsNonEmpty | analyze.py:88-91 | No group is empty. |
| Grouping.SelectedHas | analyze.py:88-91 | A record's key selects at least that record's value. |
| Grouping.AnyOrderIsAGrouping | analyze.py:93-105 | Whatever order Python iterates the dictionary in, the result is the same correct grouping. |
| Grouping.ArrangeKeepsLists | analyze.py:93-105 | Iterating in another order keeps the distinct keys, the key set and the list under every key. |
| Names.CleanName | analyze.py:93 | A display name holds no dot and is a suffix of the key. If the key has a dot, the display name is exactly what follows its last dot; otherwise it is the whole key. |
| Names.LastPart | analyze.py:93 | The last piece of a split at one character is the suffix after the last occurrence, or the whole text when the character is absent. |
| Names.CleanNameIdempotent | analyze.py:93 | Cleaning a display name again changes nothing. |
| Names.CleanQualified | analyze.py:93 | `package.Simple` is shown as `Simple`. |
| Names.Width | analyze.py:94 | An empty list raises `ValueError`. Otherwise the width is at least every name's length and equal to one of them. |
| Names.DisplayNames | analyze.py:93 | Names exist exactly when every key is text; a non-text key raises `AttributeError`. Otherwise the i-th name is the i-th key cleaned. |
| Report.PairsFrom | analyze.py:113 | Every pair has positions in range with the first below the second. Every such pair is listed, in strictly increasing lexicographic order. |
| Report.Pairs | analyze.py:113 | Every pair listed has its first position below its second and both below `k`. Every such pair is listed, in strictly increasing lexicographic order. |
| Report.PairsListsEachPairOnce | analyze.py:113 | A pair is listed exactly when `0 <= a < b < k`. The pairs are listed once each, in lexicographic order. |
| Report.PairsFromCount | analyze.py:113-114 | With `m` positions left, there are m·(m-1)/2 pairs. |
| Report.PairCount | analyze.py:114 | `ncomp` is k·(k-1)/2. |
| Report.Rows | analyze.py:119-124 | Each pair's row holds both display names, the formatted p-value and the reject flag at the pair's position. A list too short for a position raises `IndexError`. |
| Report.Table | analyze.py:116-124 | The table succeeds exactly when there is a p-value and a reject flag for every pair; otherwise it raises `IndexError`. It holds the header, then row `pp+1` for pair `pp`. |
| Report.TableComparesEveryPair | analyze.py:113-124 | Every pair of groups is compared in some row, with the group earlier in the dictionary's order first. |
| Report.TableSize | analyze.py:113-124 | The table has k·(k-1)/2 comparison rows under the header. |
| Analysis.KeyListIsKeys | analyze.py:93 | `results.keys()` holds exactly the dictionary's keys, and each once when the keys are distinct. |
| Analysis.Present | analyze.py:94-124 | An empty dictionary fails in `max`. Otherwise the summary succeeds exactly when there are enough p-values and reject flags. It then carries the width (an attained upper bound on the names) and the table. |
| Analysis.Summarize | analyze.py:93-124 | The first failure wins: a non-text key (`AttributeError`), then an empty dictionary (`ValueError`), then too few p-values or flags. On success the i-th name is the i-th key cleaned, the width bounds them all and is attained, and the table is built from those names. |
| Analysis.KeyNames | analyze.py:93 | Display names exist exactly when every key is text, and the i-th one cleans the i-th group's key. |
| Analysis.Analyze | analyze.py:73-124 | Records need only reach both columns. The columns are found at their positions. The groups are a correct grouping of the records with as many values as records. No records means `ValueError` from `max`. On success the table has one row per pair under its header. |

## Left out

- Reading the file, argument parsing, `arff.load`, every `print`, `raw_input`, `tabulate` and `np.savetxt` (lines 15-30, 46-63, 65-66, 68-71, 95-100, 103, 106, 111, 126-129) are I/O. Line 64 prints each attribute's 1-based number; the numeral it prints is `Selection.Decimal`, and the rest of that line is I/O. The raw text and the typed selection line are parameters.
- The mean and standard deviation, `stats.f_oneway` and `nemenyi.kw_nemenyi` (lines 97-109) are floating point and foreign code. The corrected p-values and the reject flags are inputs of `Analysis.Analyze`.
- `'%.3f' % p` (line 124) is floating-point formatting. It is the parameter `format`.
- The selected attributes are only printed (lines 68-70) and are not used by the analysis. The `IndexError` that printing an out-of-range index would raise is not modelled.
- Analysis.Analyze: requires both column names to occur among the attributes, each once; other names may repeat. With a column missing, the source indexes `record[-1]`, Python's last field, and that case is not modelled. With a column name repeated, the scan's last-seen position is described by `Columns.LocateColumns` alone.
- Analysis.Analyze: requires every record to reach both columns. A shorter record makes lines 89-90 raise `IndexError`, which is not modelled.
- Analysis.Analyze: the dictionary's iteration order is fixed to first appearance. Python 2 leaves it unspecified. `Grouping.AnyOrderIsAGrouping` shows that every other order is the same grouping, and every property of the table holds for whatever order it is given.
- Text.Split: only non-empty separators are modelled. The script only splits at `'\n'`, `','` and `'.'`.
- Exceptions caught around `arff.load` (lines 46-55) belong to the parser, which is not part of this model.
