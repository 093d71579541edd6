/** The comma repair the `-f` flag turns on: before the file is parsed, the
    value declared for the `Key_Dataset` attribute is looked up in the raw text
    and every occurrence of it, anywhere in the text, is replaced by the same
    value with its commas deleted.
 */
module Repair {
  import opened Results
  import opened Text

  /** The attribute whose declared value may hold commas. */
  const DatasetKey: string := "Key_Dataset"

  /** The index of the first line that contains `w`, if any line does. */
  function FirstLineWith(lines: seq<string>, w: string): (r: Option<nat>)
    ensures r.None? <==> forall k :: 0 <= k < |lines| ==> !Contains(lines[k], w)
    ensures r.Some? ==> r.value < |lines| && Contains(lines[r.value], w)
    ensures r.Some? ==> forall k :: 0 <= k < r.value ==> !Contains(lines[k], w)
  {
    if |lines| == 0 then None
    else if Find(lines[0], w) > -1 then Some(0)
    else
      match FirstLineWith(lines[1..], w)
      case None => None
      case Some(k) => Some(k + 1)
  }

  /** The value declared on a `Key_Dataset` line: the text from just after the
      first `{` up to, but excluding, the character before the first `}`,
      with surrounding whitespace and then surrounding single quotes removed.
      Missing braces make `find` return -1, and the slice then follows
      Python's rules for negative bounds. */
  function DatasetValue(line: string): (v: string)
    ensures |v| > 0 ==> v[0] != '\'' && v[|v| - 1] != '\''
  {
    var start := Find(line, "{");
    var end := Find(line, "}");
    Strip(Strip(Slice(line, start + 1, end - 1), Whitespace), {'\''})
  }

  /** `find` of a character returns its first position. */
  lemma FindChar(s: string, c: char, i: int)
    requires 0 <= i < |s| && s[i] == c
    requires forall k :: 0 <= k < i ==> s[k] != c
    ensures Find(s, [c]) == i
  {
    assert s[i..i + 1] == [c];
    assert OccursAt(s, [c], i);
    assert Contains(s, [c]);
    forall j | 0 <= j < i ensures !OccursAt(s, [c], j) {
      assert s[j..j + 1][0] == s[j];
    }
  }

  /** On a well-formed declaration `pre{body}post`, where `pre` holds no brace
      and `body` no closing brace, the value is `body` without its last
      character, stripped of whitespace and then of single quotes. */
  lemma DatasetValueOfDeclaration(pre: string, body: string, post: string)
    requires '{' !in pre && '}' !in pre && '}' !in body && |body| >= 1
    ensures DatasetValue(pre + "{" + body + "}" + post)
         == Strip(Strip(body[..|body| - 1], Whitespace), {'\''})
  {
    var line := pre + "{" + body + "}" + post;
    BracedSlice(pre, body, post);
    assert Slice(line, Find(line, "{") + 1, Find(line, "}") - 1) == body[..|body| - 1];
  }

  /** On a line with no braces at all both `find` calls return -1, so the
      slice runs from the start to two characters before the end: the value
      is the line without its last two characters, stripped as usual. */
  lemma DatasetValueWithoutBraces(line: string)
    requires '{' !in line && '}' !in line
    ensures DatasetValue(line)
         == Strip(Strip(if |line| >= 2 then line[..|line| - 2] else [], Whitespace), {'\''})
  {
    ContainsChar(line, '{');
    ContainsChar(line, '}');
    assert Find(line, "{") == -1 && Find(line, "}") == -1;
  }

  /** The slice `DatasetValue` takes from `pre{body}post`. */
  lemma BracedSlice(pre: string, body: string, post: string)
    requires '{' !in pre && '}' !in pre && '}' !in body && |body| >= 1
    ensures var line := pre + "{" + body + "}" + post;
      Slice(line, Find(line, "{") + 1, Find(line, "}") - 1) == body[..|body| - 1]
  {
    var line := pre + "{" + body + "}" + post;
    BracePositions(pre, body, post);
    var lo, hi := |pre| + 1, |pre| + |body|;
    assert Slice(line, lo, hi) == line[lo..hi];
    assert line[lo..hi] == body[..|body| - 1];
  }

  /** Where `find` sees the braces of `pre{body}post`. */
  lemma BracePositions(pre: string, body: string, post: string)
    requires '{' !in pre && '}' !in pre && '}' !in body
    ensures var line := pre + "{" + body + "}" + post;
      Find(line, "{") == |pre| && Find(line, "}") == |pre| + 1 + |body|
  {
    var line := pre + "{" + body + "}" + post;
    assert line[|pre|] == '{';
    assert forall k :: 0 <= k < |pre| ==> line[k] == pre[k];
    FindChar(line, '{', |pre|);
    assert forall k :: 0 <= k < |pre| + 1 + |body| ==> line[k] != '}' by {
      forall k | 0 <= k < |pre| + 1 + |body| ensures line[k] != '}' {
        if k < |pre| {
          assert line[k] == pre[k];
        } else if k > |pre| {
          assert line[k] == body[k - |pre| - 1];
        }
      }
    }
    FindChar(line, '}', |pre| + 1 + |body|);
  }

  /** The value the repair works on: the declared value on the first line of
      the text that mentions `Key_Dataset`.  There is none exactly when the
      text never mentions `Key_Dataset`. */
  function RepairValue(text: string): (r: Option<string>)
    ensures r.None? <==> !Contains(text, DatasetKey)
    ensures r.Some? ==> |r.value| > 0 ==> r.value[0] != '\'' && r.value[|r.value| - 1] != '\''
  {
    var lines := Split(text, "\n");
    SplitRejoins(text, "\n");
    ContainsInJoin(lines, '\n', DatasetKey);
    match FirstLineWith(lines, DatasetKey)
    case None => None
    case Some(k) => Some(DatasetValue(lines[k]))
  }

  /** When the text is a sequence of lines, the value is the declared value
      on the first line that mentions `Key_Dataset`; later lines are not
      looked at. */
  lemma RepairValueOfFirstLine(lines: seq<string>, k: nat)
    requires forall j :: 0 <= j < |lines| ==> '\n' !in lines[j]
    requires k < |lines| && Contains(lines[k], DatasetKey)
    requires forall j :: 0 <= j < k ==> !Contains(lines[j], DatasetKey)
    ensures RepairValue(Join("\n", lines)) == Some(DatasetValue(lines[k]))
  {
    SplitJoin(lines, '\n');
    assert Split(Join("\n", lines), "\n") == lines;
    var first := FirstLineWith(lines, DatasetKey);
    assert first.Some?;
    assert first.value == k;
  }

  /** The repaired text.  Without a `Key_Dataset` line the script reads
      `dataset_str` before ever binding it.  Otherwise the text is cut at the
      left-to-right occurrences of the value; the pieces between them stay as
      they are and the occurrences become the value without commas. */
  function RepairText(text: string): (r: Result<string, Error>)
    ensures r.Failure? <==> !Contains(text, DatasetKey)
    ensures r.Failure? ==> r.error == UnboundLocalError("dataset_str")
    ensures r.Success? ==>
      var value := RepairValue(text).value;
      var cleaned := Replace(value, ",", "");
      && ',' !in cleaned
      && (|value| > 0 ==> r.value == Join(cleaned, Split(text, value)))
      && (',' !in value ==> r.value == text)
  {
    match RepairValue(text)
    case None => Failure(UnboundLocalError("dataset_str"))
    case Some(value) =>
      DeleteChar(value, ',');
      Success(ReplaceValue(text, value))
  }

  /** Every occurrence of `value` in the text, found left to right, replaced
      by `value` with its commas deleted.  The text between the occurrences
      is kept, and a value without commas leaves the text as it was. */
  function ReplaceValue(text: string, value: string): (r: string)
    ensures |value| > 0 ==> r == Join(Replace(value, ",", ""), Split(text, value))
    ensures ',' !in value ==> r == text
  {
    var cleaned := Replace(value, ",", "");
    DeleteChar(value, ',');
    ReplaceBySelf(text, value);
    if |value| > 0 then
      ReplaceIsSplitJoin(text, value, cleaned);
      Replace(text, value, cleaned)
    else
      Replace(text, value, cleaned)
  }

  /** The text handed to the parser: repaired when the `-f` flag is given,
      untouched otherwise. */
  function PrepareText(text: string, clean: bool): (r: Result<string, Error>)
    ensures r.Failure? <==> clean && !Contains(text, DatasetKey)
    ensures r.Success? && (!clean || ',' !in RepairValue(text).value) ==> r.value == text
    ensures clean && r.Success? ==> r.value == ReplaceValue(text, RepairValue(text).value)
  {
    if clean then RepairText(text) else Success(text)
  }

  /** The case the repair exists for: a value written in single quotes
      inside the braces, `pre{'value'}post`, comes out as the bare value,
      commas included, provided it neither starts nor ends with whitespace or
      a quote. */
  lemma QuotedDatasetValue(pre: string, value: string, post: string)
    requires '{' !in pre && '}' !in pre && '}' !in value
    requires |value| >= 1
    requires value[0] !in Whitespace && value[0] != '\''
    requires value[|value| - 1] !in Whitespace && value[|value| - 1] != '\''
    ensures DatasetValue(pre + "{'" + value + "'}" + post) == value
  {
    var body := "'" + value + "'";
    assert pre + "{'" + value + "'}" + post == pre + "{" + body + "}" + post;
    assert body[..|body| - 1] == "'" + value;
    DatasetValueOfDeclaration(pre, body, post);
    StripOpeningQuote(value);
  }

  /** A value after an opening quote strips back to the value. */
  lemma StripOpeningQuote(value: string)
    requires |value| >= 1
    requires value[0] !in Whitespace && value[0] != '\''
    requires value[|value| - 1] !in Whitespace && value[|value| - 1] != '\''
    ensures Strip(Strip("'" + value, Whitespace), {'\''}) == value
  {
    var quoted := "'" + value;
    var quote := {'\''};
    assert quoted[0] !in Whitespace;
    assert quoted[|quoted| - 1] == value[|value| - 1];
    StripUntouched(quoted, Whitespace);
    assert quoted[1..] == value;
    assert Strip(quoted, quote) == Strip(value, quote);
    StripUntouched(value, quote);
  }
}
