/** The analysis from the parsed file to the comparison table: locate the
    two columns, group the accuracies by classifier, name the classifiers
    and build the table of pairwise comparisons.

    The statistics are not computed here.  The corrected p-values and the
    reject flags of the post-hoc test come in as given sequences, one entry
    per pair of groups in the order the pairs are listed, and `format`
    stands for the `'%.3f'` rendering of a p-value.
 */
module Analysis {
  import opened Results
  import opened Columns
  import opened Grouping
  import opened Names
  import opened Report

  /** What the report shows: the display name of each group, the width of
      the name column and the comparison table. */
  datatype Summary<R> = Summary(names: seq<string>, width: nat, table: seq<Line<R>>)

  /** The keys of a dictionary in its iteration order (`results.keys()`). */
  function KeyList<K, V>(groups: Groups<K, V>): (r: seq<K>)
    ensures |r| == |groups|
    ensures forall i :: 0 <= i < |r| ==> r[i] == groups[i].0
  {
    seq(|groups|, i requires 0 <= i < |groups| => groups[i].0)
  }

  /** The key list holds exactly the dictionary's keys, each once when the
      keys are distinct. */
  lemma KeyListIsKeys<K, V>(groups: Groups<K, V>)
    ensures forall x :: x in KeyList(groups) <==> x in Keys(groups)
    ensures DistinctKeys(groups) ==>
      forall i, j :: 0 <= i < j < |KeyList(groups)| ==> KeyList(groups)[i] != KeyList(groups)[j]
  {
    var r := KeyList(groups);
    forall x | x in Keys(groups) ensures x in r {
      var i :| 0 <= i < |groups| && groups[i].0 == x;
      assert r[i] == x;
    }
  }

  /** Every key is text, so that it has a display name. */
  predicate TextKeys<V>(groups: Groups<Field<V>, Field<V>>)
  {
    forall i :: 0 <= i < |groups| ==> groups[i].0.Text?
  }

  /** The width of the name column and the comparison table for the
      display names of the groups: an empty dictionary fails first, in
      `max`, and too few p-values or reject flags fail in the table. */
  function Present<P, R>(names: seq<string>, pValues: seq<P>, rejects: seq<R>,
                         format: P -> string): (r: Result<Summary<R>, Error>)
    ensures |names| == 0 ==> r == Failure(ValueError("max() arg is an empty sequence"))
    ensures |names| > 0 ==>
      (r.Success? <==> |Pairs(|names|)| <= |pValues| && |Pairs(|names|)| <= |rejects|)
    ensures r.Success? ==>
      && r.value.names == names
      && (forall i :: 0 <= i < |names| ==> |names[i]| <= r.value.width)
      && (exists i :: 0 <= i < |names| && |names[i]| == r.value.width)
      && Table(names, pValues, rejects, format) == Success(r.value.table)
  {
    match Width(names)
    case Failure(e) => Failure(e)
    case Success(width) =>
      match Table(names, pValues, rejects, format)
      case Failure(e) => Failure(e)
      case Success(table) => Success(Summary(names, width, table))
  }

  /** Everything after the grouping.  The names, the width and the table
      are all taken in the dictionary's single iteration order, so the i-th
      display name belongs to the i-th group, whose values are the i-th
      input of the statistics.  The first failure wins: a key that is not
      text, then an empty dictionary, then too few p-values or reject flags. */
  function Summarize<V, P, R>(groups: Groups<Field<V>, Field<V>>, pValues: seq<P>, rejects: seq<R>,
                              format: P -> string): (r: Result<Summary<R>, Error>)
    ensures r.Success? ==>
      && |r.value.names| == |groups|
      && (forall i :: 0 <= i < |groups| ==>
            groups[i].0.Text? && r.value.names[i] == CleanName(groups[i].0.text))
      && (forall i :: 0 <= i < |groups| ==> |r.value.names[i]| <= r.value.width)
      && (exists i :: 0 <= i < |groups| && |r.value.names[i]| == r.value.width)
      && Table(r.value.names, pValues, rejects, format) == Success(r.value.table)
    ensures !TextKeys(groups) ==> r == Failure(AttributeError)
    ensures TextKeys(groups) && |groups| == 0 ==>
      r == Failure(ValueError("max() arg is an empty sequence"))
    ensures TextKeys(groups) && |groups| > 0 ==>
      (r.Success? <==> |Pairs(|groups|)| <= |pValues| && |Pairs(|groups|)| <= |rejects|)
  {
    KeyNames(groups);
    match DisplayNames(KeyList(groups))
    case Failure(e) => Failure(e)
    case Success(names) => Present(names, pValues, rejects, format)
  }

  /** The display names of a dictionary's keys exist exactly when every key
      is text, and then the i-th one cleans the i-th key. */
  lemma KeyNames<V>(groups: Groups<Field<V>, Field<V>>)
    ensures DisplayNames(KeyList(groups)).Success? <==> TextKeys(groups)
    ensures DisplayNames(KeyList(groups)).Failure? ==> DisplayNames(KeyList(groups)).error == AttributeError
    ensures DisplayNames(KeyList(groups)).Success? ==>
      var names := DisplayNames(KeyList(groups)).value;
      && |names| == |groups|
      && forall i :: 0 <= i < |groups| ==> groups[i].0.Text? && names[i] == CleanName(groups[i].0.text)
  {
    var keys := KeyList(groups);
    assert forall i :: 0 <= i < |groups| ==> keys[i] == groups[i].0;
  }

  /** The whole analysis on a parsed file: the attribute names and the
      records.  The grouping it builds is returned alongside the summary.
      The columns must be found, because a missing column would make
      `record[-1]` read the last field instead; neither column name may occur
      twice, for the scan to find each column at its own position.  Every
      record must reach both columns, which is all the loop indexes. */
  method Analyze<V(==, !new), P, R>(attributes: seq<string>, records: seq<seq<Field<V>>>,
                                    pValues: seq<P>, rejects: seq<R>, format: P -> string)
    returns (groups: Groups<Field<V>, Field<V>>, r: Result<Summary<R>, Error>)
    requires WantedOnce(attributes)
    requires AccuracyColumn in attributes && SchemeColumn in attributes
    requires forall k :: 0 <= k < |records| ==>
      IndexOf(attributes, SchemeColumn) < |records[k]| && IndexOf(attributes, AccuracyColumn) < |records[k]|
    ensures var key := IndexOf(attributes, SchemeColumn);
            var value := IndexOf(attributes, AccuracyColumn);
      && 0 <= key && 0 <= value
      && ValidColumns(records, key, value)
      && IsGrouping(groups, records, key, value)
    ensures TotalSize(groups) == |records|
    ensures |records| == 0 ==> r == Failure(ValueError("max() arg is an empty sequence"))
    ensures r == Summarize(groups, pValues, rejects, format)
    ensures r.Success? ==> |r.value.table| == 1 + |Pairs(|groups|)|
  {
    var accuracyIndex, schemeIndex, examined := LocateColumns(attributes);
    assert 0 <= accuracyIndex && 0 <= schemeIndex;
    groups := GroupBy(records, schemeIndex, accuracyIndex);
    GroupSizes(records, schemeIndex, accuracyIndex);
    r := Summarize(groups, pValues, rejects, format);
  }
}
