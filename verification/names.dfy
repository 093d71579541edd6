/** The display names of the classifiers.  A classifier key such as
    `weka.classifiers.trees.J48` is shown by its last dot-separated component,
    and the report's name column is as wide as the longest such name.
 */
module Names {
  import opened Results
  import opened Text

  /** A field of a parsed ARFF record.  A nominal or string attribute yields
      text; a numeric attribute or a missing value yields something that has
      no string methods. */
  datatype Field<V> = Text(text: string) | Other(value: V)

  /** `name.split('.')[-1]`: what follows the last dot, or the whole name when
      there is no dot. */
  function CleanName(name: string): (r: string)
    ensures '.' !in r
    ensures |r| <= |name| && r == name[|name| - |r|..]
    ensures '.' in name ==> |r| < |name| && name[|name| - |r| - 1] == '.'
    ensures '.' !in name ==> r == name
  {
    var parts := Split(name, ".");
    LastPart(name, '.');
    parts[|parts| - 1]
  }

  /** The last part of a split at a one-character separator is the suffix
      after the last separator, or the whole text when the separator is
      absent. */
  lemma LastPart(s: string, c: char)
    ensures var parts := Split(s, [c]); var last := parts[|parts| - 1];
      && c !in last
      && |last| <= |s| && last == s[|s| - |last|..]
      && (c in s ==> |last| < |s| && s[|s| - |last| - 1] == c)
      && (c !in s ==> last == s)
  {
    var parts := Split(s, [c]);
    var last := parts[|parts| - 1];
    SplitRejoins(s, [c]);
    SplitCuts(s, [c]);
    ContainsChar(last, c);
    if |parts| == 1 {
      assert Join([c], parts) == last;
    } else {
      var init := parts[..|parts| - 1];
      assert parts == init + [last];
      JoinSnoc([c], init, last);
      assert s == Join([c], init) + [c] + last;
      assert s[|s| - |last| - 1] == c;
      assert s[|s| - |last|..] == last;
    }
  }

  /** Cleaning is idempotent: a cleaned name has no dot left to cut at. */
  lemma CleanNameIdempotent(name: string)
    ensures CleanName(CleanName(name)) == CleanName(name)
  {
  }

  /** A qualified name loses exactly its package prefix. */
  lemma CleanQualified(prefix: string, simple: string)
    requires '.' !in simple
    ensures CleanName(prefix + "." + simple) == simple
  {
    var name := prefix + "." + simple;
    assert name[|prefix|] == '.';
    assert name[|name| - |simple|..] == simple;
  }

  /** `max([len(name) for name in names])`: the length of the longest name.
      `max` of an empty list raises `ValueError`. */
  function Width(names: seq<string>): (r: Result<nat, Error>)
    ensures r.Failure? <==> |names| == 0
    ensures r.Failure? ==> r.error == ValueError("max() arg is an empty sequence")
    ensures r.Success? ==> forall k :: 0 <= k < |names| ==> |names[k]| <= r.value
    ensures r.Success? ==> exists k :: 0 <= k < |names| && |names[k]| == r.value
  {
    if |names| == 0 then Failure(ValueError("max() arg is an empty sequence"))
    else if |names| == 1 then Success(|names[0]|)
    else
      var rest := Width(names[1..]).value;
      assert forall k :: 1 <= k < |names| ==> names[k] == names[1..][k - 1];
      if |names[0]| >= rest then Success(|names[0]|) else Success(rest)
  }

  /** The cleaned names of the classifier keys, in the dictionary's order.
      A key that is not text has no `split`, which raises `AttributeError`. */
  function DisplayNames<V>(keys: seq<Field<V>>): (r: Result<seq<string>, Error>)
    ensures r.Success? <==> forall k :: 0 <= k < |keys| ==> keys[k].Text?
    ensures r.Failure? ==> r.error == AttributeError
    ensures r.Success? ==> |r.value| == |keys|
    ensures r.Success? ==> forall k :: 0 <= k < |keys| ==> r.value[k] == CleanName(keys[k].text)
  {
    if |keys| == 0 then Success([])
    else
      match keys[0]
      case Other(_) => Failure(AttributeError)
      case Text(name) =>
        match DisplayNames(keys[1..])
        case Failure(e) => Failure(e)
        case Success(rest) => Success([CleanName(name)] + rest)
  }
}
