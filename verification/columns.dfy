/** Locating the two columns the analysis needs: the accuracy of a run
    (`Percent_correct`) and the classifier that produced it (`Key_Scheme`).
    The attribute names are scanned in order with -1 as the "not found"
    value, and the scan stops as soon as two hits have been counted.
 */
module Columns {

  const AccuracyColumn: string := "Percent_correct"
  const SchemeColumn: string := "Key_Scheme"

  /** A name the scan counts as a hit. */
  predicate IsWanted(name: string)
  {
    name == AccuracyColumn || name == SchemeColumn
  }

  /** Neither column name occurs twice; any other name may repeat. */
  predicate WantedOnce(names: seq<string>)
  {
    forall i, j :: 0 <= i < j < |names| && IsWanted(names[i]) ==> names[i] != names[j]
  }

  /** How many of the first `n` names are hits. */
  function HitsBefore(names: seq<string>, n: nat): (h: nat)
    requires n <= |names|
    ensures h <= n
  {
    if n == 0 then 0
    else HitsBefore(names, n - 1) + (if IsWanted(names[n - 1]) then 1 else 0)
  }

  /** `name` is among the first `n` names. */
  predicate SeenBefore(names: seq<string>, n: nat, name: string)
    requires n <= |names|
  {
    exists k :: 0 <= k < n && names[k] == name
  }

  /** The position of the first `name` in `names`, or -1 when it is absent. */
  function IndexOf(names: seq<string>, name: string): (r: int)
    ensures -1 <= r < |names|
    ensures r == -1 <==> name !in names
    ensures r >= 0 ==> names[r] == name && forall k :: 0 <= k < r ==> names[k] != name
  {
    if |names| == 0 then -1
    else if names[0] == name then 0
    else
      var r := IndexOf(names[1..], name);
      if r == -1 then -1 else r + 1
  }

  /** The position of the last `name` among the first `n` names, or -1 when
      it is not among them. */
  function LastBefore(names: seq<string>, n: nat, name: string): (r: int)
    requires n <= |names|
    ensures -1 <= r < n
    ensures r == -1 <==> !SeenBefore(names, n, name)
    ensures r >= 0 ==> names[r] == name && forall k :: r < k < n ==> names[k] != name
  {
    if n == 0 then -1
    else if names[n - 1] == name then n - 1
    else LastBefore(names, n - 1, name)
  }

  /** When the column names occur once, the last position of a column name
      seen before `n` is its only position. */
  lemma LastIsFirst(names: seq<string>, n: nat, name: string)
    requires WantedOnce(names) && IsWanted(name) && n <= |names|
    requires SeenBefore(names, n, name) || n == |names|
    ensures LastBefore(names, n, name) == IndexOf(names, name)
  {
    var last := LastBefore(names, n, name);
    if last != -1 {
      WantedPositions(names, last, IndexOf(names, name));
    }
  }

  /** When the column names occur once, two positions holding the same
      column name are the same position. */
  lemma WantedPositions(names: seq<string>, i: int, j: int)
    requires WantedOnce(names) && 0 <= i < |names| && 0 <= j < |names|
    requires IsWanted(names[i]) && names[i] == names[j]
    ensures i == j
  {
  }

  /** When the column names occur once, the hits are the column names that
      were seen. */
  lemma {:induction false} HitsAreSeen(names: seq<string>, n: nat)
    requires WantedOnce(names) && n <= |names|
    ensures HitsBefore(names, n) == (if SeenBefore(names, n, AccuracyColumn) then 1 else 0)
                                  + (if SeenBefore(names, n, SchemeColumn) then 1 else 0)
    decreases n
  {
    if n > 0 {
      HitsAreSeen(names, n - 1);
      SeenStep(names, n - 1, AccuracyColumn);
      SeenStep(names, n - 1, SchemeColumn);
    }
  }

  /** Seeing one more name: a column name is seen if it was seen already or
      is the new one, and when the column names occur once, the new one was
      not seen before. */
  lemma SeenStep(names: seq<string>, n: nat, name: string)
    requires WantedOnce(names) && IsWanted(name) && n < |names|
    ensures SeenBefore(names, n + 1, name) <==> SeenBefore(names, n, name) || names[n] == name
    ensures names[n] == name ==> !SeenBefore(names, n, name)
  {
    if SeenBefore(names, n + 1, name) && names[n] != name {
      var k :| 0 <= k < n + 1 && names[k] == name;
      assert k < n;
    }
  }

  /** The column scan.  `examined` is how many names were looked at before
      the scan ended.  It stops right after the second hit, or at the end of
      the names; each index is the last position where its name was seen
      among the examined names, or -1.  When neither column name occurs twice
      that is simply the position of each name, or -1 when it is absent. */
  method LocateColumns(names: seq<string>) returns (accuracyIndex: int, schemeIndex: int, examined: nat)
    ensures examined <= |names|
    ensures examined < |names| ==> HitsBefore(names, examined) == 2
    ensures examined > 0 ==> HitsBefore(names, examined - 1) < 2
    ensures accuracyIndex == LastBefore(names, examined, AccuracyColumn)
    ensures schemeIndex == LastBefore(names, examined, SchemeColumn)
    ensures WantedOnce(names) ==> accuracyIndex == IndexOf(names, AccuracyColumn)
    ensures WantedOnce(names) ==> schemeIndex == IndexOf(names, SchemeColumn)
  {
    accuracyIndex := -1;
    schemeIndex := -1;
    var done := 0;
    var i := 0;
    while i < |names| && done < 2
      invariant 0 <= i <= |names|
      invariant done == HitsBefore(names, i)
      invariant i > 0 ==> HitsBefore(names, i - 1) < 2
      invariant accuracyIndex == LastBefore(names, i, AccuracyColumn)
      invariant schemeIndex == LastBefore(names, i, SchemeColumn)
    {
      if names[i] == AccuracyColumn {
        accuracyIndex := i;
        done := done + 1;
      } else if names[i] == SchemeColumn {
        schemeIndex := i;
        done := done + 1;
      }
      i := i + 1;
    }
    examined := i;
    if WantedOnce(names) {
      LocatedAreFirst(names, examined);
    }
  }

  /** When neither column name occurs twice, the positions seen among the
      examined names are the positions in the whole list. */
  lemma LocatedAreFirst(names: seq<string>, examined: nat)
    requires WantedOnce(names) && examined <= |names|
    requires examined < |names| ==> HitsBefore(names, examined) == 2
    ensures LastBefore(names, examined, AccuracyColumn) == IndexOf(names, AccuracyColumn)
    ensures LastBefore(names, examined, SchemeColumn) == IndexOf(names, SchemeColumn)
  {
    HitsAreSeen(names, examined);
    LastIsFirst(names, examined, AccuracyColumn);
    LastIsFirst(names, examined, SchemeColumn);
  }
}
