/** The comparison table at the end of the report.  The groups are compared
    pairwise: `combinations(range(k), 2)` lists every pair of group positions
    `(i, j)` with `i < j` in lexicographic order, and the table holds a header
    followed by one row per pair with both display names, the formatted
    corrected p-value and the reject flag at that pair's position.
 */
module Report {
  import opened Results

  /** The pairs `(i, j)` with `i < j < k`, in increasing `j`. */
  function Row(i: nat, k: nat): (r: seq<(nat, nat)>)
    ensures |r| == if i < k then k - i - 1 else 0
    ensures forall t :: 0 <= t < |r| ==> r[t] == (i, i + 1 + t)
  {
    seq(if i < k then k - i - 1 else 0, t requires t >= 0 => (i, i + 1 + t))
  }

  /** The pairs whose first position is at least `i`, in lexicographic order. */
  function PairsFrom(i: nat, k: nat): (r: seq<(nat, nat)>)
    ensures forall t :: 0 <= t < |r| ==> i <= r[t].0 < r[t].1 < k
    ensures forall a, b :: i <= a < b < k ==> (a, b) in r
    ensures forall s, t :: 0 <= s < t < |r| ==> Before(r[s], r[t])
    decreases k - i
  {
    if i >= k then []
    else
      var row := Row(i, k);
      var rest := PairsFrom(i + 1, k);
      forall a, b | i <= a < b < k ensures (a, b) in row + rest {
        if a == i {
          assert row[b - i - 1] == (a, b);
        } else {
          assert (a, b) in rest;
        }
      }
      row + rest
  }

  /** Strict lexicographic order on pairs. */
  predicate Before(p: (nat, nat), q: (nat, nat))
  {
    p.0 < q.0 || (p.0 == q.0 && p.1 < q.1)
  }

  /** `tuple(combinations(range(k), 2))`. */
  function Pairs(k: nat): (r: seq<(nat, nat)>)
    ensures forall t :: 0 <= t < |r| ==> r[t].0 < r[t].1 < k
    ensures forall a, b :: 0 <= a < b < k ==> (a, b) in r
    ensures forall s, t :: 0 <= s < t < |r| ==> Before(r[s], r[t])
  {
    PairsFrom(0, k)
  }

  /** Every pair of distinct positions below `k` is listed, each once and in
      lexicographic order, and nothing else is listed. */
  lemma PairsListsEachPairOnce(k: nat)
    ensures forall a, b :: (a, b) in Pairs(k) <==> 0 <= a < b < k
    ensures forall s, t :: 0 <= s < t < |Pairs(k)| ==> Before(Pairs(k)[s], Pairs(k)[t])
    ensures forall s, t :: 0 <= s < t < |Pairs(k)| ==> Pairs(k)[s] != Pairs(k)[t]
  {
    var ps := Pairs(k);
    forall a, b | (a, b) in ps ensures 0 <= a < b < k {
      var t :| 0 <= t < |ps| && ps[t] == (a, b);
    }
  }

  /** The number of pairs starting at `i` or later. */
  lemma {:induction false} PairsFromCount(i: nat, k: nat)
    requires i <= k
    ensures 2 * |PairsFrom(i, k)| == (k - i) * (k - i - 1)
    decreases k - i
  {
    if i < k {
      PairsFromCount(i + 1, k);
    }
  }

  /** `ncomp`: there are k·(k-1)/2 pairs. */
  lemma PairCount(k: nat)
    ensures 2 * |Pairs(k)| == k * (k - 1)
  {
    PairsFromCount(0, k);
  }

  /** A line of the comparison table: the header, or a comparison of two
      groups with the formatted p-value and the reject flag. */
  datatype Line<R> =
    | Header(labels: seq<string>)
    | Comparison(first: string, second: string, pValue: string, reject: R)

  const Labels: seq<string> := ["A", "B", "p-value", "reject"]

  /** The rows for the pairs `pairs[from..]`.  Each pair's position in the
      list selects its p-value and reject flag; a list of p-values or reject
      flags too short for that position raises `IndexError`. */
  function Rows<P, R>(names: seq<string>, pairs: seq<(nat, nat)>, from: nat,
                      pValues: seq<P>, rejects: seq<R>, format: P -> string)
    : (r: Result<seq<Line<R>>, Error>)
    requires from <= |pairs|
    requires forall t :: 0 <= t < |pairs| ==> pairs[t].0 < |names| && pairs[t].1 < |names|
    ensures r.Success? <==> from == |pairs| || (|pairs| <= |pValues| && |pairs| <= |rejects|)
    ensures r.Failure? ==> r.error == IndexError
    ensures r.Success? ==> |r.value| == |pairs| - from
    ensures r.Success? ==> forall t :: from <= t < |pairs| ==>
      r.value[t - from] == Comparison(names[pairs[t].0], names[pairs[t].1], format(pValues[t]), rejects[t])
    decreases |pairs| - from
  {
    if from == |pairs| then Success([])
    else if from >= |pValues| || from >= |rejects| then Failure(IndexError)
    else
      var (i, j) := pairs[from];
      match Rows(names, pairs, from + 1, pValues, rejects, format)
      case Failure(e) => Failure(e)
      case Success(rest) =>
        Success([Comparison(names[i], names[j], format(pValues[from]), rejects[from])] + rest)
  }

  /** The table: the header, then one row per pair of groups.  Row `pp + 1`
      compares the groups of the pp-th pair and carries the pp-th p-value and
      reject flag.  There must be a p-value and a reject flag for every pair. */
  function Table<P, R>(names: seq<string>, pValues: seq<P>, rejects: seq<R>, format: P -> string)
    : (r: Result<seq<Line<R>>, Error>)
    ensures var n := |Pairs(|names|)|;
      r.Success? <==> n <= |pValues| && n <= |rejects|
    ensures r.Failure? ==> r.error == IndexError
    ensures r.Success? ==> |r.value| == 1 + |Pairs(|names|)| && r.value[0] == Header(Labels)
    ensures r.Success? ==> forall pp :: 0 <= pp < |Pairs(|names|)| ==>
      var (i, j) := Pairs(|names|)[pp];
      r.value[pp + 1] == Comparison(names[i], names[j], format(pValues[pp]), rejects[pp])
  {
    var pairs := Pairs(|names|);
    match Rows(names, pairs, 0, pValues, rejects, format)
    case Failure(e) => Failure(e)
    case Success(rows) => Success([Header(Labels)] + rows)
  }

  /** Every pair of groups is compared in some row, with the group that comes
      first in the dictionary's order in the first column. */
  lemma TableComparesEveryPair<P, R>(names: seq<string>, pValues: seq<P>, rejects: seq<R>,
                                     format: P -> string, a: nat, b: nat)
    requires a < b < |names|
    requires Table(names, pValues, rejects, format).Success?
    ensures var rows := Table(names, pValues, rejects, format).value;
      exists pp :: 1 <= pp < |rows| && rows[pp].Comparison?
                   && rows[pp].first == names[a] && rows[pp].second == names[b]
  {
    var pairs := Pairs(|names|);
    PairsListsEachPairOnce(|names|);
    assert (a, b) in pairs;
    var t :| 0 <= t < |pairs| && pairs[t] == (a, b);
    var rows := Table(names, pValues, rejects, format).value;
    assert rows[t + 1].first == names[a];
  }

  /** The table has one line more than there are pairs: with `k` groups,
      k·(k-1)/2 comparisons under the header. */
  lemma TableSize<P, R>(names: seq<string>, pValues: seq<P>, rejects: seq<R>, format: P -> string)
    requires Table(names, pValues, rejects, format).Success?
    ensures 2 * (|Table(names, pValues, rejects, format).value| - 1) == |names| * (|names| - 1)
  {
    PairCount(|names|);
  }
}
