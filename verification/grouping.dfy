/** The grouping of records by classifier: a `defaultdict(list)` into which
    every record's accuracy is appended under the record's classifier key.

    A dictionary is modelled as a sequence of `(key, values)` pairs with
    distinct keys.  Position `i` stands for the i-th step of the dictionary's
    iteration order, which `keys()`, `values()` and `iteritems()` share as long
    as the dictionary is not modified.  Python 2 leaves that order unspecified;
    `GroupBy` builds one particular order (first appearance), and `Arrange`
    shows that every other order is an equally good grouping.
 */
module Grouping {

  /** A dictionary from keys to lists of values, in iteration order. */
  type Groups<K, V> = seq<(K, seq<V>)>

  predicate DistinctKeys<K(==), V>(g: Groups<K, V>)
  {
    forall i, j :: 0 <= i < j < |g| ==> g[i].0 != g[j].0
  }

  /** The keys of a dictionary. */
  function Keys<K, V>(g: Groups<K, V>): set<K>
  {
    set i | 0 <= i < |g| :: g[i].0
  }

  /** `results[key]` of a `defaultdict(list)`: the list stored under `key`,
      or the empty list when there is none. */
  function ValuesOf<K(==, !new), V>(g: Groups<K, V>, key: K): (r: seq<V>)
    ensures key !in Keys(g) ==> r == []
    ensures |r| > 0 ==> exists i :: 0 <= i < |g| && g[i].0 == key && g[i].1 == r
  {
    if |g| == 0 then []
    else if g[0].0 == key then g[0].1
    else
      var r := ValuesOf(g[1..], key);
      assert forall i :: 0 <= i < |g[1..]| ==> g[1..][i] == g[i + 1];
      r
  }

  /** Under distinct keys, the list stored at position `i` is the list of its key. */
  lemma {:induction false} ValuesAt<K(!new), V>(g: Groups<K, V>, i: nat)
    requires DistinctKeys(g) && i < |g|
    ensures ValuesOf(g, g[i].0) == g[i].1
    decreases i
  {
    if i > 0 {
      assert g[0].0 != g[i].0;
      assert g[1..][i - 1] == g[i];
      ValuesAt(g[1..], i - 1);
    }
  }

  /** A key that is absent holds the empty list. */
  lemma {:induction false} ValuesOfAbsent<K(!new), V>(g: Groups<K, V>, key: K)
    requires key !in Keys(g)
    ensures ValuesOf(g, key) == []
    decreases |g|
  {
    if |g| > 0 {
      assert g[0].0 in Keys(g);
      assert Keys(g[1..]) <= Keys(g) by {
        forall k | k in Keys(g[1..]) ensures k in Keys(g) {
          var i :| 0 <= i < |g[1..]| && g[1..][i].0 == k;
          assert g[i + 1].0 == k;
        }
      }
      ValuesOfAbsent(g[1..], key);
    }
  }

  /** `r` is `g` after `results[key].append(value)`: the list under `key` (a
      new empty one if the key is new) has gained `value` at its end; every
      other key keeps its list and its position, and a new key goes after
      all existing ones. */
  ghost predicate AppendedTo<K(!new), V>(r: Groups<K, V>, g: Groups<K, V>, key: K, value: V)
  {
    && DistinctKeys(r)
    && Keys(r) == Keys(g) + {key}
    && (forall k :: ValuesOf(r, k) == ValuesOf(g, k) + (if k == key then [value] else []))
    && (key in Keys(g) ==> |r| == |g|)
    && (key !in Keys(g) ==> r == g + [(key, [value])])
    && |g| <= |r|
    && (forall i :: 0 <= i < |g| ==> r[i].0 == g[i].0)
  }

  /** `results[key].append(value)` on a `defaultdict(list)`. */
  function Append<K(==, !new), V>(g: Groups<K, V>, key: K, value: V): (r: Groups<K, V>)
    requires DistinctKeys(g)
    ensures AppendedTo(r, g, key, value)
    decreases |g|
  {
    if |g| == 0 then
      var r := [(key, [value])];
      KeysCons(r);
      assert r[1..] == [];
      r
    else if g[0].0 == key then
      var r := [(key, g[0].1 + [value])] + g[1..];
      KeysCons(g);
      assert r[1..] == g[1..];
      KeysCons(r);
      r
    else
      assert DistinctKeys(g[1..]);
      var rest := Append(g[1..], key, value);
      AppendBehind(g, rest, key, value);
      [g[0]] + rest
  }

  /** Appending under a key other than the first one leaves the first group
      in front of the appended rest. */
  lemma AppendBehind<K(!new), V>(g: Groups<K, V>, rest: Groups<K, V>, key: K, value: V)
    requires DistinctKeys(g) && |g| > 0 && g[0].0 != key
    requires AppendedTo(rest, g[1..], key, value)
    ensures AppendedTo([g[0]] + rest, g, key, value)
  {
    var r := [g[0]] + rest;
    assert r[1..] == rest;
    KeysCons(g);
    KeysCons(r);
    AppendBehindShape(g, rest, key, value);
    AppendBehindDistinct(g, rest, key);
    AppendBehindValues(g, rest, key, value);
  }

  /** The distinct-keys part of `AppendBehind`. */
  lemma AppendBehindDistinct<K, V>(g: Groups<K, V>, rest: Groups<K, V>, key: K)
    requires DistinctKeys(g) && |g| > 0 && g[0].0 != key
    requires DistinctKeys(rest) && Keys(rest) == Keys(g[1..]) + {key}
    ensures DistinctKeys([g[0]] + rest)
  {
    var r := [g[0]] + rest;
    forall i | 0 <= i < |g[1..]| ensures g[1..][i].0 != g[0].0 {
      assert g[1..][i] == g[i + 1];
    }
    forall i, j | 0 <= i < j < |r| ensures r[i].0 != r[j].0 {
      if i == 0 {
        assert r[j].0 == rest[j - 1].0;
        assert rest[j - 1].0 in Keys(rest);
      } else {
        assert r[i] == rest[i - 1] && r[j] == rest[j - 1];
      }
    }
  }

  /** The values part of `AppendBehind`. */
  lemma AppendBehindValues<K(!new), V>(g: Groups<K, V>, rest: Groups<K, V>, key: K, value: V)
    requires |g| > 0 && g[0].0 != key
    requires forall k :: ValuesOf(rest, k) == ValuesOf(g[1..], k) + (if k == key then [value] else [])
    ensures forall k :: ValuesOf([g[0]] + rest, k) == ValuesOf(g, k) + (if k == key then [value] else [])
  {
    var r := [g[0]] + rest;
    assert r[1..] == rest;
    assert r[0] == g[0];
  }

  /** The positions part of `AppendBehind`. */
  lemma AppendBehindShape<K, V>(g: Groups<K, V>, rest: Groups<K, V>, key: K, value: V)
    requires |g| > 0 && g[0].0 != key
    requires |g| - 1 <= |rest| && forall i :: 0 <= i < |g| - 1 ==> rest[i].0 == g[1..][i].0
    requires key !in Keys(g[1..]) ==> rest == g[1..] + [(key, [value])]
    requires key in Keys(g) <==> key in Keys(g[1..])
    ensures key !in Keys(g) ==> [g[0]] + rest == g + [(key, [value])]
    ensures forall i :: 0 <= i < |g| ==> ([g[0]] + rest)[i].0 == g[i].0
  {
    if key !in Keys(g) {
      assert [g[0]] + (g[1..] + [(key, [value])]) == g + [(key, [value])];
    }
  }

  /** The keys of a non-empty dictionary: its first key and the rest. */
  lemma KeysCons<K, V>(g: Groups<K, V>)
    requires |g| > 0
    ensures Keys(g) == {g[0].0} + Keys(g[1..])
  {
    forall k | k in Keys(g) ensures k in {g[0].0} + Keys(g[1..]) {
      var i :| 0 <= i < |g| && g[i].0 == k;
      if i > 0 {
        assert g[1..][i - 1].0 == k;
      }
    }
    forall k | k in Keys(g[1..]) ensures k in Keys(g) {
      var i :| 0 <= i < |g[1..]| && g[1..][i].0 == k;
      assert g[i + 1].0 == k;
    }
  }

  /** Every record can supply both the key field and the value field. */
  predicate ValidColumns<X>(data: seq<seq<X>>, keyIndex: nat, valueIndex: nat)
  {
    forall r :: 0 <= r < |data| ==> keyIndex < |data[r]| && valueIndex < |data[r]|
  }

  /** The distinct key fields of the records. */
  function KeyFields<X>(data: seq<seq<X>>, keyIndex: nat, valueIndex: nat): set<X>
    requires ValidColumns(data, keyIndex, valueIndex)
  {
    set r | 0 <= r < |data| :: data[r][keyIndex]
  }

  /** The value fields of the records whose key field is `key`, in record
      order: the independent reference for what a group must hold. */
  function Selected<X(==, !new)>(data: seq<seq<X>>, keyIndex: nat, valueIndex: nat, key: X): (r: seq<X>)
    requires ValidColumns(data, keyIndex, valueIndex)
    ensures |r| <= |data|
  {
    if |data| == 0 then []
    else
      var last := data[|data| - 1];
      Selected(data[..|data| - 1], keyIndex, valueIndex, key)
        + (if last[keyIndex] == key then [last[valueIndex]] else [])
  }

  /** A correct grouping of `data`: distinct keys, exactly the key fields
      that occur, and under each key its records' values in record order. */
  ghost predicate IsGrouping<X(!new)>(g: Groups<X, X>, data: seq<seq<X>>, keyIndex: nat, valueIndex: nat)
    requires ValidColumns(data, keyIndex, valueIndex)
  {
    && DistinctKeys(g)
    && Keys(g) == KeyFields(data, keyIndex, valueIndex)
    && forall key :: ValuesOf(g, key) == Selected(data, keyIndex, valueIndex, key)
  }

  /** The grouping loop: each record, in order, appends its value field to
      the list under its key field. */
  function GroupBy<X(==, !new)>(data: seq<seq<X>>, keyIndex: nat, valueIndex: nat): (g: Groups<X, X>)
    requires ValidColumns(data, keyIndex, valueIndex)
    ensures IsGrouping(g, data, keyIndex, valueIndex)
  {
    if |data| == 0 then []
    else
      var init := data[..|data| - 1];
      var last := data[|data| - 1];
      assert ValidColumns(init, keyIndex, valueIndex);
      var g := Append(GroupBy(init, keyIndex, valueIndex), last[keyIndex], last[valueIndex]);
      KeyFieldsSnoc(data, keyIndex, valueIndex);
      g
  }

  /** The key fields of the records: those of all but the last, and the last one's. */
  lemma KeyFieldsSnoc<X>(data: seq<seq<X>>, keyIndex: nat, valueIndex: nat)
    requires ValidColumns(data, keyIndex, valueIndex) && |data| > 0
    ensures ValidColumns(data[..|data| - 1], keyIndex, valueIndex)
    ensures KeyFields(data, keyIndex, valueIndex)
         == KeyFields(data[..|data| - 1], keyIndex, valueIndex) + {data[|data| - 1][keyIndex]}
  {
    var init := data[..|data| - 1];
    var last := data[|data| - 1];
    assert ValidColumns(init, keyIndex, valueIndex);
    forall k | k in KeyFields(data, keyIndex, valueIndex)
      ensures k in KeyFields(init, keyIndex, valueIndex) + {last[keyIndex]}
    {
      var r :| 0 <= r < |data| && data[r][keyIndex] == k;
      if r < |data| - 1 {
        assert init[r] == data[r];
      }
    }
    forall k | k in KeyFields(init, keyIndex, valueIndex)
      ensures k in KeyFields(data, keyIndex, valueIndex)
    {
      var r :| 0 <= r < |init| && init[r][keyIndex] == k;
      assert data[r] == init[r];
    }
  }

  /** The total number of values over all groups. */
  function TotalSize<K, V>(g: Groups<K, V>): nat
  {
    if |g| == 0 then 0 else |g[0].1| + TotalSize(g[1..])
  }

  lemma {:induction false} TotalSizeSnoc<K, V>(g: Groups<K, V>, entry: (K, seq<V>))
    ensures TotalSize(g + [entry]) == TotalSize(g) + |entry.1|
    decreases |g|
  {
    if |g| > 0 {
      assert (g + [entry])[1..] == g[1..] + [entry];
      TotalSizeSnoc(g[1..], entry);
    }
  }

  /** Appending one value grows the total by exactly one. */
  lemma {:induction false} AppendSize<K(!new), V>(g: Groups<K, V>, key: K, value: V)
    requires DistinctKeys(g)
    ensures TotalSize(Append(g, key, value)) == TotalSize(g) + 1
    decreases |g|
  {
    if |g| == 0 {
    } else if g[0].0 == key {
      assert Append(g, key, value)[1..] == g[1..];
    } else {
      assert DistinctKeys(g[1..]);
      assert Append(g, key, value)[1..] == Append(g[1..], key, value);
      AppendSize(g[1..], key, value);
    }
  }

  /** Every record lands in exactly one group: the group sizes add up to the
      number of records. */
  lemma {:induction false} GroupSizes<X(!new)>(data: seq<seq<X>>, keyIndex: nat, valueIndex: nat)
    requires ValidColumns(data, keyIndex, valueIndex)
    ensures TotalSize(GroupBy(data, keyIndex, valueIndex)) == |data|
    decreases |data|
  {
    if |data| > 0 {
      var init := data[..|data| - 1];
      var last := data[|data| - 1];
      assert ValidColumns(init, keyIndex, valueIndex);
      GroupSizes(init, keyIndex, valueIndex);
      AppendSize(GroupBy(init, keyIndex, valueIndex), last[keyIndex], last[valueIndex]);
    }
  }

  /** There is one group per distinct key. */
  lemma {:induction false} KeyCount<K, V>(g: Groups<K, V>)
    requires DistinctKeys(g)
    ensures |Keys(g)| == |g|
    decreases |g|
  {
    if |g| > 0 {
      KeysCons(g);
      assert DistinctKeys(g[1..]);
      KeyCount(g[1..]);
    }
  }

  /** The grouping has as many groups as there are distinct key fields. */
  lemma {:induction false} GroupCount<X(!new)>(data: seq<seq<X>>, keyIndex: nat, valueIndex: nat)
    requires ValidColumns(data, keyIndex, valueIndex)
    ensures |GroupBy(data, keyIndex, valueIndex)| == |KeyFields(data, keyIndex, valueIndex)|
  {
    KeyCount(GroupBy(data, keyIndex, valueIndex));
  }

  /** Every group holds at least one value. */
  lemma {:induction false} GroupsNonEmpty<X(!new)>(data: seq<seq<X>>, keyIndex: nat, valueIndex: nat, i: nat)
    requires ValidColumns(data, keyIndex, valueIndex)
    requires i < |GroupBy(data, keyIndex, valueIndex)|
    ensures |GroupBy(data, keyIndex, valueIndex)[i].1| > 0
  {
    var g := GroupBy(data, keyIndex, valueIndex);
    var key := g[i].0;
    ValuesAt(g, i);
    assert key in KeyFields(data, keyIndex, valueIndex);
    var r :| 0 <= r < |data| && data[r][keyIndex] == key;
    SelectedHas(data, keyIndex, valueIndex, r);
  }

  /** A record's key selects at least that record's value. */
  lemma {:induction false} SelectedHas<X(!new)>(data: seq<seq<X>>, keyIndex: nat, valueIndex: nat, r: nat)
    requires ValidColumns(data, keyIndex, valueIndex) && r < |data|
    ensures |Selected(data, keyIndex, valueIndex, data[r][keyIndex])| > 0
    decreases |data|
  {
    if r < |data| - 1 {
      var init := data[..|data| - 1];
      assert ValidColumns(init, keyIndex, valueIndex);
      assert init[r] == data[r];
      SelectedHas(init, keyIndex, valueIndex, r);
    }
  }

  /** `order` lists every position below `n` exactly once. */
  predicate IsPermutation(order: seq<nat>, n: nat)
  {
    && |order| == n
    && (forall k :: 0 <= k < |order| ==> order[k] < n)
    && (forall k, l :: 0 <= k < l < |order| ==> order[k] != order[l])
    && (forall i :: 0 <= i < n ==> i in order)
  }

  /** The same dictionary iterated in another order. */
  function Arrange<K, V>(g: Groups<K, V>, order: seq<nat>): (r: Groups<K, V>)
    requires IsPermutation(order, |g|)
    ensures |r| == |g|
    ensures forall k :: 0 <= k < |r| ==> r[k] == g[order[k]]
  {
    seq(|order|, k requires 0 <= k < |order| => g[order[k]])
  }

  /** Whatever order the dictionary is iterated in, it is the same grouping:
      distinct keys, the same key set and the same list under each key. */
  lemma AnyOrderIsAGrouping<X(!new)>(data: seq<seq<X>>, keyIndex: nat, valueIndex: nat, order: seq<nat>)
    requires ValidColumns(data, keyIndex, valueIndex)
    requires IsPermutation(order, |GroupBy(data, keyIndex, valueIndex)|)
    ensures IsGrouping(Arrange(GroupBy(data, keyIndex, valueIndex), order), data, keyIndex, valueIndex)
  {
    var g := GroupBy(data, keyIndex, valueIndex);
    ArrangeKeepsLists(g, order);
  }

  /** Rearranging a dictionary keeps its keys and the list under each key. */
  lemma ArrangeKeepsLists<K(!new), V>(g: Groups<K, V>, order: seq<nat>)
    requires DistinctKeys(g) && IsPermutation(order, |g|)
    ensures DistinctKeys(Arrange(g, order))
    ensures Keys(Arrange(g, order)) == Keys(g)
    ensures forall key :: ValuesOf(Arrange(g, order), key) == ValuesOf(g, key)
  {
    ArrangeKeepsKeys(g, order);
    forall key ensures ValuesOf(Arrange(g, order), key) == ValuesOf(g, key) {
      ArrangeKeepsList(g, order, key);
    }
  }

  lemma ArrangeKeepsKeys<K, V>(g: Groups<K, V>, order: seq<nat>)
    requires DistinctKeys(g) && IsPermutation(order, |g|)
    ensures DistinctKeys(Arrange(g, order))
    ensures Keys(Arrange(g, order)) == Keys(g)
  {
    var r := Arrange(g, order);
    forall i, j | 0 <= i < j < |r| ensures r[i].0 != r[j].0 {
      assert order[i] != order[j];
    }
    forall key | key in Keys(g) ensures key in Keys(r) {
      var i :| 0 <= i < |g| && g[i].0 == key;
      assert i in order;
      var k :| 0 <= k < |order| && order[k] == i;
      assert r[k].0 == key;
    }
    forall key | key in Keys(r) ensures key in Keys(g) {
      var k :| 0 <= k < |r| && r[k].0 == key;
      assert g[order[k]].0 == key;
    }
  }

  lemma ArrangeKeepsList<K(!new), V>(g: Groups<K, V>, order: seq<nat>, key: K)
    requires DistinctKeys(g) && IsPermutation(order, |g|)
    requires DistinctKeys(Arrange(g, order)) && Keys(Arrange(g, order)) == Keys(g)
    ensures ValuesOf(Arrange(g, order), key) == ValuesOf(g, key)
  {
    var r := Arrange(g, order);
    if key in Keys(g) {
      var i :| 0 <= i < |g| && g[i].0 == key;
      assert i in order;
      var k :| 0 <= k < |order| && order[k] == i;
      ValuesAt(g, i);
      ValuesAt(r, k);
    } else {
      ValuesOfAbsent(g, key);
      ValuesOfAbsent(r, key);
    }
  }
}
