/** Sorting one array by the values of another and picking the last element:
    the `means.sort(bss).get([-1])` step of Otsu threshold selection.

    The sort is modelled as a stable ascending sort by key (elements with equal
    keys keep their original order), written as an insertion sort.  The main
    lemma, SortPickIsLastArgMax, says what picking the last element of that
    sort means: the value at the LAST index whose key is maximal. */
module KeySort {

  /** One element of the array being sorted, tagged with its sort key. */
  datatype Keyed = Keyed(key: real, value: real)

  /** Pairs keys[k] with values[k]. */
  function Zip(keys: seq<real>, values: seq<real>): (r: seq<Keyed>)
    requires |keys| == |values|
  {
    seq(|keys|, k requires 0 <= k < |keys| => Keyed(keys[k], values[k]))
  }

  predicate SortedByKey(s: seq<Keyed>) {
    forall i, j :: 0 <= i < j < |s| ==> s[i].key <= s[j].key
  }

  /** Inserts x behind every element of s whose key is at most x's key, so x
      lands after its equals: x comes later in the input than all of s. */
  function Insert(x: Keyed, s: seq<Keyed>): (r: seq<Keyed>)
    ensures |r| == |s| + 1
    ensures multiset(r) == multiset(s) + multiset{x}
  {
    if s == [] || s[|s| - 1].key <= x.key then s + [x]
    else
      assert s == s[..|s| - 1] + [s[|s| - 1]];
      Insert(x, s[..|s| - 1]) + [s[|s| - 1]]
  }

  /** Stable ascending insertion sort by key. */
  function SortByKey(s: seq<Keyed>): (r: seq<Keyed>)
    ensures |r| == |s|
    ensures multiset(r) == multiset(s)
  {
    if s == [] then []
    else
      assert s == s[..|s| - 1] + [s[|s| - 1]];
      Insert(s[|s| - 1], SortByKey(s[..|s| - 1]))
  }

  /** `values.sort(keys).get([-1])`: the value that ends up last once the
      values are sorted by their keys, which is the value at the last index of
      maximal key. */
  function SortPick(keys: seq<real>, values: seq<real>): (v: real)
    requires |keys| == |values| > 0
    ensures v == values[LastArgMax(keys)]
  {
    SortLastIsLastArgMax(keys, values);
    SortByKey(Zip(keys, values))[|keys| - 1].value
  }

  /** The last index at which `keys` takes its maximum. */
  function LastArgMax(keys: seq<real>): (k: nat)
    requires |keys| > 0
    ensures k < |keys|
    ensures forall j :: 0 <= j < |keys| ==> keys[j] <= keys[k]
    ensures forall j :: k < j < |keys| ==> keys[j] < keys[k]
  {
    if |keys| == 1 then 0
    else
      var k' := LastArgMax(keys[..|keys| - 1]);
      if keys[|keys| - 1] >= keys[k'] then |keys| - 1 else k'
  }

  lemma {:induction false} InsertSorted(x: Keyed, s: seq<Keyed>)
    requires SortedByKey(s)
    ensures SortedByKey(Insert(x, s))
  {
    if s == [] || s[|s| - 1].key <= x.key {
    } else {
      var front, last := s[..|s| - 1], s[|s| - 1];
      InsertSorted(x, front);
      var r' := Insert(x, front);
      forall e | e in r'
        ensures e.key <= last.key
      {
        assert e in multiset(r');
        if e != x {
          assert e in multiset(front);
        }
      }
    }
  }

  /** The insertion sort does sort: keys ascend in its output. */
  lemma {:induction false} SortByKeySorted(s: seq<Keyed>)
    ensures SortedByKey(SortByKey(s))
  {
    if s != [] {
      SortByKeySorted(s[..|s| - 1]);
      InsertSorted(s[|s| - 1], SortByKey(s[..|s| - 1]));
    }
  }

  /** Picking the last element of the stable sort by key yields the element at
      the last index of maximal key. */
  lemma {:induction false} SortLastIsLastArgMax(keys: seq<real>, values: seq<real>)
    requires |keys| == |values| > 0
    ensures SortByKey(Zip(keys, values))[|keys| - 1]
            == Keyed(keys[LastArgMax(keys)], values[LastArgMax(keys)])
  {
    var n := |keys|;
    var s := Zip(keys, values);
    if n > 1 {
      var keys', values' := keys[..n - 1], values[..n - 1];
      assert s[..n - 1] == Zip(keys', values');
      SortLastIsLastArgMax(keys', values');
      var sorted' := SortByKey(s[..n - 1]);
      assert SortByKey(s) == Insert(s[n - 1], sorted');
      InsertLast(s[n - 1], sorted');
    }
  }

  /** The last element after an insertion: x when its key is at least that of
      the last element of s, and that element otherwise. */
  lemma InsertLast(x: Keyed, s: seq<Keyed>)
    requires s != []
    ensures Insert(x, s)[|s|] == if s[|s| - 1].key <= x.key then x else s[|s| - 1]
  {
  }

  /** `values.sort(keys).get([-1])` is the value at the last index whose key is
      maximal: every key is at most that one, and every later key is smaller. */
  lemma SortPickIsLastArgMax(keys: seq<real>, values: seq<real>)
    requires |keys| == |values| > 0
    ensures exists k ::
              && 0 <= k < |keys|
              && SortPick(keys, values) == values[k]
              && (forall j :: 0 <= j < |keys| ==> keys[j] <= keys[k])
              && (forall j :: k < j < |keys| ==> keys[j] < keys[k])
  {
    SortLastIsLastArgMax(keys, values);
    var k := LastArgMax(keys);
    assert SortPick(keys, values) == values[k];
  }
}
