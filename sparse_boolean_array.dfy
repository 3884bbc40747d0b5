/**
 * The part of Android's `SparseBooleanArray` that the adapter uses. The adapter
 * only ever stores `true`, so an array is fully described by its keys, which
 * the library keeps strictly ascending; `keyAt(i)` is the i-th of them.
 */
module SparseBooleanArrays {

  /** The keys are strictly ascending, hence each key occurs once. */
  predicate Sorted(keys: seq<int>) {
    forall i, j :: 0 <= i < j < |keys| ==> keys[i] < keys[j]
  }

  /** The set of keys present. */
  function Elements(keys: seq<int>): set<int> {
    set k | k in keys
  }

  /** `get(k, false)`: whether `k` is present. */
  function Get(keys: seq<int>, k: int): (r: bool)
    requires Sorted(keys)
    ensures r <==> k in keys
  {
    if keys == [] || k < keys[0] then false
    else if k == keys[0] then true
    else Get(keys[1..], k)
  }

  /** `put(k, true)`: insert `k` at its place in the order; no change when present. */
  function Put(keys: seq<int>, k: int): (r: seq<int>)
    requires Sorted(keys)
    ensures Sorted(r)
    ensures Elements(r) == Elements(keys) + {k}
    ensures |r| == if k in keys then |keys| else |keys| + 1
  {
    if keys == [] then [k]
    else if k < keys[0] then [k] + keys
    else if k == keys[0] then keys
    else
      var rest := Put(keys[1..], k);
      ConsAbove(keys[0], rest, Elements(keys[1..]) + {k});
      ElementsCons(keys[0], keys[1..]);
      ElementsCons(keys[0], rest);
      [keys[0]] + rest
  }

  /** `delete(k)`: remove `k`; no change when absent. */
  function Delete(keys: seq<int>, k: int): (r: seq<int>)
    requires Sorted(keys)
    ensures Sorted(r)
    ensures Elements(r) == Elements(keys) - {k}
    ensures |r| == if k in keys then |keys| - 1 else |keys|
  {
    if keys == [] || k < keys[0] then keys
    else if k == keys[0] then keys[1..]
    else
      var rest := Delete(keys[1..], k);
      ConsAbove(keys[0], rest, Elements(keys[1..]));
      ElementsCons(keys[0], keys[1..]);
      ElementsCons(keys[0], rest);
      [keys[0]] + rest
  }

  /** The keys of `[x] + s` are `x` and the keys of `s`. */
  lemma ElementsCons(x: int, s: seq<int>)
    ensures Elements([x] + s) == {x} + Elements(s)
  {
  }

  /**
   * Putting `x` in front of an ascending `s` keeps it ascending when every
   * key of `s` lies in a set whose members are all above `x`.
   */
  lemma ConsAbove(x: int, s: seq<int>, bound: set<int>)
    requires Sorted(s)
    requires Elements(s) <= bound
    requires forall y :: y in bound ==> x < y
    ensures Sorted([x] + s)
  {
    forall i | 0 <= i < |s| ensures x < s[i] {
      assert s[i] in Elements(s);
    }
  }

  /** The adapter's toggle on one array: delete when present, else put. */
  function Toggle(keys: seq<int>, k: int): (r: seq<int>)
    requires Sorted(keys)
    ensures Sorted(r)
    ensures k in r <==> k !in keys
    ensures Elements(r) - {k} == Elements(keys) - {k}
  {
    if Get(keys, k) then Delete(keys, k) else Put(keys, k)
  }

  /** Two ascending key sequences with the same keys are the same sequence. */
  lemma {:induction false} SortedUnique(a: seq<int>, b: seq<int>)
    requires Sorted(a) && Sorted(b)
    requires Elements(a) == Elements(b)
    ensures a == b
  {
    SortedCardinality(a);
    SortedCardinality(b);
    if a != [] {
      assert a[0] in Elements(b) && b[0] in Elements(a);
      assert a[0] == b[0];
      assert a == [a[0]] + a[1..] && b == [b[0]] + b[1..];
      assert a[0] !in a[1..] && b[0] !in b[1..];
      assert Elements(a[1..]) == Elements(a) - {a[0]};
      assert Elements(b[1..]) == Elements(b) - {b[0]};
      SortedUnique(a[1..], b[1..]);
    }
  }

  /** Toggling the same key twice restores the array. */
  lemma ToggleTwice(keys: seq<int>, k: int)
    requires Sorted(keys)
    ensures Toggle(Toggle(keys, k), k) == keys
  {
    var once := Toggle(keys, k);
    var twice := Toggle(once, k);
    assert Elements(twice) == Elements(keys) by {
      assert k in twice <==> k in keys;
    }
    SortedUnique(twice, keys);
  }

  /** `size()` equals the number of distinct keys present. */
  lemma {:induction false} SortedCardinality(keys: seq<int>)
    requires Sorted(keys)
    ensures |Elements(keys)| == |keys|
  {
    if keys != [] {
      assert keys == [keys[0]] + keys[1..];
      assert keys[0] !in keys[1..];
      assert Elements(keys) == {keys[0]} + Elements(keys[1..]);
      SortedCardinality(keys[1..]);
    }
  }

  /** Ascending distinct integers are at least one apart per position. */
  lemma {:induction false} SortedGap(keys: seq<int>, i: int, j: int)
    requires Sorted(keys)
    requires 0 <= i <= j < |keys|
    ensures keys[i] + (j - i) <= keys[j]
  {
    if i < j {
      SortedGap(keys, i, j - 1);
    }
  }
}
