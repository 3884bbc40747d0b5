/**
 * The inbox's `ArrayList<Message>`, created by the activity and handed to the
 * adapter, so both update one list; and the list facts that deleting the
 * selected rows relies on.
 */
module MessageLists {
  import opened Wrappers
  import opened Messages

  /** The shared, mutable message list. */
  class MessageList {
    var items: seq<Message>

    constructor ()
      ensures items == []
    {
      items := [];
    }
  }

  /** Every position is a valid index into a list of `n` rows. */
  predicate AllInRange(positions: seq<int>, n: int) {
    forall j :: 0 <= j < |positions| ==> 0 <= positions[j] < n
  }

  /** `removeAt(p)`: the element at `p` leaves, the ones after it move down by one. */
  function RemoveAt<T>(s: seq<T>, p: int): (r: seq<T>)
    requires 0 <= p < |s|
    ensures |r| == |s| - 1
    ensures forall i :: 0 <= i < p ==> r[i] == s[i]
    ensures forall i :: p <= i < |r| ==> r[i] == s[i + 1]
  {
    s[..p] + s[p + 1..]
  }

  /** The elements of `s`, whose first one sits at position `base`, at positions not in `selected`, in order. */
  function Keep<T>(s: seq<T>, selected: set<int>, base: int): seq<T>
    decreases |s|
  {
    if s == [] then []
    else (if base in selected then [] else [s[0]]) + Keep(s[1..], selected, base + 1)
  }

  /** The rows of `s` whose positions are not selected, in their original order. */
  function Unselected<T>(s: seq<T>, selected: set<int>): seq<T> {
    Keep(s, selected, 0)
  }

  /** Filtering a concatenation filters each part, the second from its own starting position. */
  lemma {:induction false} KeepAppend<T>(a: seq<T>, b: seq<T>, selected: set<int>, base: int)
    ensures Keep(a + b, selected, base) == Keep(a, selected, base) + Keep(b, selected, base + |a|)
    decreases |a|
  {
    if a != [] {
      assert (a + b)[1..] == a[1..] + b;
      KeepAppend(a[1..], b, selected, base + 1);
    } else {
      assert a + b == b;
    }
  }

  /** A stretch of rows none of whose positions is selected is kept whole. */
  lemma {:induction false} KeepNoneSelected<T>(s: seq<T>, selected: set<int>, base: int)
    requires forall x :: x in selected ==> x < base || base + |s| <= x
    ensures Keep(s, selected, base) == s
    decreases |s|
  {
    if s != [] {
      KeepNoneSelected(s[1..], selected, base + 1);
    }
  }

  /** Selecting a position before the stretch does not change what is kept of it. */
  lemma {:induction false} KeepIgnoresEarlier<T>(s: seq<T>, selected: set<int>, x: int, base: int)
    requires x < base
    ensures Keep(s, selected + {x}, base) == Keep(s, selected, base)
    decreases |s|
  {
    if s != [] {
      KeepIgnoresEarlier(s[1..], selected, x, base + 1);
    }
  }

  /** When every selected position lies above `k`, the rows up to `k` are kept whole. */
  lemma SplitAtUnselected<T>(s: seq<T>, selected: set<int>, k: int)
    requires 0 <= k < |s|
    requires forall x :: x in selected ==> k < x
    ensures Unselected(s, selected) == s[..k] + [s[k]] + Keep(s[k + 1..], selected, k + 1)
  {
    var front, rest := s[..k], s[k + 1..];
    assert s == front + ([s[k]] + rest);
    KeepAppend(front, [s[k]] + rest, selected, 0);
    KeepAppend([s[k]], rest, selected, k);
    KeepNoneSelected(front, selected, 0);
    KeepNoneSelected([s[k]], selected, k);
  }

  /** Selecting `k` as well drops row `k` and keeps the rows before it whole. */
  lemma SplitAtSelected<T>(s: seq<T>, selected: set<int>, k: int)
    requires 0 <= k < |s|
    requires forall x :: x in selected ==> k < x
    ensures Unselected(s, selected + {k}) == s[..k] + Keep(s[k + 1..], selected, k + 1)
  {
    var front, rest := s[..k], s[k + 1..];
    assert s == front + ([s[k]] + rest);
    KeepAppend(front, [s[k]] + rest, selected + {k}, 0);
    KeepAppend([s[k]], rest, selected + {k}, k);
    KeepNoneSelected(front, selected + {k}, 0);
    KeepIgnoresEarlier(rest, selected, k, k + 1);
    assert Keep([s[k]], selected + {k}, k) == [];
  }

  /**
   * The step that makes deleting in descending order correct: when every
   * position removed so far lies above `k`, row `k` of the remaining list is
   * still the original row `k`, and removing it there is the same as
   * selecting `k` too.
   */
  lemma RemoveBelowSelected<T>(s: seq<T>, selected: set<int>, k: int)
    requires 0 <= k < |s|
    requires forall x :: x in selected ==> k < x
    ensures k < |Unselected(s, selected)|
    ensures RemoveAt(Unselected(s, selected), k) == Unselected(s, selected + {k})
  {
    SplitAtUnselected(s, selected, k);
    SplitAtSelected(s, selected, k);
    var kept := Unselected(s, selected);
    var tail := Keep(s[k + 1..], selected, k + 1);
    assert kept[..k] == s[..k];
    assert kept[k + 1..] == tail;
  }

  /** With nothing selected every row stays. */
  lemma UnselectedNothing<T>(s: seq<T>)
    ensures Unselected(s, {}) == s
  {
    KeepNoneSelected(s, {}, 0);
  }

  /**
   * Removing the given positions one after another, in the order given;
   * `None` when a position is out of range at the moment it is removed,
   * where `removeAt` throws.
   */
  function RemoveInOrder<T>(s: seq<T>, positions: seq<int>): Option<seq<T>>
    decreases |positions|
  {
    if positions == [] then Some(s)
    else if 0 <= positions[0] < |s| then RemoveInOrder(RemoveAt(s, positions[0]), positions[1..])
    else None
  }

  /**
   * The worked example of the inbox: rows A..E with positions 1 and 3
   * selected. Descending removal leaves A, C, E, the unselected rows;
   * ascending removal would delete D instead of the selected row at 3.
   */
  lemma DeleteOrderExample(a: Message, b: Message, c: Message, d: Message, e: Message)
    ensures Unselected([a, b, c, d, e], {1, 3}) == [a, c, e]
    ensures RemoveInOrder([a, b, c, d, e], [3, 1]) == Some([a, c, e])
    ensures RemoveInOrder([a, b, c, d, e], [1, 3]) == Some([a, c, d])
    ensures d != e ==> RemoveInOrder([a, b, c, d, e], [1, 3]) != Some(Unselected([a, b, c, d, e], {1, 3}))
  {
    var s := [a, b, c, d, e];
    assert s[1..] == [b, c, d, e] && s[2..] == [c, d, e] && s[3..] == [d, e] && s[4..] == [e];
    var sel := {1, 3};
    assert Keep([e], sel, 4) == [e];
    assert Keep([d, e], sel, 3) == [e];
    assert Keep([c, d, e], sel, 2) == [c, e];
    assert Keep([b, c, d, e], sel, 1) == [c, e];
    assert RemoveAt(s, 3) == [a, b, c, e];
    assert RemoveAt([a, b, c, e], 1) == [a, c, e];
    assert RemoveAt(s, 1) == [a, c, d, e];
    assert RemoveAt([a, c, d, e], 3) == [a, c, d];
    if d != e {
      assert [a, c, d][2] != [a, c, e][2];
    }
  }
}
