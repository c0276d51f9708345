/** klib/sorted_array_list.c: an ascending pointer array searched by bisection.

    `currSize` is the source's `curr_size`: one more than the number of items, so the
    slot at `currSize - 1` is always probed as if it were an item. */
module SortedList {
  import opened Machine

  ghost predicate StrictlySorted(s: seq<int>) {
    forall i, j :: 0 <= i < j < |s| ==> s[i] < s[j]
  }

  ghost function Elements(s: seq<int>): set<int> {
    set x | x in s
  }

  /** An ascending sequence is determined by its set of elements, so a contract that
      fixes the set of items fixes the array contents. */
  lemma {:induction false} SortedByElements(s: seq<int>, t: seq<int>)
    requires StrictlySorted(s) && StrictlySorted(t)
    requires Elements(s) == Elements(t)
    ensures s == t
    decreases |s|
  {
    var first := if |t| > 0 then t[0] else 0;
    assert |t| > 0 ==> first in Elements(t);
    if s == [] {
      if |t| > 0 { assert false; }
    } else {
      assert s[|s|-1] in Elements(t);
      var n := |s| - 1;
      var k :| 0 <= k < |t| && t[k] == s[n];
      var m := |t| - 1;
      assert t[m] in Elements(s);
      var q :| 0 <= q < |s| && s[q] == t[m];
      assert s[n] == t[m] by {
        assert s[q] <= s[n];
        assert t[k] <= t[m];
      }
      var s', t' := s[..n], t[..m];
      forall x ensures x in Elements(s') <==> x in Elements(t') {
        ElementsOfPrefix(s, x);
        ElementsOfPrefix(t, x);
        assert x in Elements(s) <==> x in Elements(t);
      }
      SortedByElements(s', t');
      assert s == s' + [s[n]];
      assert t == t' + [t[m]];
    }
  }

  lemma {:induction false} SortedCardinality(s: seq<int>)
    requires StrictlySorted(s)
    ensures |Elements(s)| == |s|
  {
    if s != [] {
      var n := |s| - 1;
      SortedCardinality(s[..n]);
      assert s == s[..n] + [s[n]];
      assert Elements(s) == Elements(s[..n]) + {s[n]};
    }
  }

  lemma ElementsOfPrefix(s: seq<int>, x: int)
    requires StrictlySorted(s) && s != []
    ensures x in Elements(s[..|s|-1]) <==> x in Elements(s) && x != s[|s|-1]
  {
    var n := |s| - 1;
    assert s == s[..n] + [s[n]];
    if x in s[..n] {
      var i :| 0 <= i < n && s[..n][i] == x;
      assert s[i] == x;
    }
  }

  /** `l + (r - l) / 2` on unsigned 32-bit operands. Once the bounds have crossed, the
      difference wraps and the probe lands beyond any array of fewer than 2^31 slots. */
  function Midpoint(l: int, r: int): (m: int)
    requires 0 <= l < TWO31 && 0 <= r < TWO32
    ensures l <= r < TWO31 ==> m == l + (r - l) / 2
    ensures r == Wrap(l - 1) ==> m >= TWO31 - 1
  {
    Wrap(l + Wrap(r - l) / 2)
  }

  lemma ItemInserted(a: seq<int>, s: seq<int>, index: nat, item: int)
    requires index <= |s| < |a| && a[..index] == s[..index] && a[index] == item
    requires forall k :: index < k <= |s| ==> a[k] == s[k - 1]
    ensures a[..|s| + 1] == s[..index] + [item] + s[index..]
  {
    var r := s[..index] + [item] + s[index..];
    assert forall k :: index < k <= |s| ==> r[k] == s[k - 1];
    assert forall k :: 0 <= k < index ==> a[k] == a[..index][k];
  }

  class SortedArrayList {
    const arr: array<int>
    var currSize: nat

    ghost function Items(): seq<int>
      reads this, arr
    {
      arr[..if 1 <= currSize <= arr.Length + 1 then currSize - 1 else 0]
    }

    ghost predicate Valid()
      reads this, arr
    {
      && 1 <= currSize
      && (currSize <= arr.Length || (currSize == 1 && arr.Length == 0))
      && arr.Length < TWO31
      && StrictlySorted(Items())
      && (forall i :: 0 <= i < currSize - 1 ==> arr[i] > 0)
      && (forall i :: currSize - 1 <= i < arr.Length ==> arr[i] == 0)
    }

    /** `init_sorted_list` over an array the caller hands in, which must be zeroed. */
    constructor (storage: array<int>)
      requires storage.Length < TWO31
      requires forall i :: 0 <= i < storage.Length ==> storage[i] == 0
      ensures Valid() && arr == storage && Items() == []
    {
      arr := storage;
      currSize := 1;
    }

    /** `insert_item`: shift the tail up one slot and store. */
    method InsertItem(item: int, index: nat) returns (rc: int)
      requires 1 <= currSize <= arr.Length && index < currSize
      modifies this, arr
      ensures rc == if old(currSize) == arr.Length then -1 else 0
      ensures rc == -1 ==> currSize == old(currSize) && arr[..] == old(arr[..])
      ensures rc == 0 ==> currSize == old(currSize) + 1
      ensures rc == 0 ==> Items() == old(Items())[..index] + [item] + old(Items())[index..]
      ensures forall i :: old(currSize) <= i < arr.Length ==> arr[i] == old(arr[i])
    {
      if currSize == arr.Length {
        return -1;
      }
      ghost var s := Items();
      var i := currSize - 1;
      while i > index
        modifies arr
        invariant index <= i <= currSize - 1
        invariant forall k :: 0 <= k < i ==> arr[k] == s[k]
        invariant forall k :: i < k < currSize ==> arr[k] == s[k - 1]
        invariant forall k :: currSize <= k < arr.Length ==> arr[k] == old(arr[k])
      {
        arr[i] := arr[i - 1];
        i := i - 1;
      }
      currSize := currSize + 1;
      arr[index] := item;
      ItemInserted(arr[..], s, index, item);
      rc := 0;
    }

    /** `remove_item`: shift the tail, zero slot included, down one slot. */
    method RemoveItem(index: nat)
      requires 1 <= currSize <= arr.Length && index < currSize - 1
      modifies this, arr
      ensures currSize == old(currSize) - 1
      ensures Items() == old(Items())[..index] + old(Items())[index + 1..]
      ensures arr[currSize - 1] == old(arr[currSize - 1])
      ensures forall i :: currSize <= i < arr.Length ==> arr[i] == old(arr[i])
    {
      var i := index;
      while i < currSize - 1
        modifies arr
        invariant index <= i <= currSize - 1
        invariant forall k :: 0 <= k < index ==> arr[k] == old(arr[k])
        invariant forall k :: index <= k < i ==> arr[k] == old(arr[k + 1])
        invariant forall k :: i <= k < arr.Length ==> arr[k] == old(arr[k])
      {
        arr[i] := arr[i + 1];
        i := i + 1;
      }
      currSize := currSize - 1;
    }

    /** `search_list`, on wrapping unsigned bounds: -1 exactly when the item is absent. */
    method Search(item: int) returns (index: int)
      requires Valid() && item > 0
      ensures index == -1 <==> item !in Items()
      ensures index != -1 ==> 0 <= index < |Items()| && Items()[index] == item
    {
      ghost var s := Items();
      var l := 0;
      var r := currSize - 1;
      var curr := l + (r - l) / 2;
      while curr < arr.Length
        invariant 0 <= l < currSize && 0 <= curr
        invariant curr < arr.Length ==> l <= curr <= r < currSize && curr == l + (r - l) / 2
        invariant forall k :: 0 <= k < |s| && s[k] == item ==> curr < arr.Length && l <= k <= r
        decreases if curr < arr.Length then r - l + 1 else 0
      {
        if item == arr[curr] {
          assert s[curr] == item;
          return curr;
        }
        if l == r {
          return -1;
        }
        assert curr < r && s[curr] == arr[curr];
        if item < arr[curr] {
          assert forall k :: curr <= k < |s| ==> s[curr] <= s[k];
          r := Wrap(curr - 1);
        } else {
          assert forall k :: 0 <= k <= curr ==> s[k] <= s[curr];
          l := Wrap(curr + 1);
        }
        curr := Midpoint(l, r);
      }
      return -1;
    }

    /** The bisection loop that `insert_list` and `remove_list` share: the slot of the item,
        or the slot it belongs in. */
    method Bisect(item: int) returns (found: bool, pos: nat)
      requires Valid() && item > 0 && arr.Length > 0
      ensures pos < currSize
      ensures found ==> pos < |Items()| && Items()[pos] == item
      ensures !found ==> forall k :: 0 <= k < pos ==> Items()[k] < item
      ensures !found ==> forall k :: pos <= k < |Items()| ==> item < Items()[k]
    {
      ghost var s := Items();
      var l := 0;
      var r := currSize - 1;
      pos := l + (r - l) / 2;
      while pos < arr.Length
        invariant 0 <= l <= r < currSize
        invariant pos == l + (r - l) / 2
        invariant forall k :: 0 <= k < l ==> s[k] < item
        invariant forall k :: r <= k < |s| ==> item < s[k]
        decreases r - l
      {
        if item == arr[pos] {
          assert s[pos] == item;
          return true, pos;
        }
        if l == r {
          return false, pos;
        }
        assert pos < r && s[pos] == arr[pos];
        if item < arr[pos] {
          assert forall k :: pos <= k < |s| ==> s[pos] <= s[k];
          r := pos;
        } else {
          assert forall k :: 0 <= k <= pos ==> s[k] <= s[pos];
          l := pos + 1;
        }
        pos := l + (r - l) / 2;
      }
      assert false;
    }

    /** `insert_list`: 0 inserted, 1 already present, -1 array full. */
    method Insert(item: int) returns (rc: int)
      requires Valid() && item > 0
      modifies this, arr
      ensures Valid()
      ensures rc == if item in old(Items()) then 1 else if |old(Items())| + 1 >= arr.Length then -1 else 0
      ensures rc != 0 ==> Items() == old(Items())
      ensures rc == 0 ==> Elements(Items()) == Elements(old(Items())) + {item}
      ensures rc == 0 ==> |Items()| == |old(Items())| + 1
    {
      if arr.Length == 0 {
        return -1;
      }
      var found, pos := Bisect(item);
      if found {
        return 1;
      }
      ghost var s := Items();
      rc := InsertItem(item, pos);
      if rc == 0 { InsertKeepsSorted(s, pos, item); }
    }

    /** `remove_list`: 0 removed, 1 absent, -1 for an array with no slots. */
    method Remove(item: int) returns (rc: int)
      requires Valid() && item > 0
      modifies this, arr
      ensures Valid()
      ensures rc == if arr.Length == 0 then -1 else if item in old(Items()) then 0 else 1
      ensures rc != 0 ==> Items() == old(Items())
      ensures Elements(Items()) == Elements(old(Items())) - {item}
    {
      if arr.Length == 0 {
        return -1;
      }
      var found, pos := Bisect(item);
      if !found {
        return 1;
      }
      ghost var s := Items();
      RemoveItem(pos);
      RemoveKeepsSorted(s, pos);
      rc := 0;
    }
  }

  lemma InsertKeepsSorted(s: seq<int>, k: nat, x: int)
    requires StrictlySorted(s) && k <= |s|
    requires forall i :: 0 <= i < k ==> s[i] < x
    requires forall i :: k <= i < |s| ==> x < s[i]
    ensures StrictlySorted(s[..k] + [x] + s[k..])
    ensures Elements(s[..k] + [x] + s[k..]) == Elements(s) + {x}
  {
    var t := s[..k] + [x] + s[k..];
    assert s == s[..k] + s[k..];
    assert forall i :: 0 <= i < |t| ==> t[i] == if i < k then s[i] else if i == k then x else s[i - 1];
  }

  lemma RemoveKeepsSorted(s: seq<int>, k: nat)
    requires StrictlySorted(s) && k < |s|
    ensures StrictlySorted(s[..k] + s[k + 1..])
    ensures Elements(s[..k] + s[k + 1..]) == Elements(s) - {s[k]}
  {
    var t := s[..k] + s[k + 1..];
    assert forall i :: 0 <= i < |t| ==> t[i] == if i < k then s[i] else s[i + 1];
    assert s == s[..k] + [s[k]] + s[k + 1..];
  }
}
