/** OrdIndex: an ordered index kept as a list of entries, each entry being
    the search key followed by the block numbers stored under it, e.g.
    [[1, 1, 2], [2, 1, 2, 3], [3, 1], [4, 3]]. Entries are in ascending key
    order and each entry's blocks are in ascending order, duplicates kept.
    The Java lists are modelled by sequences the methods reassign; no inner
    list is shared outside the index. */
module OrdIndexes {
  import opened IndexModel
  import opened SortedLists

  /** Java's `a / 2` on ints, which truncates toward zero (so -1 / 2 is 0). */
  function Half(a: int): (q: int)
    ensures a >= 0 ==> 0 <= q <= a && a - 1 <= 2 * q <= a
    ensures a == -1 ==> q == 0
  {
    if a >= 0 then a / 2 else -((-a) / 2)
  }

  /** An entry of the index: the search key followed by block numbers. */
  type Entry = e: seq<int> | |e| >= 1 witness [0]

  /** The entries' keys strictly ascend. */
  predicate KeysAscending(arr: seq<Entry>) {
    forall i, j :: 0 <= i < j < |arr| ==> arr[i][0] < arr[j][0]
  }

  /** The invariant of the index: keys strictly ascend, every entry holds at
      least one block, and each entry's blocks ascend. */
  predicate WellFormed(arr: seq<Entry>) {
    && KeysAscending(arr)
    && (forall k :: 0 <= k < |arr| ==> |arr[k]| >= 2 && Ascending(arr[k][1..]))
  }

  /** addSearch(arr, l, r, x): a binary search over the keys of entries l..r
      that returns the position of x when found and otherwise the position
      where x would be inserted. The midpoint is computed before the range
      test, with Java's truncating division, so an empty range (r = l - 1)
      yields l. */
  function AddSearch(arr: seq<Entry>, l: int, r: int, x: int): (i: int)
    requires 0 <= l <= r + 1 <= |arr|
    ensures l <= i <= r + 1
    decreases r - l
  {
    var mid := l + Half(r - l);
    if r >= l then
      if arr[mid][0] == x then mid
      else if arr[mid][0] > x then AddSearch(arr, l, mid - 1, x)
      else AddSearch(arr, mid + 1, r, x)
    else
      mid
  }

  /** binarySearch(arr, l, r, x): the position of the entry with key x in
      l..r, or -1. */
  function BinarySearch(arr: seq<Entry>, l: int, r: int, x: int): (i: int)
    requires 0 <= l <= r + 1 <= |arr|
    ensures i == -1 || (l <= i <= r && arr[i][0] == x)
    decreases r - l
  {
    if r >= l then
      var mid := l + (r - l) / 2;
      if arr[mid][0] == x then mid
      else if arr[mid][0] > x then BinarySearch(arr, l, mid - 1, x)
      else BinarySearch(arr, mid + 1, r, x)
    else
      -1
  }

  /** deleteSearch(arr, l, r, x): a position of x in arr[l..r], or -1. */
  function DeleteSearch(arr: seq<int>, l: int, r: int, x: int): (i: int)
    requires 0 <= l <= r + 1 <= |arr|
    ensures i == -1 || (l <= i <= r && arr[i] == x)
    decreases r - l
  {
    if r >= l then
      var mid := l + (r - l) / 2;
      if arr[mid] == x then mid
      else if arr[mid] > x then DeleteSearch(arr, l, mid - 1, x)
      else DeleteSearch(arr, mid + 1, r, x)
    else
      -1
  }

  /** On entries with ascending keys, addSearch returns the position of x, or
      else the insertion point: every key before it is smaller than x and
      every key from it on is larger. */
  lemma {:induction false} AddSearchFinds(arr: seq<Entry>, l: int, r: int, x: int)
    requires 0 <= l <= r + 1 <= |arr| && KeysAscending(arr)
    ensures Placed(arr, l, r, x, AddSearch(arr, l, r, x))
    decreases r - l
  {
    if r >= l {
      var mid := l + Half(r - l);
      if arr[mid][0] > x {
        AddSearchFinds(arr, l, mid - 1, x);
        PlacedLeft(arr, l, mid, r, x, AddSearch(arr, l, mid - 1, x));
      } else if arr[mid][0] < x {
        AddSearchFinds(arr, mid + 1, r, x);
        PlacedRight(arr, l, mid, r, x, AddSearch(arr, mid + 1, r, x));
      }
    }
  }

  /** Position `i` in l..r + 1 holds key x, or else splits l..r into keys
      below x and keys above it. */
  predicate Placed(arr: seq<Entry>, l: int, r: int, x: int, i: int)
    requires 0 <= l <= r + 1 <= |arr| && KeysAscending(arr)
  {
    || (l <= i <= r && arr[i][0] == x)
    || (l <= i <= r + 1 && (forall k :: l <= k < i ==> arr[k][0] < x) && (forall k :: i <= k <= r ==> arr[k][0] > x))
  }

  /** A position placed in l..mid - 1, where the key at mid is above x, is
      placed in l..r. */
  lemma PlacedLeft(arr: seq<Entry>, l: int, mid: int, r: int, x: int, i: int)
    requires 0 <= l <= mid <= r < |arr| && KeysAscending(arr) && arr[mid][0] > x
    requires Placed(arr, l, mid - 1, x, i)
    ensures Placed(arr, l, r, x, i)
  {
    forall k | mid < k <= r
      ensures arr[k][0] > x
    {
      assert arr[mid][0] < arr[k][0];
    }
  }

  /** A position placed in mid + 1..r, where the key at mid is below x, is
      placed in l..r. */
  lemma PlacedRight(arr: seq<Entry>, l: int, mid: int, r: int, x: int, i: int)
    requires 0 <= l <= mid <= r < |arr| && KeysAscending(arr) && arr[mid][0] < x
    requires Placed(arr, mid + 1, r, x, i)
    ensures Placed(arr, l, r, x, i)
  {
    forall k | l <= k < mid
      ensures arr[k][0] < x
    {
      assert arr[k][0] < arr[mid][0];
    }
  }

  /** On entries with ascending keys, binarySearch misses only a key that
      no entry in l..r has. */
  lemma {:induction false} BinarySearchFinds(arr: seq<Entry>, l: int, r: int, x: int)
    requires 0 <= l <= r + 1 <= |arr| && KeysAscending(arr)
    ensures BinarySearch(arr, l, r, x) == -1 <==> forall k :: l <= k <= r ==> arr[k][0] != x
    decreases r - l
  {
    if r >= l {
      var mid := l + (r - l) / 2;
      if arr[mid][0] > x {
        BinarySearchFinds(arr, l, mid - 1, x);
        KeysAboveFrom(arr, mid, r, x);
      } else if arr[mid][0] < x {
        BinarySearchFinds(arr, mid + 1, r, x);
        KeysBelowTo(arr, l, mid, x);
      }
    }
  }

  /** Keys from a key above x on are above x. */
  lemma KeysAboveFrom(arr: seq<Entry>, mid: int, r: int, x: int)
    requires KeysAscending(arr) && 0 <= mid <= r < |arr| && arr[mid][0] > x
    ensures forall k :: mid <= k <= r ==> arr[k][0] > x
  {
  }

  /** Keys up to a key below x are below x. */
  lemma KeysBelowTo(arr: seq<Entry>, l: int, mid: int, x: int)
    requires KeysAscending(arr) && 0 <= l <= mid < |arr| && arr[mid][0] < x
    ensures forall k :: l <= k <= mid ==> arr[k][0] < x
  {
  }

  /** On ascending blocks, deleteSearch misses only a block that is not in
      arr[l..r]. */
  lemma {:induction false} DeleteSearchFinds(arr: seq<int>, l: int, r: int, x: int)
    requires 0 <= l <= r + 1 <= |arr| && Ascending(arr)
    ensures DeleteSearch(arr, l, r, x) == -1 <==> forall k :: l <= k <= r ==> arr[k] != x
    decreases r - l
  {
    if r >= l {
      var mid := l + (r - l) / 2;
      if arr[mid] > x {
        DeleteSearchFinds(arr, l, mid - 1, x);
      } else if arr[mid] < x {
        DeleteSearchFinds(arr, mid + 1, r, x);
      }
    }
  }

  /** The abstract state of a list of entries. */
  ghost function ModelOf(arr: seq<Entry>): Model
  {
    if arr == [] then map[]
    else ModelOf(arr[1..])[arr[0][0] := multiset(arr[0][1..])]
  }

  /** The keys of the model are the keys of the entries. */
  lemma {:induction false} ModelKeys(arr: seq<Entry>, key: int)
    requires KeysAscending(arr)
    ensures key in ModelOf(arr) <==> exists k :: 0 <= k < |arr| && arr[k][0] == key
  {
    if arr != [] {
      ModelKeys(arr[1..], key);
      if key in ModelOf(arr[1..]) {
        var k :| 0 <= k < |arr[1..]| && arr[1..][k][0] == key;
        assert arr[k + 1][0] == key;
      }
      if exists k :: 0 <= k < |arr| && arr[k][0] == key {
        var k :| 0 <= k < |arr| && arr[k][0] == key;
        if k > 0 {
          assert arr[1..][k - 1][0] == key;
        }
      }
    }
  }

  /** The model holds each entry's blocks under its key. */
  lemma {:induction false} ModelAt(arr: seq<Entry>, k: int)
    requires KeysAscending(arr) && 0 <= k < |arr|
    ensures arr[k][0] in ModelOf(arr) && ModelOf(arr)[arr[k][0]] == multiset(arr[k][1..])
  {
    if k > 0 {
      ModelAt(arr[1..], k - 1);
    }
  }

  /** A key no entry has is absent from the model. */
  lemma ModelAbsent(arr: seq<Entry>, key: int)
    requires KeysAscending(arr) && forall k :: 0 <= k < |arr| ==> arr[k][0] != key
    ensures key !in ModelOf(arr)
  {
    ModelKeys(arr, key);
  }

  /** A well-formed list of entries has no key without blocks. */
  lemma ModelNoEmpty(arr: seq<Entry>)
    requires WellFormed(arr)
    ensures NoEmpty(ModelOf(arr))
  {
    forall key | key in ModelOf(arr)
      ensures ModelOf(arr)[key] != multiset{}
    {
      ModelKeys(arr, key);
      var k :| 0 <= k < |arr| && arr[k][0] == key;
      ModelAt(arr, k);
      assert arr[k][1] in multiset(arr[k][1..]);
    }
  }

  /** Replacing the blocks of entry k replaces them in the model. */
  lemma {:induction false} ModelReplace(arr: seq<Entry>, k: int, e: Entry)
    requires KeysAscending(arr) && 0 <= k < |arr| && e[0] == arr[k][0]
    ensures ModelOf(arr[k := e]) == ModelOf(arr)[e[0] := multiset(e[1..])]
  {
    if k == 0 {
      assert arr[k := e][1..] == arr[1..];
      ModelAbsent(arr[1..], e[0]);
    } else {
      assert arr[k := e][1..] == arr[1..][k - 1 := e];
      ModelReplace(arr[1..], k - 1, e);
    }
  }

  /** Inserting a new entry at its sorted position adds its key to the model. */
  lemma {:induction false} ModelInsertAt(arr: seq<Entry>, k: int, e: Entry)
    requires KeysAscending(arr) && 0 <= k <= |arr|
    requires forall j :: 0 <= j < |arr| ==> arr[j][0] != e[0]
    ensures ModelOf(arr[..k] + [e] + arr[k..]) == ModelOf(arr)[e[0] := multiset(e[1..])]
  {
    var a := arr[..k] + [e] + arr[k..];
    if k == 0 {
      assert a[1..] == arr;
    } else {
      assert a[1..] == arr[1..][..k - 1] + [e] + arr[1..][k - 1..];
      ModelInsertAt(arr[1..], k - 1, e);
    }
  }

  /** Removing entry k removes its key from the model. */
  lemma {:induction false} ModelRemoveAt(arr: seq<Entry>, k: int)
    requires KeysAscending(arr) && 0 <= k < |arr|
    ensures ModelOf(arr[..k] + arr[k + 1..]) == ModelOf(arr) - {arr[k][0]}
  {
    var a := arr[..k] + arr[k + 1..];
    if k == 0 {
      assert a == arr[1..];
      ModelAbsent(arr[1..], arr[0][0]);
    } else {
      assert a[0] == arr[0] && a[1..] == arr[1..][..k - 1] + arr[1..][k..];
      ModelRemoveAt(arr[1..], k - 1);
      UpdateRemove(ModelOf(arr[1..]), arr[0][0], multiset(arr[0][1..]), arr[k][0]);
    }
  }

  /** Setting one key and removing another commute. */
  lemma UpdateRemove(m: Model, k: int, v: multiset<int>, j: int)
    requires k != j
    ensures (m - {j})[k := v] == m[k := v] - {j}
  {
  }

  /** A new entry at a position whose neighbours' keys bracket its own keeps
      the list well formed. */
  lemma WellFormedInsertAt(arr: seq<Entry>, k: int, e: Entry)
    requires WellFormed(arr) && 0 <= k <= |arr| && |e| >= 2 && Ascending(e[1..])
    requires forall j :: 0 <= j < k ==> arr[j][0] < e[0]
    requires forall j :: k <= j < |arr| ==> arr[j][0] > e[0]
    ensures WellFormed(arr[..k] + [e] + arr[k..])
  {
    var a := arr[..k] + [e] + arr[k..];
    assert forall j :: 0 <= j < |a| ==> a[j] == if j < k then arr[j] else if j == k then e else arr[j - 1];
  }

  /** Replacing an entry by one with the same key and ascending blocks keeps
      the list well formed. */
  lemma WellFormedReplace(arr: seq<Entry>, k: int, e: Entry)
    requires WellFormed(arr) && 0 <= k < |arr| && |e| >= 2 && e[0] == arr[k][0] && Ascending(e[1..])
    ensures WellFormed(arr[k := e])
  {
  }

  /** Removing an entry keeps the list well formed. */
  lemma WellFormedRemoveAt(arr: seq<Entry>, k: int)
    requires WellFormed(arr) && 0 <= k < |arr|
    ensures WellFormed(arr[..k] + arr[k + 1..])
  {
    var a := arr[..k] + arr[k + 1..];
    assert forall j :: 0 <= j < |a| ==> a[j] == if j < k then arr[j] else arr[j + 1];
  }

  /** The number of blocks in the entries. */
  function Occurrences(arr: seq<Entry>): int
  {
    if arr == [] then 0 else |arr[0]| - 1 + Occurrences(arr[1..])
  }

  /** Counting the entries' blocks counts the model's occurrences. */
  lemma {:induction false} OccurrencesTotal(arr: seq<Entry>)
    requires KeysAscending(arr)
    ensures Occurrences(arr) == Total(ModelOf(arr))
  {
    if arr != [] {
      OccurrencesTotal(arr[1..]);
      ModelAbsent(arr[1..], arr[0][0]);
      TotalOfKey(ModelOf(arr[1..]), arr[0][0], multiset(arr[0][1..]));
    }
  }

  class OrdIndex {
    var index: seq<Entry>

    ghost predicate Valid()
      reads this
    {
      WellFormed(index)
    }

    /** The (key, blocks) state the entries stand for. */
    ghost function Model(): (m: IndexModel.Model)
      requires Valid()
      reads this
      ensures NoEmpty(m)
    {
      ModelNoEmpty(index);
      ModelOf(index)
    }

    /** new OrdIndex(): no entries. */
    constructor ()
      ensures Valid() && Model() == map[]
    {
      index := [];
    }

    /** lookup(key): the distinct blocks stored under the key, none when the
        key is absent. The Java code collects them through a HashSet, whose
        order is unspecified, so no order is promised. */
    method Lookup(key: int) returns (result: seq<int>)
      requires Valid()
      ensures forall i, j :: 0 <= i < j < |result| ==> result[i] != result[j]
      ensures forall b :: b in result <==> b in IndexModel.Lookup(Model(), key)
    {
      var ind := BinarySearch(index, 0, |index| - 1, key);
      BinarySearchFinds(index, 0, |index| - 1, key);
      if ind == -1 {
        ModelAbsent(index, key);
        return [];
      }
      ModelAt(index, ind);
      result := Distinct(index[ind][1..]);
    }

    /** insert(key, blockNum): the block is added under the key, a new entry
        being created at the key's sorted position when the key is absent;
        duplicates are kept. */
    method Insert(key: int, blockNum: int)
      requires Valid()
      modifies this
      ensures Valid() && Model() == IndexModel.Insert(old(Model()), key, blockNum)
    {
      ModelNoEmpty(index);
      if |index| > 0 {
        var ind := AddSearch(index, 0, |index| - 1, key);
        AddSearchFinds(index, 0, |index| - 1, key);
        if ind > |index| - 1 {
          InsertNewKey(ind, key, blockNum);
        } else if index[ind][0] != key {
          InsertNewKey(ind, key, blockNum);
        } else {
          AddToKey(ind, blockNum);
        }
      } else {
        InsertNewKey(0, key, blockNum);
      }
    }

    /** A new entry [key, blockNum] at position `ind`, where it keeps the keys
        ascending. */
    method InsertNewKey(ind: int, key: int, blockNum: int)
      requires Valid() && 0 <= ind <= |index|
      requires forall k :: 0 <= k < ind ==> index[k][0] < key
      requires forall k :: ind <= k < |index| ==> index[k][0] > key
      modifies this
      ensures index == old(index[..ind] + [[key, blockNum]] + index[ind..])
      ensures Valid() && Model() == IndexModel.Insert(old(Model()), key, blockNum)
    {
      var e: Entry := [key, blockNum];
      assert e[1..] == [blockNum];
      ModelAbsent(index, key);
      ModelInsertAt(index, ind, e);
      WellFormedInsertAt(index, ind, e);
      assert multiset(e[1..]) == Blocks(Model(), key) + multiset{blockNum};
      index := index[..ind] + [e] + index[ind..];
    }

    /** blockNum appended to the entry at `ind`, whose blocks are then sorted. */
    method AddToKey(ind: int, blockNum: int)
      requires Valid() && 0 <= ind < |index|
      modifies this
      ensures index == old(index[ind := [index[ind][0]] + SortAppended(index[ind][1..], blockNum)])
      ensures Valid() && Model() == IndexModel.Insert(old(Model()), old(index[ind][0]), blockNum)
    {
      var key := index[ind][0];
      var e: Entry := [key] + SortAppended(index[ind][1..], blockNum);
      assert e[1..] == SortAppended(index[ind][1..], blockNum);
      ModelAt(index, ind);
      ModelReplace(index, ind, e);
      WellFormedReplace(index, ind, e);
      index := index[ind := e];
    }

    /** delete(key, blockNum): one occurrence of the block is removed from
        under the key, nothing when absent, and the entry goes when its last
        block goes. */
    method Delete(key: int, blockNum: int)
      requires Valid()
      modifies this
      ensures Valid() && Model() == IndexModel.Delete(old(Model()), key, blockNum)
    {
      ModelNoEmpty(index);
      var ind := BinarySearch(index, 0, |index| - 1, key);
      BinarySearchFinds(index, 0, |index| - 1, key);
      if ind == -1 {
        ModelAbsent(index, key);
        return;
      }
      ModelAt(index, ind);
      var holdList := index[ind][1..];
      var ind2 := DeleteSearch(holdList, 0, |holdList| - 1, blockNum);
      DeleteSearchFinds(holdList, 0, |holdList| - 1, blockNum);
      if ind2 != -1 {
        RemoveBlock(ind, ind2);
      } else {
        assert blockNum !in multiset(holdList);
      }
    }

    /** The block at position `ind2` of entry `ind`'s blocks is removed, and
        the entry too when no block is left. */
    method RemoveBlock(ind: int, ind2: int)
      requires Valid() && 0 <= ind < |index| && 0 <= ind2 < |index[ind]| - 1
      modifies this
      ensures Valid() && Model() == IndexModel.Delete(old(Model()), old(index[ind][0]), old(index[ind][ind2 + 1]))
    {
      var key := index[ind][0];
      var b := index[ind][ind2 + 1];
      var tail := index[ind][1..];
      var e: Entry := index[ind][..ind2 + 1] + index[ind][ind2 + 2..];
      assert tail[ind2] == b;
      assert e == [key] + (tail[..ind2] + tail[ind2 + 1..]);
      RemoveOne(tail, ind2);
      ModelAt(index, ind);
      if |e| == 1 {
        ModelRemoveAt(index, ind);
        WellFormedRemoveAt(index, ind);
        assert |multiset(tail) - multiset{b}| == 0;
        index := index[..ind] + index[ind + 1..];
      } else {
        ModelReplace(index, ind, e);
        WellFormedReplace(index, ind, e);
        index := index[ind := e];
      }
    }

    /** size(): the number of stored (key, block) occurrences. */
    method Size() returns (size: int)
      requires Valid()
      ensures size == Total(Model())
    {
      size := 0;
      var i := 0;
      while i < |index|
        invariant 0 <= i <= |index|
        invariant size + Occurrences(index[i..]) == Occurrences(index)
      {
        assert index[i..][1..] == index[i + 1..];
        size := size + |index[i]| - 1;
        i := i + 1;
      }
      OccurrencesTotal(index);
    }
  }
}
