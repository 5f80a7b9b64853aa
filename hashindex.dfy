/** HashIndex: a hash index kept as a map from each search key to the list
    of block numbers stored under it. Every list is non-empty and ascending,
    since each insert sorts the list after appending to it; duplicates are
    kept. The map and its lists are modelled by values the methods reassign;
    no list is shared outside the index. */
module HashIndexes {
  import opened IndexModel
  import opened SortedLists

  /** The model of a map from keys to lists: each list as a multiset. */
  ghost function ModelOfLists(index: map<int, seq<int>>): (m: Model)
    ensures m.Keys == index.Keys
    ensures forall k :: k in m ==> m[k] == multiset(index[k])
  {
    map k | k in index :: multiset(index[k])
  }

  /** Replacing a key's list replaces its multiset. */
  lemma ModelOfListsUpdate(index: map<int, seq<int>>, key: int, s: seq<int>)
    ensures ModelOfLists(index[key := s]) == ModelOfLists(index)[key := multiset(s)]
  {
  }

  /** Removing a key's list removes the key. */
  lemma ModelOfListsRemove(index: map<int, seq<int>>, key: int)
    ensures ModelOfLists(index - {key}) == ModelOfLists(index) - {key}
  {
  }

  /** The keys of `m` that lie in `keys`. */
  ghost function Restrict(m: Model, keys: set<int>): (r: Model)
    ensures r.Keys == m.Keys * keys
    ensures forall k :: k in r ==> r[k] == m[k]
  {
    map k | k in m && k in keys :: m[k]
  }

  /** Counting the blocks of one more key adds them to the total. */
  lemma TotalRestrictRemove(m: Model, keys: set<int>, k: int)
    requires k in keys && k in m
    ensures Total(Restrict(m, keys)) == |m[k]| + Total(Restrict(m, keys - {k}))
  {
    var r := Restrict(m, keys);
    TotalRemove(r, k);
    assert r - {k} == Restrict(m, keys - {k});
  }

  class HashIndex {
    var index: map<int, seq<int>>

    /** No key maps to an empty list, and every list ascends. */
    ghost predicate Valid()
      reads this
    {
      forall k :: k in index ==> index[k] != [] && Ascending(index[k])
    }

    /** The (key, blocks) state the map stands for. */
    ghost function Model(): (m: IndexModel.Model)
      requires Valid()
      reads this
      ensures NoEmpty(m)
    {
      var m := ModelOfLists(index);
      assert forall k :: k in m ==> index[k][0] in m[k];
      m
    }

    /** new HashIndex(): an empty map. */
    constructor ()
      ensures Valid() && Model() == map[]
    {
      index := map[];
    }

    /** lookup(key): the distinct blocks stored under the key, none when the
        key is absent; the Java code collects them through a HashSet. */
    method Lookup(key: int) returns (result: seq<int>)
      requires Valid()
      ensures forall i, j :: 0 <= i < j < |result| ==> result[i] != result[j]
      ensures forall b :: b in result <==> b in IndexModel.Lookup(Model(), key)
    {
      result := [];
      if key in index {
        result := Distinct(index[key]);
      }
    }

    /** insert(key, blockNum): the block is appended to the key's list, which
        is then sorted, or becomes the key's new one-element list. */
    method Insert(key: int, blockNum: int)
      requires Valid()
      modifies this
      ensures index == old(index[key := if key in index then SortAppended(index[key], blockNum) else [blockNum]])
      ensures Valid() && Model() == IndexModel.Insert(old(Model()), key, blockNum)
    {
      var hold := [blockNum];
      if key in index {
        hold := SortAppended(index[key], blockNum);
      }
      assert multiset(hold) == Blocks(Model(), key) + multiset{blockNum};
      ModelOfListsUpdate(index, key, hold);
      index := index[key := hold];
    }

    /** delete(key, blockNum): the first occurrence of the block is removed
        from the key's list, and the key when its list empties; nothing
        happens when the key or the block is absent. */
    method Delete(key: int, blockNum: int)
      requires Valid()
      modifies this
      ensures Valid() && Model() == IndexModel.Delete(old(Model()), key, blockNum)
    {
      if key in index {
        var ind := IndexOf(index[key], blockNum);
        if ind != -1 {
          RemoveAt(key, ind);
        }
      }
    }

    /** The block at position `ind` of the key's list is removed, and the
        key too when its list empties. */
    method RemoveAt(key: int, ind: int)
      requires Valid() && key in index && 0 <= ind < |index[key]|
      modifies this
      ensures Valid() && Model() == IndexModel.Delete(old(Model()), key, old(index[key][ind]))
    {
      var hold := index[key];
      RemoveOne(hold, ind);
      hold := hold[..ind] + hold[ind + 1..];
      if |hold| == 0 {
        assert multiset(hold) == multiset{};
        ModelOfListsRemove(index, key);
        index := index - {key};
      } else {
        ModelOfListsUpdate(index, key, hold);
        index := index[key := hold];
      }
    }

    /** size(): the number of stored (key, block) occurrences, summed over
        the keys in whatever order the key set yields them. */
    method Size() returns (size: int)
      requires Valid()
      ensures size == Total(Model())
    {
      size := 0;
      var keys := index.Keys;
      assert Restrict(Model(), keys) == Model();
      while keys != {}
        invariant keys <= index.Keys
        invariant size + Total(Restrict(Model(), keys)) == Total(Model())
        decreases |keys|
      {
        var k :| k in keys;
        TotalRestrictRemove(Model(), keys, k);
        size := size + |index[k]|;
        keys := keys - {k};
      }
      assert Restrict(Model(), keys) == map[];
    }
  }
}
