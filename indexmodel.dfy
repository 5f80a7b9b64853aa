/** The abstract state shared by OrdIndex and HashIndex: each search key
    maps to the multiset of block numbers inserted under it and not yet
    deleted. Both implementations keep duplicates (an insert of a pair
    already present adds a second occurrence, a delete removes one), so the
    state is a multiset per key, and a key whose last block is deleted
    disappears. */
module IndexModel {

  type Model = map<int, multiset<int>>

  /** No key maps to an empty multiset of blocks. */
  predicate NoEmpty(m: Model) {
    forall k :: k in m ==> m[k] != multiset{}
  }

  /** The blocks stored under `key`, none when the key is absent. */
  function Blocks(m: Model, key: int): multiset<int> {
    if key in m then m[key] else multiset{}
  }

  /** insert(key, blockNum): one more occurrence of the block under the key. */
  function Insert(m: Model, key: int, b: int): (r: Model)
    ensures Blocks(r, key) == Blocks(m, key) + multiset{b}
    ensures forall k :: k != key ==> Blocks(r, k) == Blocks(m, k)
    ensures NoEmpty(m) ==> NoEmpty(r)
  {
    m[key := Blocks(m, key) + multiset{b}]
  }

  /** delete(key, blockNum): one occurrence fewer, nothing when the pair is
      absent, and the key goes when its last block goes. */
  function Delete(m: Model, key: int, b: int): (r: Model)
    ensures Blocks(r, key) == Blocks(m, key) - multiset{b}
    ensures forall k :: k != key ==> Blocks(r, k) == Blocks(m, k)
  {
    if b !in Blocks(m, key) then m
    else if Blocks(m, key) - multiset{b} == multiset{} then m - {key}
    else m[key := m[key] - multiset{b}]
  }

  /** A delete never leaves a key without blocks. */
  lemma DeleteNoEmpty(m: Model, key: int, b: int)
    requires NoEmpty(m)
    ensures NoEmpty(Delete(m, key, b))
  {
    var r := Delete(m, key, b);
    forall k | k in r
      ensures r[k] != multiset{}
    {
      assert Blocks(r, k) == r[k];
    }
  }

  /** lookup(key) as a set: the distinct blocks stored under the key. */
  function Lookup(m: Model, key: int): set<int> {
    set b | b in Blocks(m, key)
  }

  /** The blocks of a list, each once, in the order of their first
      occurrence: what collecting the list through a HashSet yields, up to
      the set's iteration order. */
  method Distinct(s: seq<int>) returns (r: seq<int>)
    ensures forall i, j :: 0 <= i < j < |r| ==> r[i] != r[j]
    ensures forall b :: b in r <==> b in s
  {
    r := [];
    var i := 0;
    while i < |s|
      invariant 0 <= i <= |s|
      invariant forall p, q :: 0 <= p < q < |r| ==> r[p] != r[q]
      invariant forall b :: b in r <==> b in s[..i]
    {
      if s[i] !in r {
        r := r + [s[i]];
      }
      assert s[..i + 1] == s[..i] + [s[i]];
      i := i + 1;
    }
    assert s[..i] == s;
  }

  /** A list without repeats holding exactly the elements of a set is as
      long as the set is large. */
  lemma {:induction false} DistinctCount(r: seq<int>, s: set<int>)
    requires forall i, j :: 0 <= i < j < |r| ==> r[i] != r[j]
    requires forall b :: b in r <==> b in s
    ensures |r| == |s|
    decreases |r|
  {
    if r == [] {
      forall b
        ensures b !in s
      {
      }
      assert s == {};
    } else {
      var n := |r| - 1;
      var x := r[n];
      var p := r[..n];
      assert r == p + [x];
      forall b
        ensures b in p <==> b in s - {x}
      {
        if b in p {
          var i :| 0 <= i < n && p[i] == b;
          assert r[i] == b;
        }
      }
      DistinctCount(p, s - {x});
    }
  }

  /** The number of stored (key, block) occurrences. */
  ghost function Total(m: Model): nat
    decreases |m|
  {
    if |m| == 0 then 0
    else
      var k := PickKey(m);
      RemoveCard(m, k);
      |m[k]| + Total(m - {k})
  }

  /** Some key of a non-empty model. */
  ghost function PickKey(m: Model): (k: int)
    requires |m| > 0
    ensures k in m
  {
    HasKey(m);
    var k :| k in m.Keys; k
  }

  lemma HasKey(m: Model)
    requires |m| > 0
    ensures exists k :: k in m.Keys
  {
    if forall k :: k !in m.Keys {
      assert false;
    }
  }

  /** Removing a present key removes one entry. */
  lemma RemoveCard(m: Model, k: int)
    requires k in m
    ensures |m - {k}| == |m| - 1
  {
    assert m.Keys == (m - {k}).Keys + {k};
  }

  /** Removing two keys in either order leaves the same model. */
  lemma RemoveTwo(m: Model, j: int, k: int)
    ensures m - {j} - {k} == m - {k} - {j}
  {
  }

  /** The total may be counted starting from any key. */
  lemma {:induction false} TotalRemove(m: Model, k: int)
    requires k in m
    ensures Total(m) == |m[k]| + Total(m - {k})
    decreases |m|
  {
    var j := PickKey(m);
    if j != k {
      RemoveCard(m, j);
      RemoveCard(m, k);
      TotalRemove(m - {j}, k);
      TotalRemove(m - {k}, j);
      RemoveTwo(m, j, k);
    }
  }

  /** Two models that agree on every key have the same total. */
  lemma TotalOfKey(m: Model, key: int, v: multiset<int>)
    requires key !in m
    ensures Total(m[key := v]) == |v| + Total(m)
  {
    TotalRemove(m[key := v], key);
    assert m[key := v] - {key} == m;
  }

  /** Replacing the blocks of a present key changes the total by the
      difference in their numbers. */
  lemma TotalUpdate(m: Model, key: int, v: multiset<int>)
    requires key in m
    ensures Total(m[key := v]) == Total(m) - |m[key]| + |v|
  {
    TotalRemove(m, key);
    TotalRemove(m[key := v], key);
    assert m[key := v] - {key} == m - {key};
  }

  /** An insert adds one occurrence to the total. */
  lemma TotalInsert(m: Model, key: int, b: int)
    ensures Total(Insert(m, key, b)) == Total(m) + 1
  {
    if key in m {
      TotalUpdate(m, key, m[key] + multiset{b});
    } else {
      assert Blocks(m, key) + multiset{b} == multiset{b};
      TotalOfKey(m, key, multiset{b});
    }
  }

  /** A delete removes one occurrence from the total when the pair is
      present, and none otherwise. */
  lemma TotalDelete(m: Model, key: int, b: int)
    ensures Total(Delete(m, key, b)) == Total(m) - (if b in Blocks(m, key) then 1 else 0)
  {
    if b in Blocks(m, key) {
      var v := m[key] - multiset{b};
      assert |v| == |m[key]| - 1;
      if v == multiset{} {
        TotalRemove(m, key);
      } else {
        TotalUpdate(m, key, v);
      }
    }
  }

  /** Deleting a pair just inserted restores the model. */
  lemma DeleteInsert(m: Model, key: int, b: int)
    requires NoEmpty(m)
    ensures Delete(Insert(m, key, b), key, b) == m
  {
    var v := Blocks(m, key) + multiset{b};
    assert v - multiset{b} == Blocks(m, key);
    if key in m {
      assert m[key := v][key := Blocks(m, key)] == m;
    } else {
      assert m[key := v] - {key} == m;
    }
  }

  /** A lookup after an insert finds the inserted block as well. */
  lemma LookupInsert(m: Model, key: int, b: int, k: int)
    ensures Lookup(Insert(m, key, b), k) == if k == key then Lookup(m, k) + {b} else Lookup(m, k)
  {
  }

  /** A key is present exactly when a lookup finds some block under it. */
  lemma LookupNonEmpty(m: Model, key: int)
    requires NoEmpty(m)
    ensures key in m <==> Lookup(m, key) != {}
  {
    if key in m {
      if forall b :: b !in m[key] {
        assert false;
      }
      var b :| b in m[key];
      assert b in Lookup(m, key);
    }
  }

  /** An operation of the DBIndex interface. */
  datatype Op = InsertOp(key: int, blockNum: int) | DeleteOp(key: int, blockNum: int)

  function Apply(m: Model, op: Op): Model {
    match op
    case InsertOp(k, b) => Insert(m, k, b)
    case DeleteOp(k, b) => Delete(m, k, b)
  }

  /** The model reached from an empty index by the operations in order. */
  function Replay(ops: seq<Op>): (m: Model)
    ensures NoEmpty(m)
  {
    if ops == [] then map[]
    else
      var m := Replay(ops[..|ops| - 1]);
      var op := ops[|ops| - 1];
      if op.DeleteOp? then DeleteNoEmpty(m, op.key, op.blockNum); Apply(m, op)
      else Apply(m, op)
  }
}
