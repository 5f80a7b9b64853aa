/** The two indexes side by side, and the behaviour the ordered index's
    unit tests expect of it, derived from the index's contracts. */
module IndexScenarios {
  import opened IndexModel
  import opened IndexFacts
  import opened OrdIndexes
  import opened HashIndexes

  /** An OrdIndex and a HashIndex that start empty and go through the same
      inserts and deletes stand for the same model at every step, so a
      lookup on either finds the same blocks, and both count the same
      occurrences. */
  method Agree(ops: seq<Op>, key: int) returns (fromOrd: seq<int>, fromHash: seq<int>, ordSize: int, hashSize: int)
    ensures forall b :: b in fromOrd <==> b in fromHash
    ensures forall b :: b in fromOrd <==> b in IndexModel.Lookup(Replay(ops), key)
    ensures ordSize == hashSize == Total(Replay(ops))
  {
    var o := new OrdIndex();
    var h := new HashIndex();
    var i := 0;
    while i < |ops|
      invariant 0 <= i <= |ops|
      invariant o.Valid() && h.Valid()
      invariant o.Model() == Replay(ops[..i]) && h.Model() == Replay(ops[..i])
    {
      assert ops[..i + 1][..i] == ops[..i];
      Step(o, h, ops[i]);
      i := i + 1;
    }
    assert ops[..i] == ops;
    fromOrd := o.Lookup(key);
    fromHash := h.Lookup(key);
    ordSize := o.Size();
    hashSize := h.Size();
  }

  /** The list holds the elements of the set and nothing else. */
  ghost predicate Exactly(r: seq<int>, s: set<int>) {
    forall b :: b in r <==> b in s
  }

  /** One operation applied to both indexes. */
  method Step(o: OrdIndex, h: HashIndex, op: Op)
    requires o.Valid() && h.Valid()
    modifies o, h
    ensures o.Valid() && h.Valid()
    ensures o.Model() == Apply(old(o.Model()), op) && h.Model() == Apply(old(h.Model()), op)
  {
    match op
    case InsertOp(k, b) =>
      o.Insert(k, b);
      h.Insert(k, b);
    case DeleteOp(k, b) =>
      o.Delete(k, b);
      h.Delete(k, b);
  }

  /** The seven inserts every ordered-index test starts from. */
  method Setup() returns (idx: OrdIndex)
    ensures fresh(idx) && idx.Valid() && idx.Model() == SetupModel()
  {
    idx := new OrdIndex();
    idx.Insert(1, 1);
    idx.Insert(1, 2);
    idx.Insert(2, 1);
    idx.Insert(2, 2);
    idx.Insert(2, 3);
    idx.Insert(3, 1);
    idx.Insert(4, 2);
  }

  /** Lookups after the setup: keys 1, 2 and 4 give their distinct blocks
      and the absent key 6 gives none. */
  method LookupScenario() returns (r1: seq<int>, r2: seq<int>, r4: seq<int>, r6: seq<int>)
    ensures |r1| == 2 && Exactly(r1, {1, 2})
    ensures |r2| == 3 && Exactly(r2, {1, 2, 3})
    ensures |r4| == 1 && Exactly(r4, {2})
    ensures r6 == []
  {
    var idx := Setup();
    ExpectedSizes();
    SetupLookup1();
    r1 := LookupKnown(idx, 1, {1, 2}, 2);
    SetupLookup2();
    r2 := LookupKnown(idx, 2, {1, 2, 3}, 3);
    SetupLookup4();
    r4 := LookupKnown(idx, 4, {2}, 1);
    SetupLookup6();
    r6 := LookupKnown(idx, 6, {}, 0);
  }

  /** A lookup whose result is known: it returns each block once. */
  method LookupKnown(idx: OrdIndex, key: int, ghost s: set<int>, ghost n: int) returns (r: seq<int>)
    requires idx.Valid() && IndexModel.Lookup(idx.Model(), key) == s && |s| == n
    ensures |r| == n && Exactly(r, s)
  {
    r := idx.Lookup(key);
    DistinctCount(r, s);
  }

  /** Deleting (2, 1) and then (1, 1) twice leaves 6, 5 and 5 occurrences:
      the second delete of (1, 1) finds nothing to remove. Deleting (2, 2)
      and (2, 3) then leaves nothing under key 2. */
  method DeleteScenario() returns (s1: int, s2: int, s3: int, r: seq<int>)
    ensures s1 == 6 && s2 == 5 && s3 == 5 && r == []
  {
    var idx := Setup();
    idx.Delete(2, 1);
    AfterDelete21Total();
    s1 := idx.Size();
    idx.Delete(1, 1);
    AfterDelete11Total();
    s2 := idx.Size();
    idx.Delete(1, 1);
    AfterDelete11AgainTotal();
    s3 := idx.Size();
    idx.Delete(2, 2);
    idx.Delete(2, 3);
    AfterDeleteKey2Lookup();
    r := LookupKnown(idx, 2, {}, 0);
  }

  /** Lookups of key 2 after inserting (2, 1) again and deleting it twice:
      blocks 1, 2 and 3, again 1, 2 and 3, then 2 and 3. Block 1 survives
      the first delete only because it was stored twice. */
  method DeleteLookupScenario() returns (r1: seq<int>, r2: seq<int>, r3: seq<int>)
    ensures |r1| == 3 && Exactly(r1, {1, 2, 3})
    ensures |r2| == 3 && Exactly(r2, {1, 2, 3})
    ensures |r3| == 2 && Exactly(r3, {2, 3})
  {
    var idx := Setup();
    ExpectedSizes();
    ReinsertLookups();
    idx.Insert(2, 1);
    r1 := LookupKnown(idx, 2, {1, 2, 3}, 3);
    idx.Delete(2, 1);
    r2 := LookupKnown(idx, 2, {1, 2, 3}, 3);
    idx.Delete(2, 1);
    r3 := LookupKnown(idx, 2, {2, 3}, 2);
  }
}
