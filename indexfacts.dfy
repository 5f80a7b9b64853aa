/** The models the ordered index's unit tests go through, built from the
    abstract operations: the setup's seven inserts and the deletes and
    lookups that follow them. */
module IndexFacts {
  import opened IndexModel

  /** The model after the seven inserts every ordered-index test starts
      from. */
  function SetupModel(): Model {
    Insert(Insert(Insert(Insert(Insert(Insert(Insert(map[], 1, 1), 1, 2), 2, 1), 2, 2), 2, 3), 3, 1), 4, 2)
  }

  /** The seven inserts hold seven occurrences. */
  lemma SetupTotal()
    ensures Total(SetupModel()) == 7
  {
    var m0: Model := map[];
    var m1 := Insert(m0, 1, 1);
    var m2 := Insert(m1, 1, 2);
    var m3 := Insert(m2, 2, 1);
    var m4 := Insert(m3, 2, 2);
    var m5 := Insert(m4, 2, 3);
    var m6 := Insert(m5, 3, 1);
    TotalInsert(m0, 1, 1);
    TotalInsert(m1, 1, 2);
    TotalInsert(m2, 2, 1);
    TotalInsert(m3, 2, 2);
    TotalInsert(m4, 2, 3);
    TotalInsert(m5, 3, 1);
    TotalInsert(m6, 4, 2);
  }

  /** A lookup finds the elements of the blocks stored under the key. */
  lemma LookupOf(m: Model, key: int, v: multiset<int>, s: set<int>)
    requires Blocks(m, key) == v
    requires forall b :: b in v <==> b in s
    ensures IndexModel.Lookup(m, key) == s
  {
    forall b
      ensures b in IndexModel.Lookup(m, key) <==> b in s
    {
    }
  }

  /** The sizes of the expected lookup results. */
  lemma ExpectedSizes()
    ensures |{2}| == 1 && |{1, 2}| == 2 && |{2, 3}| == 2 && |{1, 2, 3}| == 3
  {
    assert {1, 2} == {1} + {2};
    assert {2, 3} == {2} + {3};
    assert {1, 2, 3} == {1, 2} + {3};
  }

  /** Blocks 1 and 2 under key 1 after the setup. */
  lemma SetupKey1()
    ensures Blocks(SetupModel(), 1) == multiset{1, 2}
  {
  }

  /** Blocks 1, 2 and 3 under key 2 after the setup. */
  lemma SetupKey2()
    ensures Blocks(SetupModel(), 2) == multiset{1, 2, 3}
  {
  }

  /** Block 2 under key 4 after the setup. */
  lemma SetupKey4()
    ensures Blocks(SetupModel(), 4) == multiset{2}
  {
  }

  /** Nothing under key 6 after the setup. */
  lemma SetupKey6()
    ensures Blocks(SetupModel(), 6) == multiset{}
  {
  }

  /** A lookup of key 1 after the setup finds blocks 1 and 2. */
  lemma SetupLookup1()
    ensures IndexModel.Lookup(SetupModel(), 1) == {1, 2}
  {
    SetupKey1();
    LookupOf(SetupModel(), 1, multiset{1, 2}, {1, 2});
  }

  /** A lookup of key 2 after the setup finds blocks 1, 2 and 3. */
  lemma SetupLookup2()
    ensures IndexModel.Lookup(SetupModel(), 2) == {1, 2, 3}
  {
    SetupKey2();
    LookupOf(SetupModel(), 2, multiset{1, 2, 3}, {1, 2, 3});
  }

  /** A lookup of key 4 after the setup finds block 2. */
  lemma SetupLookup4()
    ensures IndexModel.Lookup(SetupModel(), 4) == {2}
  {
    SetupKey4();
    LookupOf(SetupModel(), 4, multiset{2}, {2});
  }

  /** A lookup of key 6 after the setup finds nothing. */
  lemma SetupLookup6()
    ensures IndexModel.Lookup(SetupModel(), 6) == {}
  {
    SetupKey6();
    LookupOf(SetupModel(), 6, multiset{}, {});
  }

  /** The model after deleting (2, 1) from the setup. */
  function AfterDelete21(): Model {
    Delete(SetupModel(), 2, 1)
  }

  /** The model after deleting (2, 1) and then (1, 1). */
  function AfterDelete11(): Model {
    Delete(AfterDelete21(), 1, 1)
  }

  /** The model after deleting (1, 1) a second time. */
  function AfterDelete11Again(): Model {
    Delete(AfterDelete11(), 1, 1)
  }

  /** The model after deleting (2, 2) and (2, 3) as well. */
  function AfterDeleteKey2(): Model {
    Delete(Delete(AfterDelete11Again(), 2, 2), 2, 3)
  }

  /** Deleting (2, 1) from the setup leaves six occurrences. */
  lemma AfterDelete21Total()
    ensures Total(AfterDelete21()) == 6
  {
    SetupTotal();
    SetupKey2();
    TotalDelete(SetupModel(), 2, 1);
  }

  /** Deleting (2, 1) leaves blocks 1 and 2 under key 1. */
  lemma AfterDelete21Key1()
    ensures Blocks(AfterDelete21(), 1) == multiset{1, 2}
  {
    SetupKey1();
  }

  /** Deleting (1, 1) then leaves five occurrences. */
  lemma AfterDelete11Total()
    ensures Total(AfterDelete11()) == 5
  {
    AfterDelete21Total();
    AfterDelete21Key1();
    TotalDelete(AfterDelete21(), 1, 1);
  }

  /** Deleting (1, 1) leaves block 2 alone under key 1. */
  lemma AfterDelete11Key1()
    ensures Blocks(AfterDelete11(), 1) == multiset{2}
  {
    AfterDelete21Key1();
    assert multiset{1, 2} - multiset{1} == multiset{2};
  }

  /** Deleting (1, 1) again finds nothing to remove: still five occurrences. */
  lemma AfterDelete11AgainTotal()
    ensures Total(AfterDelete11Again()) == 5
  {
    AfterDelete11Total();
    AfterDelete11Key1();
    TotalDelete(AfterDelete11(), 1, 1);
  }

  /** The deletes under key 1 leave blocks 2 and 3 under key 2. */
  lemma AfterDelete11AgainKey2()
    ensures Blocks(AfterDelete11Again(), 2) == multiset{2, 3}
  {
    SetupKey2();
    assert multiset{1, 2, 3} - multiset{1} == multiset{2, 3};
  }

  /** Deleting (2, 2) and (2, 3) then leaves nothing under key 2. */
  lemma AfterDeleteKey2Lookup()
    ensures IndexModel.Lookup(AfterDeleteKey2(), 2) == {}
  {
    AfterDelete11AgainKey2();
    assert multiset{2, 3} - multiset{2} - multiset{3} == multiset{};
    LookupOf(AfterDeleteKey2(), 2, multiset{}, {});
  }

  /** Inserting (2, 1) again stores block 1 twice under key 2. */
  lemma ReinsertKey2()
    ensures Blocks(Insert(SetupModel(), 2, 1), 2) == multiset{1, 1, 2, 3}
  {
    SetupKey2();
  }

  /** One delete of (2, 1) then leaves block 1 once under key 2. */
  lemma ReinsertDeleteKey2()
    ensures Blocks(Delete(Insert(SetupModel(), 2, 1), 2, 1), 2) == multiset{1, 2, 3}
  {
    ReinsertKey2();
  }

  /** A second delete of (2, 1) removes block 1 from key 2. */
  lemma ReinsertDeleteTwiceKey2()
    ensures Blocks(Delete(Delete(Insert(SetupModel(), 2, 1), 2, 1), 2, 1), 2) == multiset{2, 3}
  {
    ReinsertDeleteKey2();
  }

  /** Lookups of key 2 along the reinsert scenario: 1, 2 and 3 twice, then
      2 and 3. */
  lemma ReinsertLookups()
    ensures IndexModel.Lookup(Insert(SetupModel(), 2, 1), 2) == {1, 2, 3}
    ensures IndexModel.Lookup(Delete(Insert(SetupModel(), 2, 1), 2, 1), 2) == {1, 2, 3}
    ensures IndexModel.Lookup(Delete(Delete(Insert(SetupModel(), 2, 1), 2, 1), 2, 1), 2) == {2, 3}
  {
    ReinsertKey2();
    LookupOf(Insert(SetupModel(), 2, 1), 2, multiset{1, 1, 2, 3}, {1, 2, 3});
    ReinsertDeleteKey2();
    LookupOf(Delete(Insert(SetupModel(), 2, 1), 2, 1), 2, multiset{1, 2, 3}, {1, 2, 3});
    ReinsertDeleteTwiceKey2();
    LookupOf(Delete(Delete(Insert(SetupModel(), 2, 1), 2, 1), 2, 1), 2, multiset{2, 3}, {2, 3});
  }
}
