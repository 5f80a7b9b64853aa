/** Two places where HeapDB.java does something other than what the engine
    evidently means to do. Each is modelled as written, with a small table
    on which the difference shows; the rest of the model uses the intended
    behaviour (HeapEngine.HeapDB.RemoveAt and HeapEngine.HeapDB.ScanLookup). */
module HeapFindings {
  import opened Outcomes
  import opened Fields
  import opened HeapLayout
  import opened HeapTables
  import opened HeapScans
  import opened HeapUpdates
  import opened HeapLookups
  import IndexModel

  /** The index maintenance of delete(key) as written, on one index:
      lookup(key) in that index, then delete(key, b) for every block listed,
      whatever field the index is on. */
  function KeyTrim(m: IndexModel.Model, key: int, bs: seq<int>): IndexModel.Model {
    if bs == [] then m else KeyTrim(IndexModel.Delete(m, key, bs[0]), key, bs[1..])
  }

  /** With unique primary keys, a live record holding `key` is the only
      record of the file with that key. */
  lemma UniqueOccurs(t: Table, p: Pos, key: int, b: int)
    requires UniqueKeys(t) && Holds(t, p, 0, key)
    ensures Occurs(t, b, 0, key) == if b == p.block then 1 else 0
  {
    if b in t {
      var ps := SlotsFrom(t[b], b, 0);
      var hs := Hits(t, ps, 0, key);
      forall i | 0 <= i < |hs|
        ensures hs[i] == p && hs[i].block == b
      {
        HitsMembers(t, ps, 0, key, hs[i]);
        SlotsFromMembers(t[b], b, 0, hs[i]);
      }
      SlotsFromAscending(t[b], b, 0);
      HitsAscending(t, ps, 0, key);
      assert |hs| >= 2 ==> Before(hs[0], hs[1]);
      HitsMembers(t, ps, 0, key, p);
      SlotsFromMembers(t[b], b, 0, p);
    }
  }

  /** On the index of the primary key the trim as written is the right
      delete: the index lists the deleted record's block once, and one
      occurrence of it goes. */
  lemma KeyTrimOnKey(m: IndexModel.Model, t: Table, p: Pos, key: int, bs: seq<int>)
    requires IndexAgrees(m, t, 0) && UniqueKeys(t) && Holds(t, p, 0, key)
    requires Distinct(bs) && forall b :: b in bs <==> b in IndexModel.Lookup(m, key)
    ensures KeyTrim(m, key, bs) == IndexModel.Delete(m, key, p.block)
  {
    forall b
      ensures b in bs <==> b == p.block
    {
      UniqueOccurs(t, p, key, b);
      assert IndexModel.Blocks(m, key)[b] == Occurs(t, b, 0, key);
    }
    forall i | 0 <= i < |bs|
      ensures bs[i] == p.block
    {
      assert bs[i] in bs;
    }
    DistinctPair(bs);
    assert p.block in bs;
    assert bs == [p.block];
    assert bs[1..] == [];
  }

  lemma DistinctPair(bs: seq<int>)
    requires Distinct(bs)
    ensures |bs| >= 2 ==> bs[0] != bs[1]
  {
  }

  /** Block 2 holds the records (1, 5) and (2, 1); field 0 is the key. */
  function TwoRecords(): Table {
    map[FIRST_DATA_BLOCK := [Some([IntField(1), IntField(5)]), Some([IntField(2), IntField(1)])]]
  }

  /** The index on field 1 of TwoRecords: value 5 and value 1, both in block 2. */
  function SecondFieldIndex(): IndexModel.Model {
    map[5 := multiset{FIRST_DATA_BLOCK}, 1 := multiset{FIRST_DATA_BLOCK}]
  }

  lemma TwoRecordsSlots()
    ensures SlotsFrom(TwoRecords()[FIRST_DATA_BLOCK], FIRST_DATA_BLOCK, 0) == [Pos(FIRST_DATA_BLOCK, 0), Pos(FIRST_DATA_BLOCK, 1)]
    ensures SlotsFrom(Clear(TwoRecords(), Pos(FIRST_DATA_BLOCK, 0))[FIRST_DATA_BLOCK], FIRST_DATA_BLOCK, 0) == [Pos(FIRST_DATA_BLOCK, 1)]
  {
    var s := TwoRecords()[FIRST_DATA_BLOCK];
    assert SlotsFrom(s, FIRST_DATA_BLOCK, 2) == [];
    var c := Clear(TwoRecords(), Pos(FIRST_DATA_BLOCK, 0))[FIRST_DATA_BLOCK];
    assert SlotsFrom(c, FIRST_DATA_BLOCK, 2) == [];
  }

  /** delete(1) as written breaks the index on field 1: it agrees with the
      file before, the lookup of key 1 in it lists block 2, and after the
      trim it has lost the value 1 that record (2, 1) still holds and kept
      the value 5 of the deleted record; deleting the deleted record's own
      value keeps it in agreement. */
  lemma KeyTrimBreaksIndex()
    ensures IndexAgrees(SecondFieldIndex(), TwoRecords(), 1)
    ensures IndexModel.Lookup(SecondFieldIndex(), 1) == {FIRST_DATA_BLOCK}
    ensures !IndexAgrees(KeyTrim(SecondFieldIndex(), 1, [FIRST_DATA_BLOCK]), Clear(TwoRecords(), Pos(FIRST_DATA_BLOCK, 0)), 1)
    ensures IndexAgrees(IndexModel.Delete(SecondFieldIndex(), 5, FIRST_DATA_BLOCK), Clear(TwoRecords(), Pos(FIRST_DATA_BLOCK, 0)), 1)
  {
    var t := TwoRecords();
    var u := Clear(t, Pos(FIRST_DATA_BLOCK, 0));
    var m := SecondFieldIndex();
    TwoRecordsSlots();
    forall k, b
      ensures IndexModel.Blocks(m, k)[b] == Occurs(t, b, 1, k)
    {
      if b == FIRST_DATA_BLOCK {
        assert Hits(t, [Pos(FIRST_DATA_BLOCK, 1)], 1, k) == if k == 1 then [Pos(FIRST_DATA_BLOCK, 1)] else [];
      }
    }
    assert IndexModel.Lookup(m, 1) == {FIRST_DATA_BLOCK} by {
      assert FIRST_DATA_BLOCK in IndexModel.Blocks(m, 1);
    }
    var trimmed := KeyTrim(m, 1, [FIRST_DATA_BLOCK]);
    assert [FIRST_DATA_BLOCK][1..] == [];
    assert KeyTrim(IndexModel.Delete(m, 1, FIRST_DATA_BLOCK), 1, []) == IndexModel.Delete(m, 1, FIRST_DATA_BLOCK);
    assert trimmed == IndexModel.Delete(m, 1, FIRST_DATA_BLOCK);
    assert Hits(u, [Pos(FIRST_DATA_BLOCK, 1)], 1, 1) == [Pos(FIRST_DATA_BLOCK, 1)];
    assert Occurs(u, FIRST_DATA_BLOCK, 1, 1) == 1;
    assert IndexModel.Blocks(trimmed, 1)[FIRST_DATA_BLOCK] == 0;
    var kept := IndexModel.Delete(m, 5, FIRST_DATA_BLOCK);
    forall k, b
      ensures IndexModel.Blocks(kept, k)[b] == Occurs(u, b, 1, k)
    {
      if b == FIRST_DATA_BLOCK {
        assert Hits(u, [Pos(FIRST_DATA_BLOCK, 1)], 1, k) == if k == 1 then [Pos(FIRST_DATA_BLOCK, 1)] else [];
      }
    }
  }

  /** The row of the last live slot of blocks FIRST_DATA_BLOCK .. hi - 1:
      what the iterator's one record object holds once it is exhausted. */
  function LastRow(t: Table, hi: int): Row {
    var live := Live(t, hi);
    if live == [] then [] else Rows(t, live)[|live| - 1]
  }

  /** lookup(fname, key) on a field without an index, as written: the list
      holds the iterator's record object once per match, and by the time it
      is returned that object holds the last live record. */
  function AliasedScan(t: Table, hi: int, f: int, key: int): seq<Row> {
    seq(|Scan(t, hi, f, key)|, _ => LastRow(t, hi))
  }

  /** Block 2 holds two one-field records, keys 1 and 2. */
  function TwoKeys(): Table {
    map[FIRST_DATA_BLOCK := [Some([IntField(1)]), Some([IntField(2)])]]
  }

  /** lookup of key 1 in field 0 without an index: the intended result is
      record (1); as written the list holds one record, and it reads (2). */
  lemma AliasedScanLosesMatch(hi: int)
    requires hi > FIRST_DATA_BLOCK
    ensures Scan(TwoKeys(), hi, 0, 1) == [[IntField(1)]]
    ensures AliasedScan(TwoKeys(), hi, 0, 1) == [[IntField(2)]]
  {
    var t := TwoKeys();
    var s := t[FIRST_DATA_BLOCK];
    BlocksFromBeyond(t, FIRST_DATA_BLOCK, FIRST_DATA_BLOCK + 1, hi);
    assert SlotsFrom(s, FIRST_DATA_BLOCK, 2) == [];
    var live := [Pos(FIRST_DATA_BLOCK, 0), Pos(FIRST_DATA_BLOCK, 1)];
    assert BlocksFrom(t, FIRST_DATA_BLOCK + 1, FIRST_DATA_BLOCK + 1) == [];
    assert Live(t, hi) == live;
    assert Hits(t, live, 0, 1) == [Pos(FIRST_DATA_BLOCK, 0)] by {
      assert live[1..] == [Pos(FIRST_DATA_BLOCK, 1)];
      assert Hits(t, [Pos(FIRST_DATA_BLOCK, 1)], 0, 1) == [];
    }
    assert LastRow(t, hi) == [IntField(2)];
  }
}
