/** The linear search of lookup(fname, key) in HeapDB.java as written,
    on the iterator it walks: the list it returns holds the iterator's one
    record object once per match, so every entry reads the last live record
    of the file (HeapFindings.AliasedScan) instead of the record that
    matched (HeapEngine.HeapDB.ScanLookup). */
module HeapAliasing {
  import opened Outcomes
  import opened Fields
  import opened HeapTables
  import opened HeapScans
  import opened HeapFindings
  import Records
  import HeapEngine

  /** `n` copies of `x`. */
  function Repeat<T>(x: T, n: nat): (s: seq<T>)
    ensures |s| == n && forall i :: 0 <= i < n ==> s[i] == x
  {
    seq(n, _ => x)
  }

  /** One more copy at the end. */
  lemma RepeatOneMore<T>(x: T, n: nat)
    ensures Repeat(x, n) + [x] == Repeat(x, n + 1)
  {
  }

  /** The linear search of lookup(fname, key) as written: the cast of each
      record's field to IntField throws on a string field, and the list
      receives the iterator's own record object once per match. Every entry
      is then that one object, and once the scan ends it holds the last live
      record, so the caller reads AliasedScan. */
  method AliasedScanLookup(db: HeapEngine.HeapDB, f: int, key: int) returns (r: Result<seq<Records.Record>>)
    requires db.Scannable() && 0 <= f < |db.types|
    modifies db.buffer, db.buffer.bytes
    ensures db.Scannable()
    ensures r.Fail? <==> HeapEngine.ScanResult(db.Table(), HeapEngine.MAX_BLOCKS, db.types[f], f, key).Fail?
    ensures r.Fail? ==> r.error == ClassCast
    ensures r.Ok? ==> |r.value| == |Scan(db.Table(), HeapEngine.MAX_BLOCKS, f, key)|
    ensures r.Ok? && r.value != [] ==> r.value == Repeat(r.value[0], |r.value|)
    ensures r.Ok? && r.value != [] ==> r.value[0].fields == LastRow(db.Table(), HeapEngine.MAX_BLOCKS)
  {
    ghost var t := db.Table();
    ghost var live := Live(t, HeapEngine.MAX_BLOCKS);
    ghost var k := 0;
    assert Conforming(t, db.types);
    var it := new HeapEngine.DBIterator(db);
    var recs: seq<Records.Record> := [];
    while it.HasNext()
      invariant db.Scannable() && it.db == db && it.Valid() && fresh(it) && fresh(it.rec)
      invariant it.t == t && Conforming(t, db.types)
      invariant 0 <= k <= |live| && it.Remaining() == live[k..]
      invariant ScanState(t, live, k, |recs|, db.types, f, key)
      invariant recs == Repeat(it.rec, |recs|)
      invariant k > 0 ==> IsLive(t, live[k - 1]) && it.rec.fields == RowAt(t, live[k - 1])
      decreases |it.Remaining()|
    {
      ScanStateStep(t, live, k, |recs|, db.types, f, key);
      var rec := it.Next();
      k := k + 1;
      if !rec.fields[f].IntField? {
        return Fail(ClassCast);
      }
      if rec.fields[f].value == key {
        RepeatOneMore(rec, |recs|);
        recs := recs + [rec];
      }
    }
    ScanStateEnd(t, live, k, |recs|, db.types, f, key);
    LastRowIs(t, HeapEngine.MAX_BLOCKS);
    return Ok(recs);
  }

  /** Where the scan stands after `k` of the live slots with `n` matches: the
      matches still ahead make up the rest, there is no match before the
      first record, and a string field is never read past the first. */
  ghost predicate ScanState(t: Table, live: seq<Pos>, k: int, n: int, types: seq<FieldType>, f: int, key: int) {
    && live == Live(t, HeapEngine.MAX_BLOCKS) && Conforming(t, types)
    && 0 <= k <= |live| && n + |Hits(t, live[k..], f, key)| == |Hits(t, live, f, key)|
    && (n > 0 ==> k > 0) && (0 <= f < |types| && types[f] != IntType ==> k == 0)
  }

  /** One more record read: it is live and fits the schema, and the state
      moves on by one slot and by one match exactly when the record holds
      `key` in field `f`. */
  lemma ScanStateStep(t: Table, live: seq<Pos>, k: int, n: int, types: seq<FieldType>, f: int, key: int)
    requires ScanState(t, live, k, n, types, f, key) && k < |live| && 0 <= f < |types|
    ensures IsLive(t, live[k]) && RowFits(RowAt(t, live[k]), types)
    ensures live[k..][0] == live[k] && live[k..][1..] == live[k + 1..]
    ensures RowAt(t, live[k])[f].IntField? ==>
      ScanState(t, live, k + 1, n + (if RowAt(t, live[k])[f].value == key then 1 else 0), types, f, key)
    ensures !RowAt(t, live[k])[f].IntField? ==> HeapEngine.ScanResult(t, HeapEngine.MAX_BLOCKS, types[f], f, key).Fail?
  {
    LiveExactly(t, HeapEngine.MAX_BLOCKS);
    assert live[k] in live;
    assert live[k..][1..] == live[k + 1..];
  }

  /** Once every live slot is read, the matches counted are all of them,
      and the intended search does not throw. */
  lemma ScanStateEnd(t: Table, live: seq<Pos>, k: int, n: int, types: seq<FieldType>, f: int, key: int)
    requires ScanState(t, live, k, n, types, f, key) && live[k..] == []
    ensures k == |live| && n == |Scan(t, HeapEngine.MAX_BLOCKS, f, key)|
    ensures 0 <= f < |types| ==> HeapEngine.ScanResult(t, HeapEngine.MAX_BLOCKS, types[f], f, key).Ok?
  {
  }

  /** The last live row is the row at the last live slot. */
  lemma LastRowIs(t: Table, hi: int)
    ensures var live := Live(t, hi); live != [] ==>
      IsLive(t, live[|live| - 1]) && LastRow(t, hi) == RowAt(t, live[|live| - 1])
  {
    LiveExactly(t, hi);
    var live := Live(t, hi);
    if live != [] {
      assert live[|live| - 1] in live;
    }
  }
}
