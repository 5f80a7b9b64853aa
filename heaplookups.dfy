/** What the lookups return: the sequential scan finds exactly the
    matching records, an index-driven lookup finds the same records (in
    the order of the blocks the index lists), and with unique primary keys
    a key lookup finds at most one record. */
module HeapLookups {
  import opened Outcomes
  import opened HeapLayout
  import opened HeapTables
  import opened HeapScans
  import opened HeapUpdates
  import IndexModel

  /** The scan, block by block: lookupInBlock over blocks lo .. hi - 1. */
  function ScanBlocks(t: Table, lo: int, hi: int, f: int, key: int): seq<Row>
    decreases hi - lo
  {
    if lo >= hi then [] else Rows(t, BlockHits(t, lo, f, key)) + ScanBlocks(t, lo + 1, hi, f, key)
  }

  /** The sequential scan is the concatenation of the block scans. */
  lemma {:induction false} ScanByBlocks(t: Table, lo: int, hi: int, f: int, key: int)
    ensures Rows(t, Hits(t, BlocksFrom(t, lo, hi), f, key)) == ScanBlocks(t, lo, hi, f, key)
    decreases hi - lo
  {
    if lo < hi {
      var here := if lo in t then SlotsFrom(t[lo], lo, 0) else [];
      var rest := BlocksFrom(t, lo + 1, hi);
      HitsConcat(t, here, rest, f, key);
      RowsConcat(t, Hits(t, here, f, key), Hits(t, rest, f, key));
      ScanByBlocks(t, lo + 1, hi, f, key);
    }
  }

  lemma {:induction false} GatherConcat(t: Table, a: seq<int>, c: seq<int>, f: int, key: int)
    ensures Gather(t, a + c, f, key) == Gather(t, a, f, key) + Gather(t, c, f, key)
  {
    if a == [] {
      assert a + c == c;
    } else {
      assert (a + c)[0] == a[0] && (a + c)[1..] == a[1..] + c;
      GatherConcat(t, a[1..], c, f, key);
    }
  }

  /** Taking block `bs[i]` out of the list takes its records out of what
      is gathered. */
  lemma GatherDrop(t: Table, bs: seq<int>, i: int, f: int, key: int)
    requires 0 <= i < |bs|
    ensures multiset(Gather(t, bs, f, key))
            == multiset(Rows(t, BlockHits(t, bs[i], f, key))) + multiset(Gather(t, bs[..i] + bs[i + 1..], f, key))
  {
    assert bs == bs[..i] + ([bs[i]] + bs[i + 1..]);
    GatherConcat(t, bs[..i], [bs[i]] + bs[i + 1..], f, key);
    GatherConcat(t, [bs[i]], bs[i + 1..], f, key);
    GatherConcat(t, bs[..i], bs[i + 1..], f, key);
    assert Gather(t, [bs[i]], f, key) == Rows(t, BlockHits(t, bs[i], f, key));
  }

  /** The block numbers of the list are distinct. */
  predicate Distinct(bs: seq<int>) {
    forall j, k :: 0 <= j < k < |bs| ==> bs[j] != bs[k]
  }

  /** Every listed block lies in [lo, hi). */
  predicate Within(bs: seq<int>, lo: int, hi: int) {
    forall j :: 0 <= j < |bs| ==> lo <= bs[j] < hi
  }

  /** Every block of [lo, hi) the list misses holds no match. */
  predicate Covers(t: Table, bs: seq<int>, lo: int, hi: int, f: int, key: int) {
    forall b :: lo <= b < hi && b !in bs ==> BlockHits(t, b, f, key) == []
  }

  /** Taking the lowest block `lo` out of a list of distinct blocks of
      [lo, hi) leaves a list of distinct blocks of [lo + 1, hi) that misses
      only the blocks the original missed. */
  lemma DropLowest(t: Table, bs: seq<int>, i: int, lo: int, hi: int, f: int, key: int)
    requires Distinct(bs) && Within(bs, lo, hi) && Covers(t, bs, lo, hi, f, key)
    requires 0 <= i < |bs| && bs[i] == lo
    ensures var rest := bs[..i] + bs[i + 1..];
            Distinct(rest) && Within(rest, lo + 1, hi) && Covers(t, rest, lo + 1, hi, f, key)
  {
    var rest := bs[..i] + bs[i + 1..];
    forall j | 0 <= j < |rest|
      ensures rest[j] == bs[if j < i then j else j + 1]
    {
    }
    forall b | lo + 1 <= b < hi && b in bs
      ensures b in rest
    {
      var j :| 0 <= j < |bs| && bs[j] == b;
      assert b == rest[if j < i then j else j - 1];
    }
  }

  /** A list that misses block `lo` is a list of blocks of [lo + 1, hi). */
  lemma SkipLowest(t: Table, bs: seq<int>, lo: int, hi: int, f: int, key: int)
    requires Within(bs, lo, hi) && Covers(t, bs, lo, hi, f, key) && lo !in bs && lo < hi
    ensures Within(bs, lo + 1, hi) && Covers(t, bs, lo + 1, hi, f, key)
    ensures Rows(t, BlockHits(t, lo, f, key)) == []
  {
  }

  /** Gathering over a list of distinct blocks of [lo, hi) that names every
      block with a match finds the records of the block scan, as a multiset. */
  lemma {:induction false} GatherCovers(t: Table, bs: seq<int>, lo: int, hi: int, f: int, key: int)
    requires Distinct(bs) && Within(bs, lo, hi) && Covers(t, bs, lo, hi, f, key)
    ensures multiset(Gather(t, bs, f, key)) == multiset(ScanBlocks(t, lo, hi, f, key))
    decreases hi - lo
  {
    if lo >= hi {
      assert bs == [];
    } else if lo in bs {
      var i :| 0 <= i < |bs| && bs[i] == lo;
      GatherDrop(t, bs, i, f, key);
      DropLowest(t, bs, i, lo, hi, f, key);
      GatherCovers(t, bs[..i] + bs[i + 1..], lo + 1, hi, f, key);
      assert ScanBlocks(t, lo, hi, f, key) == Rows(t, BlockHits(t, lo, f, key)) + ScanBlocks(t, lo + 1, hi, f, key);
    } else {
      SkipLowest(t, bs, lo, hi, f, key);
      GatherCovers(t, bs, lo + 1, hi, f, key);
    }
  }

  /** A block the index lists under a key holds a match for it; a block
      it does not list holds none. */
  lemma IndexListsMatches(m: IndexModel.Model, t: Table, valid: int, width: int, f: int, key: int, b: int)
    requires IndexAgrees(m, t, f) && Shaped(t, valid, width)
    ensures b in IndexModel.Lookup(m, key) <==> BlockHits(t, b, f, key) != []
    ensures b in IndexModel.Lookup(m, key) ==> FIRST_DATA_BLOCK <= b < valid
  {
    assert IndexModel.Blocks(m, key)[b] == |BlockHits(t, b, f, key)|;
  }

  /** lookup(fname, key) through an index: over the distinct blocks the
      index lists, lookupInBlock finds the records the sequential scan
      finds, each as often. */
  lemma IndexedLookupAgrees(m: IndexModel.Model, t: Table, valid: int, width: int, bs: seq<int>, f: int, key: int)
    requires IndexAgrees(m, t, f) && Shaped(t, valid, width) && Distinct(bs)
    requires forall b :: b in bs <==> b in IndexModel.Lookup(m, key)
    ensures multiset(Gather(t, bs, f, key)) == multiset(Scan(t, valid, f, key))
  {
    forall i | 0 <= i < |bs|
      ensures FIRST_DATA_BLOCK <= bs[i] < valid
    {
      IndexListsMatches(m, t, valid, width, f, key, bs[i]);
    }
    forall b | FIRST_DATA_BLOCK <= b < valid && b !in bs
      ensures BlockHits(t, b, f, key) == []
    {
      IndexListsMatches(m, t, valid, width, f, key, b);
    }
    GatherCovers(t, bs, FIRST_DATA_BLOCK, valid, f, key);
    ScanByBlocks(t, FIRST_DATA_BLOCK, valid, f, key);
  }

  /** The filter keeps the order of an ascending sequence. */
  lemma {:induction false} HitsAscending(t: Table, ps: seq<Pos>, f: int, key: int)
    requires Ascending(ps)
    ensures Ascending(Hits(t, ps, f, key))
  {
    if ps != [] {
      HitsAscending(t, ps[1..], f, key);
      var rest := Hits(t, ps[1..], f, key);
      forall i | 0 <= i < |rest|
        ensures Before(ps[0], rest[i])
      {
        HitsMembers(t, ps[1..], f, key, rest[i]);
      }
      if Holds(t, ps[0], f, key) {
        AscendingCons(ps[0], rest);
      }
    }
  }

  /** The sequential lookup is sound and complete: every record it returns
      has `key` in field `f`, and every live record with that value in a
      data block is returned. */
  lemma ScanExactly(t: Table, hi: int, f: int, key: int)
    ensures forall i :: 0 <= i < |Scan(t, hi, f, key)| ==> Matches(Scan(t, hi, f, key)[i], f, key)
    ensures forall p: Pos :: FIRST_DATA_BLOCK <= p.block < hi && Holds(t, p, f, key) ==> RowAt(t, p) in Scan(t, hi, f, key)
  {
    var hs := Hits(t, Live(t, hi), f, key);
    forall i | 0 <= i < |hs|
      ensures Holds(t, hs[i], f, key)
    {
      HitsMembers(t, Live(t, hi), f, key, hs[i]);
    }
    forall p: Pos | FIRST_DATA_BLOCK <= p.block < hi && Holds(t, p, f, key)
      ensures RowAt(t, p) in Scan(t, hi, f, key)
    {
      LiveExactly(t, hi);
      HitsMembers(t, Live(t, hi), f, key, p);
      var i :| 0 <= i < |hs| && hs[i] == p;
      assert Scan(t, hi, f, key)[i] == RowAt(t, p);
    }
  }

  /** With unique primary keys, the sequential lookup of a key returns the
      record found by delete's scan, or nothing when the key is absent. */
  lemma KeyScanUnique(t: Table, hi: int, key: int)
    requires UniqueKeys(t)
    ensures FindKey(t, hi, key).Some? ==> IsLive(t, FindKey(t, hi, key).value)
    ensures Scan(t, hi, 0, key) == match FindKey(t, hi, key)
              case None => []
              case Some(p) => [RowAt(t, p)]
  {
    var hs := Hits(t, Live(t, hi), 0, key);
    FindKeyFinds(t, hi, key);
    if |hs| >= 2 {
      LiveExactly(t, hi);
      HitsAscending(t, Live(t, hi), 0, key);
      HitsMembers(t, Live(t, hi), 0, key, hs[0]);
      HitsMembers(t, Live(t, hi), 0, key, hs[1]);
      assert false;
    }
  }

  /** A list with the multiset of the key scan is the key scan itself: an
      index-driven key lookup returns the same one record or none. */
  lemma KeyLookupUnique(t: Table, hi: int, key: int, rows: seq<Row>)
    requires UniqueKeys(t) && multiset(rows) == multiset(Scan(t, hi, 0, key))
    ensures rows == Scan(t, hi, 0, key)
  {
    KeyScanUnique(t, hi, key);
    var s := Scan(t, hi, 0, key);
    assert |rows| == |multiset(rows)| == |multiset(s)| == |s|;
    if |s| == 1 {
      assert rows[0] in multiset(rows);
    }
  }

  /** Delete's scan: when no block below `b` and no slot of block `b` below
      `r` holds the key, and slot `r` does, the scan stops there. */
  lemma FindKeyAt(t: Table, hi: int, b: int, r: nat, key: int)
    requires FIRST_DATA_BLOCK <= b < hi && b in t
    requires Hits(t, BlocksFrom(t, FIRST_DATA_BLOCK, b), 0, key) == []
    requires Hits(t, SlotsFrom(t[b], b, 0), 0, key) == Hits(t, SlotsFrom(t[b], b, r), 0, key)
    requires r < |t[b]| && Holds(t, Pos(b, r), 0, key)
    ensures FindKey(t, hi, key) == Some(Pos(b, r))
  {
    var s := t[b];
    BlocksFromSplit(t, FIRST_DATA_BLOCK, b, hi);
    var a := BlocksFrom(t, FIRST_DATA_BLOCK, b);
    var rest := BlocksFrom(t, b + 1, hi);
    HitsConcat(t, a, SlotsFrom(s, b, 0) + rest, 0, key);
    HitsConcat(t, SlotsFrom(s, b, 0), rest, 0, key);
    HitsConcat(t, [Pos(b, r)], SlotsFrom(s, b, r + 1), 0, key);
    assert a + BlocksFrom(t, b, hi) == a + (SlotsFrom(s, b, 0) + rest);
  }

  /** Delete's scan: when no data block holds the key, there is nothing to
      delete. */
  lemma FindKeyNone(t: Table, hi: int, top: int, key: int)
    requires hi <= top && forall d :: d >= hi ==> d !in t
    requires Hits(t, BlocksFrom(t, FIRST_DATA_BLOCK, top), 0, key) == []
    ensures FindKey(t, hi, key) == None
  {
    if FIRST_DATA_BLOCK <= hi {
      BlocksFromBeyond(t, FIRST_DATA_BLOCK, hi, top);
    }
  }
}
