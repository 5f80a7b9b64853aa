/** What insert and delete do to the file as a whole: the cases of insert
    (refused, placed by first fit, placed in a new block, database full),
    the invariants both keep (conforming rows, unique primary keys, the
    block layout) and how they change the number of records. */
module HeapUpdates {
  import opened Outcomes
  import opened Fields
  import opened HeapLayout
  import opened HeapTables
  import opened HeapScans
  import opened HeapCounts

  /** Concatenating the scans of adjacent block ranges. */
  lemma {:induction false} BlocksFromSplit(t: Table, lo: int, mid: int, hi: int)
    requires lo <= mid <= hi
    ensures BlocksFrom(t, lo, hi) == BlocksFrom(t, lo, mid) + BlocksFrom(t, mid, hi)
    decreases mid - lo
  {
    if lo < mid {
      BlocksFromSplit(t, lo + 1, mid, hi);
    }
  }

  /** The scan of a block range only looks at the blocks in it. */
  lemma {:induction false} BlocksFromFrame(t: Table, u: Table, lo: int, hi: int)
    requires forall b :: lo <= b < hi ==> (b in t <==> b in u) && (b in t ==> t[b] == u[b])
    ensures BlocksFrom(t, lo, hi) == BlocksFrom(u, lo, hi)
    decreases hi - lo
  {
    if lo < hi {
      BlocksFromFrame(t, u, lo + 1, hi);
    }
  }

  /** Scanning past the last block of the file finds nothing more. */
  lemma {:induction false} BlocksFromBeyond(t: Table, lo: int, hi: int, top: int)
    requires lo <= hi <= top && forall b :: hi <= b < top ==> b !in t
    ensures BlocksFrom(t, lo, top) == BlocksFrom(t, lo, hi)
  {
    BlocksFromSplit(t, lo, hi, top);
    NoBlocks(t, hi, top);
  }

  lemma {:induction false} NoBlocks(t: Table, lo: int, hi: int)
    requires forall b :: lo <= b < hi ==> b !in t
    ensures BlocksFrom(t, lo, hi) == []
    decreases hi - lo
  {
    if lo < hi {
      NoBlocks(t, lo + 1, hi);
    }
  }

  /** Initialising block `valid` adds no live slot: the scan of the grown
      file is the scan of the old one. */
  lemma LiveNewBlock(t: Table, valid: int, width: nat)
    requires FIRST_DATA_BLOCK <= valid && valid !in t
    ensures Live(t[valid := Empty(width)], valid + 1) == Live(t, valid)
  {
    var u := t[valid := Empty(width)];
    BlocksFromSplit(u, FIRST_DATA_BLOCK, valid, valid + 1);
    BlocksFromFrame(t, u, FIRST_DATA_BLOCK, valid);
    SlotsFromEmpty(Empty(width), valid, 0);
  }

  /** Replacing one slot changes the number of live slots of its block
      by the change in that slot's status. */
  lemma {:induction false} SlotsUpdateCount(s: Slots, j: int, x: Option<Row>, b: int, r: nat)
    requires 0 <= j < |s|
    ensures |SlotsFrom(s[j := x], b, r)| == |SlotsFrom(s, b, r)|
            + (if r <= j then (if x.Some? then 1 else 0) - (if s[j].Some? then 1 else 0) else 0)
    decreases |s| - r
  {
    if r < |s| {
      SlotsUpdateCount(s, j, x, b, r + 1);
    }
  }

  /** The same for the scan of a block range. */
  lemma {:induction false} BlocksUpdateCount(t: Table, p: Pos, x: Option<Row>, lo: int, hi: int)
    requires p.block in t && 0 <= p.slot < |t[p.block]|
    ensures var u := t[p.block := t[p.block][p.slot := x]];
            |BlocksFrom(u, lo, hi)| == |BlocksFrom(t, lo, hi)|
            + (if lo <= p.block < hi then (if x.Some? then 1 else 0) - (if t[p.block][p.slot].Some? then 1 else 0) else 0)
    decreases hi - lo
  {
    if lo < hi {
      BlocksUpdateCount(t, p, x, lo + 1, hi);
      if lo == p.block {
        SlotsUpdateCount(t[p.block], p.slot, x, lo, 0);
      }
    }
  }

  /** A record written into an empty data-block slot adds one to size(). */
  lemma LiveCountPlace(t: Table, hi: int, p: Pos, row: Row)
    requires p.block in t && 0 <= p.slot < |t[p.block]| && t[p.block][p.slot].None?
    requires FIRST_DATA_BLOCK <= p.block < hi
    ensures |Live(Place(t, p, row), hi)| == |Live(t, hi)| + 1
  {
    BlocksUpdateCount(t, p, Some(row), FIRST_DATA_BLOCK, hi);
  }

  /** A cleared live data-block slot takes one from size(). */
  lemma LiveCountClear(t: Table, hi: int, p: Pos)
    requires IsLive(t, p) && FIRST_DATA_BLOCK <= p.block < hi
    ensures |Live(Clear(t, p), hi)| == |Live(t, hi)| - 1
  {
    BlocksUpdateCount(t, p, None, FIRST_DATA_BLOCK, hi);
  }

  /** Which slots hold what after a write. */
  lemma HoldsPlace(t: Table, p: Pos, row: Row, q: Pos, f: int, k: int)
    requires p.block in t && 0 <= p.slot < |t[p.block]|
    ensures IsLive(Place(t, p, row), q) <==> q == p || IsLive(t, q)
    ensures q != p && IsLive(t, q) ==> RowAt(Place(t, p, row), q) == RowAt(t, q)
    ensures Holds(Place(t, p, row), q, f, k) <==> if q == p then Matches(row, f, k) else Holds(t, q, f, k)
  {
  }

  /** Which slots hold what after a clear. */
  lemma HoldsClear(t: Table, p: Pos, q: Pos, f: int, k: int)
    requires p.block in t && 0 <= p.slot < |t[p.block]|
    ensures IsLive(Clear(t, p), q) <==> q != p && IsLive(t, q)
    ensures q != p && IsLive(t, q) ==> RowAt(Clear(t, p), q) == RowAt(t, q)
    ensures Holds(Clear(t, p), q, f, k) <==> q != p && Holds(t, q, f, k)
  {
  }

  /** A key absent from every data block below `valid` is absent from the
      whole file. */
  lemma AbsentEverywhere(t: Table, valid: int, width: int, key: int)
    requires Shaped(t, valid, width) && !KeyPresent(t, valid, key)
    ensures forall q :: !Holds(t, q, 0, key)
  {
    KeyPresentIff(t, valid, key);
  }

  /** Writing a record whose key is absent keeps the primary keys unique. */
  lemma PlaceUnique(t: Table, p: Pos, row: Row)
    requires p.block in t && 0 <= p.slot < |t[p.block]|
    requires UniqueKeys(t) && |row| >= 1 && row[0].IntField?
    requires forall q :: !Holds(t, q, 0, row[0].value)
    ensures UniqueKeys(Place(t, p, row))
  {
    var u := Place(t, p, row);
    forall a, c, k | Holds(u, a, 0, k) && Holds(u, c, 0, k)
      ensures a == c
    {
      HoldsPlace(t, p, row, a, 0, k);
      HoldsPlace(t, p, row, c, 0, k);
    }
  }

  /** Writing a record of the schema's types keeps every record conforming. */
  lemma PlaceConforming(t: Table, p: Pos, row: Row, types: seq<FieldType>)
    requires p.block in t && 0 <= p.slot < |t[p.block]|
    requires Conforming(t, types) && RowFits(row, types)
    ensures Conforming(Place(t, p, row), types)
  {
    forall q | IsLive(Place(t, p, row), q)
      ensures RowFits(RowAt(Place(t, p, row), q), types)
    {
      HoldsPlace(t, p, row, q, 0, 0);
    }
  }

  /** Clearing a slot keeps the keys unique and the records conforming. */
  lemma ClearKeeps(t: Table, p: Pos, types: seq<FieldType>)
    requires p.block in t && 0 <= p.slot < |t[p.block]|
    ensures UniqueKeys(t) ==> UniqueKeys(Clear(t, p))
    ensures Conforming(t, types) ==> Conforming(Clear(t, p), types)
  {
    var u := Clear(t, p);
    forall a, k | Holds(u, a, 0, k)
      ensures Holds(t, a, 0, k)
    {
      HoldsClear(t, p, a, 0, k);
    }
    forall q | IsLive(u, q)
      ensures IsLive(t, q) && RowAt(u, q) == RowAt(t, q)
    {
      HoldsClear(t, p, q, 0, 0);
    }
  }

  /** A new empty block keeps every invariant and extends the layout. */
  lemma NewBlockKeeps(t: Table, valid: int, width: nat, types: seq<FieldType>)
    requires Shaped(t, valid, width)
    ensures Shaped(t[valid := Empty(width)], valid + 1, width)
    ensures UniqueKeys(t) ==> UniqueKeys(t[valid := Empty(width)])
    ensures Conforming(t, types) ==> Conforming(t[valid := Empty(width)], types)
  {
    var u := t[valid := Empty(width)];
    forall q | IsLive(u, q)
      ensures IsLive(t, q) && RowAt(u, q) == RowAt(t, q)
    {
    }
    forall a, k | Holds(u, a, 0, k)
      ensures Holds(t, a, 0, k)
    {
    }
  }

  /** The new block holds no key, so presence of a key is unchanged. */
  lemma KeyPresentNewBlock(t: Table, valid: int, width: nat, key: int)
    requires Shaped(t, valid, width)
    ensures KeyPresent(t[valid := Empty(width)], valid + 1, key) == KeyPresent(t, valid, key)
  {
    LiveNewBlock(t, valid, width);
    var u := t[valid := Empty(width)];
    var ps := Live(t, valid);
    forall i | 0 <= i < |ps|
      ensures Holds(t, ps[i], 0, key) <==> Holds(u, ps[i], 0, key)
    {
      LiveExactly(t, valid);
    }
    HitsFrame(t, u, ps, 0, key);
  }

  /** First fit passes over blocks without a free slot. */
  lemma {:induction false} FirstFitSkips(t: Table, lo: int, mid: int, hi: int)
    requires lo <= mid <= hi
    requires forall c :: lo <= c < mid && c in t ==> FirstFree(t[c], 0) == -1
    ensures FirstFit(t, lo, hi) == FirstFit(t, mid, hi)
    decreases mid - lo
  {
    if lo < mid {
      FirstFitSkips(t, lo + 1, mid, hi);
    }
  }

  /** Once first fit has found nothing, the lowest new block offers slot 0,
      when blocks have slots at all. */
  lemma FirstFitNewBlock(t: Table, valid: int, width: nat)
    requires Shaped(t, valid, width) && FirstFit(t, FIRST_DATA_BLOCK, valid).None?
    ensures var u := t[valid := Empty(width)];
            FirstFit(u, FIRST_DATA_BLOCK, valid + 1) == if width >= 1 then Some(Pos(valid, 0)) else None
  {
    var u := t[valid := Empty(width)];
    assert FirstFree(Empty(width), 0) == if width >= 1 then 0 else -1;
    FirstFitSkips(u, FIRST_DATA_BLOCK, valid, valid + 1);
  }

  /** With the key absent and no room below `valid` but a block left,
      insert is the insert into the table with that block initialised. */
  lemma InsertRetries(t: Table, valid: int, nb: int, width: nat, row: Row)
    requires |row| >= 1 && row[0].IntField? && !KeyPresent(t, valid, row[0].value)
    requires FirstFit(t, FIRST_DATA_BLOCK, valid).None? && valid < nb
    ensures InsertSpec(t, valid, nb, width, row) == InsertSpec(t[valid := Empty(width)], valid + 1, nb, width, row)
  {
  }

  /** With the key absent, no room and no block left, insert fails and
      changes nothing. */
  lemma InsertFull(t: Table, valid: int, nb: int, width: nat, row: Row)
    requires |row| >= 1 && row[0].IntField? && !KeyPresent(t, valid, row[0].value)
    requires FirstFit(t, FIRST_DATA_BLOCK, valid).None? && valid >= nb
    ensures InsertSpec(t, valid, nb, width, row) == Full(t, valid)
  {
  }

  /** The cases of insert, with the retry unfolded: a present key refuses
      the row; otherwise the row goes to the first free slot of the lowest
      block with one, or failing that to slot 0 of a newly initialised
      block; the database is full when every block is marked or when blocks
      have no slots, and then every block has been initialised in vain. */
  lemma {:induction false} InsertCases(t: Table, valid: int, nb: int, width: nat, row: Row)
    requires |row| >= 1 && row[0].IntField? && Shaped(t, valid, width)
    ensures match InsertSpec(t, valid, nb, width, row)
      case Duplicate => KeyPresent(t, valid, row[0].value)
      case Placed(u, v, p) =>
        && !KeyPresent(t, valid, row[0].value)
        && ((FirstFit(t, FIRST_DATA_BLOCK, valid) == Some(p) && v == valid && u == Place(t, p, row))
            || (FirstFit(t, FIRST_DATA_BLOCK, valid).None? && valid < nb && width >= 1
                && p == Pos(valid, 0) && v == valid + 1 && u == Place(t[valid := Empty(width)], p, row)))
      case Full(u, v) =>
        && !KeyPresent(t, valid, row[0].value) && FirstFit(t, FIRST_DATA_BLOCK, valid).None?
        && (width == 0 || valid >= nb) && v >= nb && v >= valid
        && Shaped(u, v, width) && Live(u, v) == Live(t, valid)
        && (forall b :: b in t ==> t[b] == u[b])
    decreases nb - valid
  {
    var key := row[0].value;
    if !KeyPresent(t, valid, key) && FirstFit(t, FIRST_DATA_BLOCK, valid).None? && valid < nb {
      var u := t[valid := Empty(width)];
      NewBlockKeeps(t, valid, width, []);
      KeyPresentNewBlock(t, valid, width, key);
      FirstFitNewBlock(t, valid, width);
      LiveNewBlock(t, valid, width);
      InsertCases(u, valid + 1, nb, width, row);
    }
  }

  /** A refused insert is exactly one whose key is present. */
  lemma InsertDuplicateIff(t: Table, valid: int, nb: int, width: nat, row: Row)
    requires |row| >= 1 && row[0].IntField? && Shaped(t, valid, width)
    ensures InsertSpec(t, valid, nb, width, row).Duplicate? <==> KeyPresent(t, valid, row[0].value)
  {
    InsertCases(t, valid, nb, width, row);
  }

  /** A new row is stored whenever some slot is free or a block is left to
      initialise, provided blocks have slots. */
  lemma InsertPlacedWhenRoom(t: Table, valid: int, nb: int, width: nat, row: Row)
    requires |row| >= 1 && row[0].IntField? && Shaped(t, valid, width)
    requires !KeyPresent(t, valid, row[0].value)
    requires FirstFit(t, FIRST_DATA_BLOCK, valid).Some? || (valid < nb && width >= 1)
    ensures InsertSpec(t, valid, nb, width, row).Placed?
  {
    InsertCases(t, valid, nb, width, row);
  }

  /** The table a placed row was written into: the file itself, or the
      file with the new block initialised. */
  lemma PlacedInto(t: Table, valid: int, nb: int, width: nat, row: Row) returns (t0: Table)
    requires |row| >= 1 && row[0].IntField? && Shaped(t, valid, width)
    requires InsertSpec(t, valid, nb, width, row).Placed?
    ensures var ins := InsertSpec(t, valid, nb, width, row);
            && Shaped(t0, ins.valid, width) && valid <= ins.valid <= valid + 1
            && FIRST_DATA_BLOCK <= ins.at.block < ins.valid && 0 <= ins.at.slot < width
            && t0[ins.at.block][ins.at.slot].None? && ins.table == Place(t0, ins.at, row)
            && Live(t0, ins.valid) == Live(t, valid)
            && (forall q :: IsLive(t0, q) <==> IsLive(t, q))
            && (forall q :: IsLive(t, q) ==> RowAt(t0, q) == RowAt(t, q))
  {
    InsertCases(t, valid, nb, width, row);
    var ins := InsertSpec(t, valid, nb, width, row);
    t0 := if ins.valid == valid then t else t[valid := Empty(width)];
    if ins.valid != valid {
      LiveNewBlock(t, valid, width);
      NewBlockKeeps(t, valid, width, []);
    }
  }

  /** A placed row is live at the reported slot with its values, the
      layout grows by at most the one new block, and size() grows by one. */
  lemma InsertPlacedWrites(t: Table, valid: int, nb: int, width: nat, row: Row)
    requires |row| >= 1 && row[0].IntField? && Shaped(t, valid, width)
    requires InsertSpec(t, valid, nb, width, row).Placed?
    ensures var ins := InsertSpec(t, valid, nb, width, row);
            && IsLive(ins.table, ins.at) && RowAt(ins.table, ins.at) == row
            && FIRST_DATA_BLOCK <= ins.at.block < ins.valid && 0 <= ins.at.slot < width
            && Shaped(ins.table, ins.valid, width) && valid <= ins.valid <= valid + 1
            && |Live(ins.table, ins.valid)| == |Live(t, valid)| + 1
  {
    var ins := InsertSpec(t, valid, nb, width, row);
    var t0 := PlacedInto(t, valid, nb, width, row);
    LiveCountPlace(t0, ins.valid, ins.at, row);
  }

  /** Every slot other than the one written is as it was. */
  lemma InsertPlacedFrame(t: Table, valid: int, nb: int, width: nat, row: Row, q: Pos)
    requires |row| >= 1 && row[0].IntField? && Shaped(t, valid, width)
    requires InsertSpec(t, valid, nb, width, row).Placed?
    requires q != InsertSpec(t, valid, nb, width, row).at
    ensures var u := InsertSpec(t, valid, nb, width, row).table;
            && (IsLive(u, q) <==> IsLive(t, q))
            && (IsLive(t, q) ==> RowAt(u, q) == RowAt(t, q))
  {
    var ins := InsertSpec(t, valid, nb, width, row);
    var t0 := PlacedInto(t, valid, nb, width, row);
    HoldsPlace(t0, ins.at, row, q, 0, 0);
  }

  /** First fit: every data-block slot before the one chosen, in the
      engine's scan order, was already in use. */
  lemma InsertFirstFit(t: Table, valid: int, nb: int, width: nat, row: Row, q: Pos)
    requires |row| >= 1 && row[0].IntField? && Shaped(t, valid, width)
    requires InsertSpec(t, valid, nb, width, row).Placed?
    requires FIRST_DATA_BLOCK <= q.block && 0 <= q.slot < width
    requires Before(q, InsertSpec(t, valid, nb, width, row).at)
    ensures IsLive(t, q)
  {
    InsertCases(t, valid, nb, width, row);
    var p := InsertSpec(t, valid, nb, width, row).at;
    if q.block < p.block {
      assert FirstFree(t[q.block], 0) == -1;
    } else {
      assert FirstFree(t[q.block], 0) == p.slot;
    }
  }

  /** Insert keeps the primary keys unique and the records conforming. */
  lemma InsertKeeps(t: Table, valid: int, nb: int, width: nat, row: Row, types: seq<FieldType>)
    requires |row| >= 1 && row[0].IntField? && Shaped(t, valid, width)
    requires UniqueKeys(t) && Conforming(t, types) && RowFits(row, types)
    ensures match InsertSpec(t, valid, nb, width, row)
      case Duplicate => true
      case Placed(u, _, _) => UniqueKeys(u) && Conforming(u, types)
      case Full(u, _) => UniqueKeys(u) && Conforming(u, types)
  {
    InsertCases(t, valid, nb, width, row);
    var key := row[0].value;
    match InsertSpec(t, valid, nb, width, row)
    case Duplicate =>
    case Placed(u, v, p) =>
      var t0: Table := if v == valid then t else t[valid := Empty(width)];
      if v != valid {
        NewBlockKeeps(t, valid, width, types);
        KeyPresentNewBlock(t, valid, width, key);
      }
      AbsentEverywhere(t0, v, width, key);
      PlaceUnique(t0, p, row);
      PlaceConforming(t0, p, row, types);
    case Full(u, v) =>
      forall a, k | Holds(u, a, 0, k)
        ensures Holds(t, a, 0, k)
      {
      }
      forall q | IsLive(u, q)
        ensures IsLive(t, q) && RowAt(u, q) == RowAt(t, q)
      {
      }
  }

  /** A full database: every slot of every initialised block is in use,
      and every block of the block bitmap is marked (or blocks have no
      slots at all). */
  lemma InsertFullMeans(t: Table, valid: int, nb: int, width: nat, row: Row)
    requires |row| >= 1 && row[0].IntField? && Shaped(t, valid, width)
    requires InsertSpec(t, valid, nb, width, row).Full?
    ensures var ins := InsertSpec(t, valid, nb, width, row);
            && ins.valid >= nb && (width == 0 || ins.valid == valid)
            && forall q: Pos :: FIRST_DATA_BLOCK <= q.block < ins.valid && 0 <= q.slot < width ==> IsLive(ins.table, q)
  {
    InsertCases(t, valid, nb, width, row);
    var ins := InsertSpec(t, valid, nb, width, row);
    forall q: Pos | FIRST_DATA_BLOCK <= q.block < ins.valid && 0 <= q.slot < width
      ensures IsLive(ins.table, q)
    {
      assert FirstFree(t[q.block], 0) == -1;
    }
  }

  /** With unique keys, delete's target is the one record with the key;
      after the clear the key is absent, every other record is as it was,
      and size() is one less. */
  lemma DeleteRemoves(t: Table, valid: int, width: int, key: int, p: Pos)
    requires Shaped(t, valid, width) && UniqueKeys(t) && FindKey(t, valid, key) == Some(p)
    ensures Holds(t, p, 0, key)
    ensures !KeyPresent(Clear(t, p), valid, key)
    ensures |Live(Clear(t, p), valid)| == |Live(t, valid)| - 1
    ensures forall q :: q != p ==> (IsLive(Clear(t, p), q) <==> IsLive(t, q))
  {
    FindKeyFinds(t, valid, key);
    LiveCountClear(t, valid, p);
    KeyPresentIff(Clear(t, p), valid, key);
    forall q
      ensures !Holds(Clear(t, p), q, 0, key)
      ensures q != p ==> (IsLive(Clear(t, p), q) <==> IsLive(t, q))
    {
      HoldsClear(t, p, q, 0, key);
    }
  }
}
