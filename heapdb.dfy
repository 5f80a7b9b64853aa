/** HeapDB: a heap file of records with a block bitmap, a record bitmap in
    every data block, and optional per-field indexes. The file's blocks are
    held as values in `file`; the buffers the engine reads blocks into, the
    bitmaps laid over them and the index objects are objects, as in the
    Java code, and every operation is proved against the functions of
    HeapTables on the table the file holds. */
module HeapEngine {
  import opened Outcomes
  import opened StringUtils
  import opened Fields
  import opened Bitmaps
  import opened Schemas
  import opened Records
  import opened HeapLayout
  import opened HeapTables
  import opened HeapScans
  import opened HeapCounts
  import opened HeapUpdates
  import opened HeapLookups
  import IndexModel
  import OrdIndexes
  import HashIndexes

  /** The blocks the block bitmap can mark: one bit per block, over the
      whole of the bitmap block. */
  const MAX_BLOCKS: int := BLOCK_SIZE * BYTE_BITS

  /** indexes[fieldNum]: no index, an ordered index or a hash index. */
  datatype IndexRef = NoIndex | Ordered(ord: OrdIndexes.OrdIndex) | Hashed(hash: HashIndexes.HashIndex)
  {
    function Obj(): object
      requires !NoIndex?
    {
      if Ordered? then ord else hash
    }

    ghost predicate Valid()
      reads if NoIndex? then {} else {Obj()}
    {
      match this
      case NoIndex => true
      case Ordered(o) => o.Valid()
      case Hashed(h) => h.Valid()
    }

    /** What the index holds, as the multiset of blocks per key. */
    ghost function Model(): IndexModel.Model
      requires Valid()
      reads if NoIndex? then {} else {Obj()}
    {
      match this
      case NoIndex => map[]
      case Ordered(o) => o.Model()
      case Hashed(h) => h.Model()
    }
  }

  /** DBIndex.insert, on whichever class the index is. */
  method IndexInsert(ix: IndexRef, key: int, blockNum: int)
    requires !ix.NoIndex? && ix.Valid()
    modifies ix.Obj()
    ensures ix.Valid() && ix.Model() == IndexModel.Insert(old(ix.Model()), key, blockNum)
  {
    match ix
    case Ordered(o) => o.Insert(key, blockNum);
    case Hashed(h) => h.Insert(key, blockNum);
  }

  /** DBIndex.delete, on whichever class the index is. */
  method IndexDelete(ix: IndexRef, key: int, blockNum: int)
    requires !ix.NoIndex? && ix.Valid()
    modifies ix.Obj()
    ensures ix.Valid() && ix.Model() == IndexModel.Delete(old(ix.Model()), key, blockNum)
  {
    match ix
    case Ordered(o) => o.Delete(key, blockNum);
    case Hashed(h) => h.Delete(key, blockNum);
  }

  /** DBIndex.lookup: the distinct blocks the index lists under the key. */
  method IndexLookup(ix: IndexRef, key: int) returns (blocks: seq<int>)
    requires !ix.NoIndex? && ix.Valid()
    ensures forall i, j :: 0 <= i < j < |blocks| ==> blocks[i] != blocks[j]
    ensures forall b :: b in blocks <==> b in IndexModel.Lookup(ix.Model(), key)
  {
    match ix
    case Ordered(o) => blocks := o.Lookup(key);
    case Hashed(h) => blocks := h.Lookup(key);
  }

  /** A data block as the file holds it: the bytes of its record bitmap
      and the field values in its record slots. */
  datatype Block = Block(bitmap: seq<bv8>, records: seq<Row>)

  /** The slots of a block: slot r holds its record when bit r of the
      record bitmap is 1. */
  ghost function BlockSlots(blk: Block, mapBytes: int): (s: Slots)
    ensures 0 <= mapBytes <= |blk.bitmap| && |blk.records| == BYTE_BITS * mapBytes ==> |s| == BYTE_BITS * mapBytes
  {
    if 0 <= mapBytes <= |blk.bitmap| && BYTE_BITS * mapBytes <= |blk.records| then
      var bits := BitsOf(blk.bitmap, mapBytes);
      seq(|bits|, r requires 0 <= r < |bits| => if bits[r] then Some(blk.records[r]) else None)
    else []
  }

  /** The table a file holds. */
  ghost function TableOf(file: map<int, Block>, mapBytes: int): Table {
    map b | b in file :: BlockSlots(file[b], mapBytes)
  }

  /** A block with a cleared record bitmap has no live slot. */
  lemma ClearedBlock(blk: Block, mapBytes: int)
    requires 0 <= mapBytes == |blk.bitmap| && |blk.records| == BYTE_BITS * mapBytes
    requires forall i :: 0 <= i < |BitsOf(blk.bitmap, mapBytes)| ==> !BitsOf(blk.bitmap, mapBytes)[i]
    ensures BlockSlots(blk, mapBytes) == Empty(BYTE_BITS * mapBytes)
  {
  }

  /** Setting bit r of a block's record bitmap and writing `row` into slot
      r places the row there. */
  lemma WriteSlotTable(file: map<int, Block>, mapBytes: int, b: int, r: int, row: Row, bits: seq<bv8>)
    requires b in file && 0 <= mapBytes == |file[b].bitmap| && |file[b].records| == BYTE_BITS * mapBytes
    requires 0 <= r < BYTE_BITS * mapBytes && |bits| == mapBytes
    requires BitsOf(bits, mapBytes) == BitsOf(file[b].bitmap, mapBytes)[r := true]
    ensures b in TableOf(file, mapBytes) && |TableOf(file, mapBytes)[b]| == BYTE_BITS * mapBytes
    ensures TableOf(file[b := Block(bits, file[b].records[r := row])], mapBytes)
            == Place(TableOf(file, mapBytes), Pos(b, r), row)
  {
    var blk := Block(bits, file[b].records[r := row]);
    assert BlockSlots(blk, mapBytes) == BlockSlots(file[b], mapBytes)[r := Some(row)];
  }

  /** Clearing bit r of a block's record bitmap empties slot r. */
  lemma ClearSlotTable(file: map<int, Block>, mapBytes: int, b: int, r: int, bits: seq<bv8>)
    requires b in file && 0 <= mapBytes == |file[b].bitmap| && |file[b].records| == BYTE_BITS * mapBytes
    requires 0 <= r < BYTE_BITS * mapBytes && |bits| == mapBytes
    requires BitsOf(bits, mapBytes) == BitsOf(file[b].bitmap, mapBytes)[r := false]
    ensures b in TableOf(file, mapBytes) && |TableOf(file, mapBytes)[b]| == BYTE_BITS * mapBytes
    ensures TableOf(file[b := Block(bits, file[b].records)], mapBytes)
            == Clear(TableOf(file, mapBytes), Pos(b, r))
  {
    var blk := Block(bits, file[b].records);
    assert BlockSlots(blk, mapBytes) == BlockSlots(file[b], mapBytes)[r := None];
  }

  /** Writing a block with a cleared record bitmap adds an empty block,
      whatever its record bytes hold. */
  lemma NewBlockTable(file: map<int, Block>, mapBytes: int, b: int, blk: Block)
    requires 0 <= mapBytes == |blk.bitmap| && |blk.records| == BYTE_BITS * mapBytes
    requires forall i :: 0 <= i < |BitsOf(blk.bitmap, mapBytes)| ==> !BitsOf(blk.bitmap, mapBytes)[i]
    ensures TableOf(file[b := blk], mapBytes) == TableOf(file, mapBytes)[b := Empty(BYTE_BITS * mapBytes)]
  {
    ClearedBlock(blk, mapBytes);
  }

  /** Block size and record count of a schema the engine accepts: every
      field takes at least four bytes. */
  lemma {:induction false} TotalLenOfValid(types: seq<FieldType>)
    requires forall i :: 0 <= i < |types| ==> ValidType(types[i])
    ensures TotalLen(types) >= 4 * |types|
  {
    if types != [] {
      TotalLenOfValid(types[1..]);
    }
  }

  /** The slots of block `b` from slot `k` on, then those of the blocks
      after it below `nb`: what the iterator has left once it has looked
      at the slots of block `b` below `k`. */
  function Rest(t: Table, b: int, k: nat, nb: int): seq<Pos> {
    (if b in t then SlotsFrom(t[b], b, k) else []) + BlocksFrom(t, b + 1, nb)
  }

  lemma EnterBlock(t: Table, b: int, nb: int)
    requires b < nb
    ensures BlocksFrom(t, b, nb) == Rest(t, b, 0, nb)
  {
  }

  lemma LeaveBlock(t: Table, b: int, k: nat, nb: int)
    requires b in t ==> k >= |t[b]|
    ensures Rest(t, b, k, nb) == BlocksFrom(t, b + 1, nb)
  {
  }

  lemma SkipSlot(s: Slots, b: int, k: nat)
    requires k < |s| && s[k].None?
    ensures SlotsFrom(s, b, k) == SlotsFrom(s, b, k + 1)
  {
  }

  lemma SameRest(t: Table, b: int, k: nat, k': nat, nb: int)
    requires b in t && SlotsFrom(t[b], b, k) == SlotsFrom(t[b], b, k')
    ensures Rest(t, b, k, nb) == Rest(t, b, k', nb)
  {
  }

  lemma TakeSlot(t: Table, b: int, k: nat, nb: int)
    requires b in t && k < |t[b]| && t[b][k].Some?
    ensures Rest(t, b, k, nb) == [Pos(b, k)] + Rest(t, b, k + 1, nb)
  {
    assert SlotsFrom(t[b], b, k) == [Pos(b, k)] + SlotsFrom(t[b], b, k + 1);
  }

  /** Any slot that is empty with every slot before it full is the one
      FirstFree finds. */
  lemma FirstFreeIs(s: Slots, r: int)
    requires r == -1 <==> forall j :: 0 <= j < |s| ==> s[j].Some?
    requires r != -1 ==> 0 <= r < |s| && s[r].None? && forall j :: 0 <= j < r ==> s[j].Some?
    ensures r == FirstFree(s, 0)
  {
  }

  /** A collection loop that has the rows `rows` and is at the start of
      `ps` keeps its promise after looking at ps[0]. */
  lemma Collect(t: Table, ps: seq<Pos>, f: int, key: int, rows: seq<Row>, whole: seq<Row>)
    requires ps != [] && rows + Rows(t, Hits(t, ps, f, key)) == whole
    ensures rows + (if Holds(t, ps[0], f, key) then [RowAt(t, ps[0])] else [])
            + Rows(t, Hits(t, ps[1..], f, key)) == whole
  {
    var here := if Holds(t, ps[0], f, key) then [ps[0]] else [];
    var rest := Hits(t, ps[1..], f, key);
    assert Hits(t, ps, f, key) == here + rest;
    RowsConcat(t, here, rest);
    assert Rows(t, here) == if Holds(t, ps[0], f, key) then [RowAt(t, ps[0])] else [];
    AppendAssoc(rows, Rows(t, here), Rows(t, rest));
  }

  lemma AppendAssoc<T>(a: seq<T>, b: seq<T>, c: seq<T>)
    ensures a + (b + c) == a + b + c
  {
  }

  /** The same along the slots of block `b`. */
  lemma CollectSlot(t: Table, b: int, r: nat, f: int, key: int, rows: seq<Row>, whole: seq<Row>)
    requires b in t && r < |t[b]|
    requires rows + Rows(t, Hits(t, SlotsFrom(t[b], b, r), f, key)) == whole
    ensures rows + (if Holds(t, Pos(b, r), f, key) then [RowAt(t, Pos(b, r))] else [])
            + Rows(t, Hits(t, SlotsFrom(t[b], b, r + 1), f, key)) == whole
  {
    if t[b][r].Some? {
      Collect(t, SlotsFrom(t[b], b, r), f, key, rows, whole);
    } else {
      assert SlotsFrom(t[b], b, r) == SlotsFrom(t[b], b, r + 1);
    }
  }

  /** A loop over the blocks an index lists that has the rows `rows` and
      is at block i keeps its promise after lookupInBlock on that block. */
  lemma GatherStep(t: Table, bs: seq<int>, i: int, f: int, key: int, rows: seq<Row>, whole: seq<Row>)
    requires 0 <= i < |bs| && rows + Gather(t, bs[i..], f, key) == whole
    ensures rows + Rows(t, BlockHits(t, bs[i], f, key)) + Gather(t, bs[i + 1..], f, key) == whole
  {
    assert bs[i..][1..] == bs[i + 1..];
  }

  /** Every int field's model agrees with the table: what an index on
      that field must hold, whether or not the field has one. */
  ghost predicate ModelsAgree(ms: seq<IndexModel.Model>, t: Table, types: seq<FieldType>) {
    forall i :: 0 <= i < |ms| && i < |types| && types[i] == IntType ==> IndexAgrees(ms[i], t, i)
  }

  /** Each int field's model once `row` is stored in block `b`. */
  ghost function InsertAll(ms: seq<IndexModel.Model>, row: Row, b: int): seq<IndexModel.Model> {
    seq(|ms|, i requires 0 <= i < |ms| =>
      if i < |row| && row[i].IntField? then IndexModel.Insert(ms[i], row[i].value, b) else ms[i])
  }

  /** Each int field's model once `row` leaves block `b`. */
  ghost function DeleteAll(ms: seq<IndexModel.Model>, row: Row, b: int): seq<IndexModel.Model> {
    seq(|ms|, i requires 0 <= i < |ms| =>
      if i < |row| && row[i].IntField? then IndexModel.Delete(ms[i], row[i].value, b) else ms[i])
  }

  /** Empty models agree with the empty table. */
  lemma ModelsAtStart(n: nat, types: seq<FieldType>)
    ensures ModelsAgree(seq(n, _ => map[]), map[], types)
  {
  }

  /** Storing a record in a free slot adds its values to the models. */
  lemma ModelsAfterPlace(ms: seq<IndexModel.Model>, t: Table, p: Pos, row: Row, types: seq<FieldType>)
    requires ModelsAgree(ms, t, types) && RowFits(row, types)
    requires p.block in t && 0 <= p.slot < |t[p.block]| && t[p.block][p.slot].None?
    ensures ModelsAgree(InsertAll(ms, row, p.block), Place(t, p, row), types)
  {
    forall i | 0 <= i < |ms| && i < |types| && types[i] == IntType
      ensures IndexAgrees(InsertAll(ms, row, p.block)[i], Place(t, p, row), i)
    {
      assert TypeOf(row[i]) == IntType;
      IndexAfterPlace(ms[i], t, p, row, i);
    }
  }

  /** Clearing a live slot takes its record's values out of the models. */
  lemma ModelsAfterClear(ms: seq<IndexModel.Model>, t: Table, p: Pos, types: seq<FieldType>)
    requires ModelsAgree(ms, t, types) && IsLive(t, p) && RowFits(RowAt(t, p), types)
    ensures ModelsAgree(DeleteAll(ms, RowAt(t, p), p.block), Clear(t, p), types)
  {
    forall i | 0 <= i < |ms| && i < |types| && types[i] == IntType
      ensures IndexAgrees(DeleteAll(ms, RowAt(t, p), p.block)[i], Clear(t, p), i)
    {
      assert TypeOf(RowAt(t, p)[i]) == IntType;
      IndexAfterClear(ms[i], t, p, i);
    }
  }

  /** An index installed on int field `f` that agrees with the table keeps
      the models in agreement. */
  lemma ModelsAfterInstall(ms: seq<IndexModel.Model>, t: Table, types: seq<FieldType>, f: int, m: IndexModel.Model)
    requires ModelsAgree(ms, t, types) && IndexAgrees(m, t, f) && 0 <= f < |ms|
    ensures ModelsAgree(ms[f := m], t, types)
  {
  }

  lemma ModelsAfterNewBlock(ms: seq<IndexModel.Model>, t: Table, nb: int, width: nat, types: seq<FieldType>)
    requires ModelsAgree(ms, t, types) && nb !in t
    ensures ModelsAgree(ms, t[nb := Empty(width)], types)
  {
    forall i | 0 <= i < |ms| && i < |types| && types[i] == IntType
      ensures IndexAgrees(ms[i], t[nb := Empty(width)], i)
    {
      IndexAfterNewBlock(ms[i], t, nb, width, i);
    }
  }

  /** The record lookup(key) returns: present exactly when the key is, and
      then the record at the slot delete would clear. */
  function KeyRecord(t: Table, hi: int, key: int): (r: Option<Row>)
    ensures r.Some? <==> KeyPresent(t, hi, key)
    ensures r.Some? ==> Matches(r.value, 0, key)
  {
    FindKeyFinds(t, hi, key);
    match FindKey(t, hi, key)
    case None => None
    case Some(p) => Some(RowAt(t, p))
  }

  /** One step of the linear search: the cast of field `f` to IntField,
      then the record itself when it matches. */
  function Pick(row: Row, f: int, key: int): (r: Result<seq<Row>>)
    requires 0 <= f < |row|
    ensures r.Fail? <==> !row[f].IntField?
    ensures r.Fail? ==> r.error == ClassCast
    ensures r.Ok? ==> r.value == if Matches(row, f, key) then [row] else []
  {
    if !row[f].IntField? then Fail(ClassCast)
    else if row[f].value == key then Ok([row])
    else Ok([])
  }

  /** The linear search of lookup(fname, key) on a field without an index:
      the cast of each record's field to IntField throws on a string field
      as soon as one record is live; otherwise the matching records in
      file order. */
  function ScanResult(t: Table, hi: int, ty: FieldType, f: int, key: int): (r: Result<seq<Row>>)
    ensures r.Fail? ==> r.error == ClassCast && ty != IntType
    ensures r.Ok? ==> forall i :: 0 <= i < |r.value| ==> Matches(r.value[i], f, key)
  {
    ScanExactly(t, hi, f, key);
    if ty != IntType && Live(t, hi) != [] then Fail(ClassCast) else Ok(Scan(t, hi, f, key))
  }

  /** Block b's first empty slot, if b is a data block with one. */
  function RoomIn(t: Table, b: int): Option<Pos> {
    if b in t && FirstFree(t[b], 0) >= 0 then Some(Pos(b, FirstFree(t[b], 0))) else None
  }

  /** No data block in lo .. b - 1 has an empty slot. */
  ghost predicate NoRoom(t: Table, lo: int, b: int) {
    forall c :: lo <= c < b && c in t ==> FirstFree(t[c], 0) == -1
  }

  /** The first-fit scan that found no room in blocks lo .. b - 1 and
      room in block b has found FirstFit's slot. */
  lemma {:induction false} FirstFitFound(t: Table, lo: int, b: int, hi: int)
    requires lo <= b < hi && b in t && FirstFree(t[b], 0) >= 0 && NoRoom(t, lo, b)
    ensures FirstFit(t, lo, hi) == Some(Pos(b, FirstFree(t[b], 0)))
    decreases b - lo
  {
    if lo < b {
      FirstFitFound(t, lo + 1, b, hi);
    }
  }

  /** The scan that found no room below `top` finds none below hi <= top. */
  lemma {:induction false} FirstFitNone(t: Table, lo: int, hi: int, top: int)
    requires hi <= top && NoRoom(t, lo, top)
    ensures FirstFit(t, lo, hi).None?
    decreases hi - lo
  {
    if lo < hi {
      FirstFitNone(t, lo + 1, hi, top);
    }
  }

  /** One block of the first-fit scan: either it is where FirstFit puts
      the record, or the scan has found no room one block further. */
  lemma FirstFitProbe(t: Table, lo: int, b: int, hi: int, room: Option<Pos>)
    requires lo <= b && NoRoom(t, lo, b) && room == RoomIn(t, b)
    requires forall c :: c in t ==> c < hi
    ensures room.None? ==> NoRoom(t, lo, b + 1)
    ensures room.Some? ==> room == FirstFit(t, lo, hi)
  {
    if room.Some? {
      FirstFitFound(t, lo, b, hi);
    }
  }

  /** The table after delete(key): the first live slot holding the key
      cleared, or the table as it was when no record has the key. */
  function DeleteSpec(t: Table, hi: int, key: int): Table {
    match FindKey(t, hi, key)
    case None => t
    case Some(p) => FindKeyFinds(t, hi, key); Clear(t, p)
  }

  /** The first slot of block `b` whose record has primary key `key`:
      where delete's slot loop stops in that block. */
  function KeyIn(t: Table, b: int, key: int): Option<Pos> {
    var hs := BlockHits(t, b, 0, key);
    if hs == [] then None else Some(hs[0])
  }

  /** One slot of delete's slot loop: it stops at slot `r` exactly when
      that slot holds the key, and otherwise nothing is skipped. */
  lemma KeyInStep(t: Table, b: int, r: nat, key: int, pos: Option<Pos>)
    requires b in t && r < |t[b]| && Hits(t, SlotsFrom(t[b], b, r), 0, key) == BlockHits(t, b, 0, key)
    requires pos == if Holds(t, Pos(b, r), 0, key) then Some(Pos(b, r)) else None
    ensures pos.None? ==> Hits(t, SlotsFrom(t[b], b, r + 1), 0, key) == BlockHits(t, b, 0, key)
    ensures pos.Some? ==> pos == KeyIn(t, b, key)
  {
    var rest := SlotsFrom(t[b], b, r + 1);
    if t[b][r].Some? {
      assert SlotsFrom(t[b], b, r) == [Pos(b, r)] + rest;
      assert ([Pos(b, r)] + rest)[1..] == rest;
    } else {
      assert SlotsFrom(t[b], b, r) == rest;
    }
  }

  /** One block of delete's block loop: it stops in block `b` exactly
      when that block holds the key, at FindKey's slot. */
  lemma FindKeyProbe(t: Table, b: int, hi: int, key: int, pos: Option<Pos>)
    requires FIRST_DATA_BLOCK <= b && Hits(t, BlocksFrom(t, FIRST_DATA_BLOCK, b), 0, key) == []
    requires pos == KeyIn(t, b, key) && forall c :: c in t ==> c < hi
    ensures pos.None? ==> Hits(t, BlocksFrom(t, FIRST_DATA_BLOCK, b + 1), 0, key) == []
    ensures pos.Some? ==> pos == FindKey(t, hi, key)
  {
    var before := BlocksFrom(t, FIRST_DATA_BLOCK, b);
    var here := BlocksFrom(t, b, b + 1);
    BlocksFromSplit(t, FIRST_DATA_BLOCK, b, b + 1);
    assert here == if b in t then SlotsFrom(t[b], b, 0) else [];
    HitsConcat(t, before, here, 0, key);
    if pos.Some? {
      BlocksFromSplit(t, FIRST_DATA_BLOCK, b + 1, hi);
      HitsConcat(t, before + here, BlocksFrom(t, b + 1, hi), 0, key);
    }
  }

  /** The buffer a block is read into; its leading bytes are the record
      bitmap and the record slots follow. */
  class BlockBuffer {
    const bytes: array<bv8>
    var records: seq<Row>

    constructor (mapBytes: nat, width: nat)
      ensures fresh(bytes) && bytes.Length == mapBytes && |records| == width
    {
      bytes := new bv8[mapBytes](_ => 0);
      records := seq(width, _ => []);
    }
  }

  /** The block bitmap of a new database: a cleared bitmap block with the
      metadata and bitmap blocks marked in use. */
  method NewBlockMap() returns (bm: Bitmap)
    ensures fresh(bm.bytes) && bm.Valid() && bm.numBytes == BLOCK_SIZE
    ensures forall i :: 0 <= i < MAX_BLOCKS ==> bm.Bits()[i] == (i < FIRST_DATA_BLOCK)
  {
    bm := new Bitmap.Zeroed(BLOCK_SIZE);
    var _ := bm.SetBit(BITMAP_BLOCK, true);
    var _ := bm.SetBit(METADATA_BLOCK, true);
  }

  class HeapDB {
    const schema: Schema
    /** The schema's names and types when the database was created. */
    const names: seq<JString>
    const types: seq<FieldType>
    const recSize: int
    const recsPerBlock: int
    const recMapSize: int
    /** The block bitmap, over the bytes of block 1. */
    const blockMap: Bitmap
    /** The record buffer and the record bitmap laid over its first bytes. */
    const buffer: BlockBuffer
    const recMap: Bitmap
    const indexes: array<IndexRef>
    /** The data blocks written so far. */
    var file: map<int, Block>
    /** Blocks 0 .. nValid - 1 are marked in the block bitmap. */
    ghost var nValid: int
    /** Per field, what an index on it holds. */
    ghost var models: seq<IndexModel.Model>

    /** The record slots per data block: one per bit of the record bitmap. */
    function Width(): int {
      BYTE_BITS * recMapSize
    }

    ghost function Table(): Table
      reads this
    {
      TableOf(file, recMapSize)
    }

    /** The record layout setRecordLayout computes and the buffers' shapes. */
    ghost predicate Layout()
      reads schema
    {
      && schema.Valid() && schema.fnames == names && schema.ftypes == types
      && WellFormed(names, types)
      && recSize == TotalLen(types) && recSize >= 0
      && recsPerBlock == RecsPerBlock(BLOCK_SIZE, recSize)
      && recMapSize == RecMapSize(recsPerBlock)
      && blockMap.Valid() && blockMap.numBytes == BLOCK_SIZE
      && recMap.Valid() && recMap.bytes == buffer.bytes && recMap.numBytes == recMapSize == buffer.bytes.Length
      && blockMap.bytes != buffer.bytes
      && indexes as object != this && indexes as object != buffer
      && indexes as object != buffer.bytes && indexes as object != blockMap.bytes
      && indexes.Length == |types|
    }

    /** The block bitmap marks exactly the blocks below n. */
    ghost predicate Marked(n: int)
      reads blockMap.bytes
    {
      && blockMap.Valid() && blockMap.numBytes == BLOCK_SIZE
      && forall i :: 0 <= i < MAX_BLOCKS ==> blockMap.Bits()[i] == (i < n)
    }

    /** blockMap.setBit(n, true) on the first unmarked block. */
    method MarkBlock(n: int)
      requires Marked(n) && 0 <= n < MAX_BLOCKS
      modifies blockMap.bytes
      ensures Marked(n + 1)
    {
      var _ := blockMap.SetBit(n, true);
    }

    /** The block bitmap marks blocks 0 .. nValid - 1, the data blocks among
        them are the file's, and the live records fit the schema with
        unique keys. */
    ghost predicate Stored()
      reads this, blockMap.bytes
    {
      && Marked(nValid) && 0 <= recMapSize
      && FIRST_DATA_BLOCK <= nValid <= MAX_BLOCKS
      && (forall b :: b in file <==> FIRST_DATA_BLOCK <= b < nValid)
      && (forall b :: b in file ==> |file[b].bitmap| == recMapSize && |file[b].records| == Width())
      && Conforming(Table(), types) && UniqueKeys(Table())
    }

    ghost predicate Buffered()
      reads buffer
    {
      |buffer.records| == Width()
    }

    ghost function IndexObjects(): set<object>
      reads indexes
    {
      set i | 0 <= i < indexes.Length && !indexes[i].NoIndex? :: indexes[i].Obj()
    }

    /** Every index is valid, on an int field, and holds that field's
        model in `ms`. */
    ghost predicate IndexesHold(ms: seq<IndexModel.Model>)
      reads indexes, IndexObjects()
    {
      && |ms| == indexes.Length
      && forall i :: 0 <= i < indexes.Length && !indexes[i].NoIndex? ==>
        && i < |types| && types[i] == IntType
        && indexes[i].Valid() && indexes[i].Model() == ms[i]
    }

    /** No index object serves two fields or is the database, its schema,
        one of its buffers or the array of indexes. */
    ghost predicate ObjectsDistinct()
      reads indexes
    {
      && this !in IndexObjects() && schema !in IndexObjects() && blockMap.bytes !in IndexObjects()
      && buffer !in IndexObjects() && buffer.bytes !in IndexObjects() && indexes !in IndexObjects()
      && forall i, j :: 0 <= i < j < indexes.Length && !indexes[i].NoIndex? && !indexes[j].NoIndex? ==>
        indexes[i].Obj() != indexes[j].Obj()
    }

    /** What a scan of the file needs; the iterator keeps it. */
    ghost predicate Scannable()
      reads this, schema, buffer, blockMap.bytes
    {
      Layout() && Stored() && Buffered()
    }

    ghost predicate Valid()
      reads this, schema, buffer, blockMap.bytes, indexes, IndexObjects()
    {
      Scannable() && IndexesHold(models) && ModelsAgree(models, Table(), types) && ObjectsDistinct()
    }

    /** The buffer holds block `b` as the file has it. */
    ghost predicate Holding(b: int)
      reads this, buffer, buffer.bytes
    {
      b in file && buffer.bytes[..] == file[b].bitmap && buffer.records == file[b].records
    }

    lemma TableShaped()
      requires Stored()
      ensures Shaped(Table(), nValid, Width())
    {
    }

    /** The record bitmap over the buffer reads the slots of the block held. */
    lemma HoldingSlots(b: int)
      requires Layout() && Stored() && Holding(b)
      ensures b in Table() && |Table()[b]| == Width() == |recMap.Bits()| == |buffer.records|
      ensures forall r :: 0 <= r < Width() ==> Table()[b][r] == (if recMap.Bits()[r] then Some(buffer.records[r]) else None)
    {
    }

    /** The record bitmap over the buffer and the records in it read as
        the slots `s`, every live one with the schema's field types. */
    ghost predicate Viewing(s: Slots)
      reads buffer, recMap.bytes
    {
      && recMap.Valid() && |s| == |recMap.Bits()| == |buffer.records|
      && (forall r :: 0 <= r < |s| ==> s[r] == if recMap.Bits()[r] then Some(buffer.records[r]) else None)
      && (forall r :: 0 <= r < |s| && s[r].Some? ==> RowFits(s[r].value, types))
    }

    lemma HoldingView(b: int)
      requires Layout() && Stored() && Holding(b)
      ensures b in Table() && Viewing(Table()[b]) && |Table()[b]| == Width()
    {
      HoldingSlots(b);
      forall r | 0 <= r < Width() && Table()[b][r].Some?
        ensures RowFits(Table()[b][r].value, types)
      {
        assert IsLive(Table(), Pos(b, r));
      }
    }

    /** new HeapDB(filename, schema): block 1 gets a cleared block bitmap
        with the metadata and bitmap blocks marked, and no data block
        exists yet. */
    constructor (schema: Schema)
      requires schema.Valid() && WellFormed(schema.fnames, schema.ftypes)
      ensures Valid() && this.schema == schema && nValid == FIRST_DATA_BLOCK && Table() == map[]
      ensures forall i :: 0 <= i < indexes.Length ==> indexes[i].NoIndex?
      ensures fresh(buffer) && fresh(buffer.bytes) && fresh(blockMap.bytes) && fresh(indexes)
    {
      var bm := NewBlockMap();
      var len := schema.GetLen();
      TotalLenOfValid(schema.ftypes);
      var perBlock := RecsPerBlock(BLOCK_SIZE, len);
      var mapSize := RecMapSize(perBlock);
      var buf := new BlockBuffer(mapSize, BYTE_BITS * mapSize);
      var rm := new Bitmap(buf.bytes, mapSize);
      this.schema := schema;
      names := schema.fnames;
      types := schema.ftypes;
      recSize := len;
      recsPerBlock := perBlock;
      recMapSize := mapSize;
      blockMap := bm;
      buffer := buf;
      recMap := rm;
      indexes := new IndexRef[|schema.ftypes|](_ => NoIndex);
      file := map[];
      nValid := FIRST_DATA_BLOCK;
      models := seq(|schema.ftypes|, _ => map[]);
      ModelsAtStart(|schema.ftypes|, schema.ftypes);
    }

    /** bf.read(b, buffer). */
    method ReadBlock(b: int)
      requires Layout() && Stored() && b in file
      modifies buffer, buffer.bytes
      ensures Holding(b)
    {
      var blk := file[b];
      forall i | 0 <= i < buffer.bytes.Length {
        buffer.bytes[i] := blk.bitmap[i];
      }
      buffer.records := blk.records;
    }

    /** bf.write(b, buffer). */
    method WriteBlock(b: int)
      modifies this
      ensures file == old(file)[b := Block(buffer.bytes[..], buffer.records)] && nValid == old(nValid) && models == old(models)
    {
      file := file[b := Block(buffer.bytes[..], buffer.records)];
    }

    /** The write of insert: rec.serialize into free slot r of block b,
        which the buffer holds, recMap.setBit(r, true), bf.write(b, buffer). */
    method WriteRecord(b: int, r: int, row: Row, ghost ms: seq<IndexModel.Model>)
      requires Scannable() && Holding(b) && 0 <= r < Width() && !IsLive(Table(), Pos(b, r))
      requires RowFits(row, types) && forall q :: !Holds(Table(), q, 0, row[0].value)
      requires ObjectsDistinct() && IndexesHold(ms)
      modifies this, buffer, buffer.bytes
      ensures Scannable() && nValid == old(nValid) && ObjectsDistinct() && IndexesHold(ms)
      ensures Table() == Place(old(Table()), Pos(b, r), row)
    {
      WriteSlot(b, r, row);
    }

    /** The same, on the file and the buffer alone. */
    method WriteSlot(b: int, r: int, row: Row)
      requires Scannable() && Holding(b) && 0 <= r < Width() && !IsLive(Table(), Pos(b, r))
      requires RowFits(row, types) && forall q :: !Holds(Table(), q, 0, row[0].value)
      modifies this, buffer, buffer.bytes
      ensures Scannable() && nValid == old(nValid)
      ensures Table() == Place(old(Table()), Pos(b, r), row)
    {
      ghost var t := Table();
      buffer.records := buffer.records[r := row];
      var _ := recMap.SetBit(r, true);
      WriteSlotTable(file, recMapSize, b, r, row, buffer.bytes[..]);
      WriteBlock(b);
      PlaceUnique(t, Pos(b, r), row);
      PlaceConforming(t, Pos(b, r), row, types);
    }

    /** The write of delete: recMap.setBit(r, false) on block b, which the
        buffer holds, then bf.write(b, buffer). */
    method ClearSlot(b: int, r: int)
      requires Scannable() && Holding(b) && 0 <= r < Width()
      modifies this, buffer.bytes
      ensures Scannable() && nValid == old(nValid)
      ensures Table() == Clear(old(Table()), Pos(b, r))
    {
      ghost var t := Table();
      var _ := recMap.SetBit(r, false);
      ClearSlotTable(file, recMapSize, b, r, buffer.bytes[..]);
      WriteBlock(b);
      ClearKeeps(t, Pos(b, r), types);
    }

    /** The clear of delete, with the indexes left as they are. */
    method ClearRecord(b: int, r: int, ghost ms: seq<IndexModel.Model>)
      requires Scannable() && Holding(b) && 0 <= r < Width()
      requires ObjectsDistinct() && IndexesHold(ms)
      modifies this, buffer.bytes
      ensures Scannable() && nValid == old(nValid) && ObjectsDistinct() && IndexesHold(ms)
      ensures Table() == Clear(old(Table()), Pos(b, r))
    {
      ClearSlot(b, r);
    }

    /** The new block of insert, with the indexes left as they are. */
    method AddBlock(blockNum: int)
      requires Scannable() && blockNum == nValid < MAX_BLOCKS
      requires ObjectsDistinct() && IndexesHold(models)
      modifies this, buffer.bytes, blockMap.bytes
      ensures Scannable() && nValid == old(nValid) + 1 && ObjectsDistinct()
      ensures models == old(models) && IndexesHold(models)
      ensures Table() == old(Table())[old(nValid) := Empty(Width())]
    {
      NewBlock(blockNum);
    }

    /** The new block of insert: recMap.clear(), bf.write(blockNum, buffer),
        blockMap.setBit(blockNum, true) for the first unmarked block. */
    method NewBlock(blockNum: int)
      requires Scannable() && blockNum == nValid < MAX_BLOCKS
      modifies this, buffer.bytes, blockMap.bytes
      ensures Scannable() && nValid == old(nValid) + 1 && models == old(models)
      ensures Table() == old(Table())[old(nValid) := Empty(Width())]
    {
      ghost var t := Table();
      TableShaped();
      recMap.Clear();
      assert recMap.Bits() == BitsOf(buffer.bytes[..], recMapSize);
      NewBlockTable(file, recMapSize, blockNum, Block(buffer.bytes[..], buffer.records));
      WriteBlock(blockNum);
      MarkBlock(blockNum);
      NewBlockKeeps(t, nValid, Width(), types);
      nValid := nValid + 1;
    }

    /** Every index is valid and on an int field of `row`. */
    ghost predicate IndexedInts(row: Row)
      reads indexes, IndexObjects()
    {
      forall j :: 0 <= j < indexes.Length && !indexes[j].NoIndex? ==>
        j < |row| && row[j].IntField? && indexes[j].Valid()
    }

    /** The index maintenance of insert: each index gets the new record's
        value of its field, with the block written. */
    method AddToIndexes(row: Row, b: int, ghost ms: seq<IndexModel.Model>)
      requires Layout() && ObjectsDistinct() && IndexesHold(ms) && RowFits(row, types)
      modifies IndexObjects()
      ensures IndexesHold(InsertAll(ms, row, b))
    {
      InsertValues(row, b);
    }

    /** The index maintenance of delete, as the source evidently intends
        it: each index loses the deleted record's value of its field, with
        its block. */
    method RemoveFromIndexes(row: Row, b: int, ghost ms: seq<IndexModel.Model>)
      requires Layout() && ObjectsDistinct() && IndexesHold(ms) && RowFits(row, types)
      modifies IndexObjects()
      ensures IndexesHold(DeleteAll(ms, row, b))
    {
      DeleteValues(row, b);
    }

    /** indexes[i].insert(row[i], b) for each index i. */
    method InsertValues(row: Row, b: int)
      requires ObjectsDistinct() && IndexedInts(row)
      modifies IndexObjects()
      ensures forall j :: 0 <= j < indexes.Length && !indexes[j].NoIndex? ==>
        indexes[j].Valid() && indexes[j].Model() == IndexModel.Insert(old(indexes[j].Model()), row[j].value, b)
    {
      var i := 0;
      while i < indexes.Length
        invariant 0 <= i <= indexes.Length
        invariant forall j :: 0 <= j < i && !indexes[j].NoIndex? ==>
          indexes[j].Valid() && indexes[j].Model() == IndexModel.Insert(old(indexes[j].Model()), row[j].value, b)
        invariant forall j :: i <= j < indexes.Length && !indexes[j].NoIndex? ==>
          indexes[j].Valid() && indexes[j].Model() == old(indexes[j].Model())
      {
        if !indexes[i].NoIndex? {
          IndexAdd(i, row[i].value, b);
        }
        i := i + 1;
      }
    }

    /** indexes[i].delete(row[i], b) for each index i. */
    method DeleteValues(row: Row, b: int)
      requires ObjectsDistinct() && IndexedInts(row)
      modifies IndexObjects()
      ensures forall j :: 0 <= j < indexes.Length && !indexes[j].NoIndex? ==>
        indexes[j].Valid() && indexes[j].Model() == IndexModel.Delete(old(indexes[j].Model()), row[j].value, b)
    {
      var i := 0;
      while i < indexes.Length
        invariant 0 <= i <= indexes.Length
        invariant forall j :: 0 <= j < i && !indexes[j].NoIndex? ==>
          indexes[j].Valid() && indexes[j].Model() == IndexModel.Delete(old(indexes[j].Model()), row[j].value, b)
        invariant forall j :: i <= j < indexes.Length && !indexes[j].NoIndex? ==>
          indexes[j].Valid() && indexes[j].Model() == old(indexes[j].Model())
      {
        if !indexes[i].NoIndex? {
          IndexRemove(i, row[i].value, b);
        }
        i := i + 1;
      }
    }

    /** indexes[i].insert(key, b); the other indexes are other objects and
        keep their contents. */
    method IndexAdd(i: int, key: int, b: int)
      requires ObjectsDistinct() && 0 <= i < indexes.Length && !indexes[i].NoIndex? && indexes[i].Valid()
      modifies indexes[i].Obj()
      ensures indexes[i].Valid() && indexes[i].Model() == IndexModel.Insert(old(indexes[i].Model()), key, b)
      ensures forall j :: 0 <= j < indexes.Length && j != i && !indexes[j].NoIndex? && old(indexes[j].Valid()) ==>
                indexes[j].Valid() && indexes[j].Model() == old(indexes[j].Model())
    {
      IndexInsert(indexes[i], key, b);
    }

    /** indexes[i].delete(key, b); the other indexes keep their contents. */
    method IndexRemove(i: int, key: int, b: int)
      requires ObjectsDistinct() && 0 <= i < indexes.Length && !indexes[i].NoIndex? && indexes[i].Valid()
      modifies indexes[i].Obj()
      ensures indexes[i].Valid() && indexes[i].Model() == IndexModel.Delete(old(indexes[i].Model()), key, b)
      ensures forall j :: 0 <= j < indexes.Length && j != i && !indexes[j].NoIndex? && old(indexes[j].Valid()) ==>
                indexes[j].Valid() && indexes[j].Model() == old(indexes[j].Model())
    {
      IndexDelete(indexes[i], key, b);
    }

    /** The first-fit scan of insert: the first block the block bitmap
        marks whose record bitmap has a zero, and that zero; the block is
        then in the buffer. */
    method FindRoom() returns (room: Option<Pos>)
      requires Scannable()
      modifies buffer, buffer.bytes
      ensures Scannable()
      ensures room == FirstFit(Table(), FIRST_DATA_BLOCK, nValid)
      ensures room.Some? ==> Holding(room.value.block)
    {
      ghost var t := Table();
      var n := blockMap.Size();
      var blockNum := FIRST_DATA_BLOCK;
      room := None;
      while blockNum < n && room.None?
        invariant FIRST_DATA_BLOCK <= blockNum <= n == MAX_BLOCKS
        invariant Scannable() && Table() == t
        invariant room.None? ==> NoRoom(t, FIRST_DATA_BLOCK, blockNum)
        invariant room.Some? ==> room == FirstFit(t, FIRST_DATA_BLOCK, nValid) && Holding(room.value.block)
      {
        room := Probe(blockNum, t);
        FirstFitProbe(t, FIRST_DATA_BLOCK, blockNum, nValid, room);
        blockNum := blockNum + 1;
      }
      if room.None? {
        FirstFitNone(t, FIRST_DATA_BLOCK, nValid, MAX_BLOCKS);
      }
    }

    /** One step of the first-fit scan: a block the block bitmap does not
        mark has no room; a marked one is read and its first empty slot
        found. */
    method Probe(b: int, ghost t: Table) returns (room: Option<Pos>)
      requires Scannable() && Table() == t && FIRST_DATA_BLOCK <= b < MAX_BLOCKS
      modifies buffer, buffer.bytes
      ensures Scannable() && Table() == t
      ensures room == RoomIn(t, b) && (room.Some? ==> Holding(b))
    {
      var bit := blockMap.GetBit(b);
      room := None;
      if bit.value {
        var recNum := FreeSlotIn(b);
        if recNum >= 0 {
          room := Some(Pos(b, recNum));
        }
      }
    }

    /** Reads block `b` into the buffer and finds its first empty slot
        with the record bitmap's firstZero, or -1. */
    method FreeSlotIn(b: int) returns (recNum: int)
      requires Scannable() && b in file
      modifies buffer, buffer.bytes
      ensures Scannable() && Holding(b)
      ensures recNum == FirstFree(Table()[b], 0)
    {
      ReadBlock(b);
      recNum := recMap.FirstZero();
      HoldingSlots(b);
      FirstFreeIs(Table()[b], recNum);
    }

    /** lookupInBlock(fieldNum, key, blockNum): reads the block and collects
        a copy of every live record whose int field `f` is `key`. */
    method LookupInBlock(f: int, key: int, b: int, ghost t: Table) returns (rows: seq<Row>)
      requires Scannable() && Table() == t && b in file && 0 <= f < |types| && types[f] == IntType
      modifies buffer, buffer.bytes
      ensures Scannable() && Table() == t && rows == Rows(t, BlockHits(t, b, f, key))
    {
      ReadBlock(b);
      HoldingView(b);
      rows := CollectBlock(f, key, b, t);
    }

    /** The slot loop of lookupInBlock, on the block the buffer holds. */
    method CollectBlock(f: int, key: int, b: int, ghost t: Table) returns (rows: seq<Row>)
      requires b in t && Viewing(t[b]) && 0 <= f < |types| && types[f] == IntType
      ensures rows == Rows(t, BlockHits(t, b, f, key))
    {
      rows := [];
      var recNum := 0;
      while recNum < recMap.Size()
        invariant 0 <= recNum <= |t[b]|
        invariant rows + Rows(t, Hits(t, SlotsFrom(t[b], b, recNum), f, key)) == Rows(t, BlockHits(t, b, f, key))
      {
        CollectSlot(t, b, recNum, f, key, rows, Rows(t, BlockHits(t, b, f, key)));
        var hit := SlotMatch(b, recNum, f, key, t);
        rows := rows + hit;
        recNum := recNum + 1;
      }
      assert SlotsFrom(t[b], b, recNum) == [];
    }

    /** Slot `r` of the block in the buffer: its record when the bit is set
        and the int field `f` is `key`, else nothing. */
    method SlotMatch(b: int, r: int, f: int, key: int, ghost t: Table) returns (hit: seq<Row>)
      requires b in t && Viewing(t[b]) && 0 <= r < |t[b]| && 0 <= f < |types| && types[f] == IntType
      ensures hit == if Holds(t, Pos(b, r), f, key) then [RowAt(t, Pos(b, r))] else []
    {
      var bit := recMap.GetBit(r);
      hit := [];
      if bit.value {
        var row := buffer.records[r];
        assert RowFits(t[b][r].value, types);
        if row[f].value == key {
          hit := [row];
        }
      }
    }

    /** The indexed path of lookup(fname, key): lookupInBlock over each
        block the index lists, which together hold the records a full scan
        finds. */
    method IndexedLookup(ix: IndexRef, f: int, key: int) returns (rows: seq<Row>)
      requires Scannable() && 0 <= f < |types| && types[f] == IntType
      requires !ix.NoIndex? && ix.Valid() && IndexAgrees(ix.Model(), Table(), f)
      modifies buffer, buffer.bytes
      ensures Scannable() && multiset(rows) == multiset(Scan(Table(), nValid, f, key))
    {
      ghost var t := Table();
      ghost var m := ix.Model();
      TableShaped();
      var blocks := IndexLookup(ix, key);
      rows := [];
      var i := 0;
      while i < |blocks|
        invariant 0 <= i <= |blocks| && Scannable() && Table() == t
        invariant rows + Gather(t, blocks[i..], f, key) == Gather(t, blocks, f, key)
      {
        IndexListsMatches(m, t, nValid, Width(), f, key, blocks[i]);
        GatherStep(t, blocks, i, f, key, rows, Gather(t, blocks, f, key));
        var found := LookupInBlock(f, key, blocks[i], t);
        rows := rows + found;
        i := i + 1;
      }
      IndexedLookupAgrees(m, t, nValid, Width(), blocks, f, key);
    }

    /** The linear-search path of lookup(fname, key), each match kept as a
        record of its own. */
    method ScanLookup(f: int, key: int) returns (r: Result<seq<Row>>)
      requires Scannable() && 0 <= f < |types|
      modifies buffer, buffer.bytes
      ensures Scannable() && r == ScanResult(Table(), MAX_BLOCKS, types[f], f, key)
    {
      ghost var t := Table();
      var it := new DBIterator(this);
      var rows := [];
      while it.HasNext()
        invariant Scannable() && it.db == this && it.Valid() && fresh(it) && fresh(it.rec)
        invariant rows + Rows(t, Hits(t, it.Remaining(), f, key)) == Scan(t, MAX_BLOCKS, f, key)
        invariant types[f] != IntType ==> it.Remaining() == Live(t, MAX_BLOCKS)
        decreases |it.Remaining()|
      {
        ghost var ps := it.Remaining();
        Collect(t, ps, f, key, rows, Scan(t, MAX_BLOCKS, f, key));
        var rec := it.Next();
        assert RowFits(RowAt(t, ps[0]), types);
        var pick := Pick(rec.fields, f, key);
        if pick.Fail? {
          return pick;
        }
        rows := rows + pick.value;
      }
      assert Rows(t, Hits(t, it.Remaining(), f, key)) == [];
      assert rows == Scan(t, MAX_BLOCKS, f, key);
      return Ok(rows);
    }

    /** lookup(fname, key): an unknown field throws; a field with an index
        is searched through it, any other field by a linear search. */
    method Lookup(fname: JString, key: int) returns (r: Result<seq<Row>>)
      requires Valid()
      modifies buffer, buffer.bytes
      ensures Valid()
      ensures fname !in names ==> r == Fail(IllegalArgument)
      ensures fname in names ==>
        var f := IndexOf(names, fname);
        if indexes[f].NoIndex? then r == ScanResult(Table(), nValid, types[f], f, key)
        else r.Ok? && multiset(r.value) == multiset(Scan(Table(), nValid, f, key))
    {
      var f := schema.GetFieldIndex(fname);
      if f < 0 {
        return Fail(IllegalArgument);
      }
      if !indexes[f].NoIndex? {
        var rows := IndexedPath(f, key);
        return Ok(rows);
      }
      r := ScanPath(f, key);
    }

    /** The branch of lookup taken when the field has an index. */
    method IndexedPath(f: nat, key: int) returns (rows: seq<Row>)
      requires Valid() && f < |types| && !indexes[f].NoIndex?
      modifies buffer, buffer.bytes
      ensures Valid()
      ensures multiset(rows) == multiset(Scan(Table(), nValid, f, key))
    {
      var ix := indexes[f];
      assert ix.Valid() && ix.Model() == models[f];
      assert IndexAgrees(models[f], Table(), f);
      rows := IndexedLookup(ix, f, key);
      assert ObjectsDistinct();
      assert IndexesHold(models);
    }

    /** The branch of lookup taken when the field has no index. */
    method ScanPath(f: nat, key: int) returns (r: Result<seq<Row>>)
      requires Valid() && f < |types|
      modifies buffer, buffer.bytes
      ensures Valid()
      ensures r == ScanResult(Table(), nValid, types[f], f, key)
    {
      r := ScanLookup(f, key);
      BlocksFromBeyond(Table(), FIRST_DATA_BLOCK, nValid, MAX_BLOCKS);
    }

    /** lookup(key): the record with that primary key, or null. */
    method LookupKey(key: int) returns (found: Option<Row>)
      requires Valid()
      modifies buffer, buffer.bytes
      ensures Valid()
      ensures found == KeyRecord(Table(), nValid, key)
    {
      var r := Lookup(schema.key, key);
      var rows := r.value;
      KeyLookupUnique(Table(), nValid, key, rows);
      KeyScanUnique(Table(), nValid, key);
      if |rows| == 0 {
        return None;
      }
      return Some(rows[0]);
    }

    /** delete(key): clears the first live slot holding the key, writes
        the block back and takes the record out of the indexes; false when
        no record has the key. */
    method Delete(key: int) returns (deleted: bool)
      requires Valid()
      modifies this, buffer, buffer.bytes, IndexObjects()
      ensures Valid() && nValid == old(nValid)
      ensures deleted == KeyPresent(old(Table()), old(nValid), key)
      ensures Table() == DeleteSpec(old(Table()), old(nValid), key)
    {
      FindKeyFinds(Table(), nValid, key);
      var pos := FindKeySlot(key);
      if pos.None? {
        return false;
      }
      RemoveAt(pos.value);
      return true;
    }

    /** The block and slot loops of delete: the first live slot holding
        the key, with its block left in the buffer. */
    method FindKeySlot(key: int) returns (pos: Option<Pos>)
      requires Valid()
      modifies buffer, buffer.bytes
      ensures Valid()
      ensures pos == FindKey(Table(), nValid, key) && (pos.Some? ==> Holding(pos.value.block))
    {
      pos := SearchKey(key);
      assert ObjectsDistinct();
      assert IndexesHold(models);
    }

    method SearchKey(key: int) returns (pos: Option<Pos>)
      requires Scannable()
      modifies buffer, buffer.bytes
      ensures Scannable()
      ensures pos == FindKey(Table(), nValid, key) && (pos.Some? ==> Holding(pos.value.block))
    {
      ghost var t := Table();
      var n := blockMap.Size();
      var blockNum := FIRST_DATA_BLOCK;
      pos := None;
      while blockNum < n && pos.None?
        invariant FIRST_DATA_BLOCK <= blockNum <= n == MAX_BLOCKS
        invariant Scannable() && Table() == t
        invariant pos.None? ==> Hits(t, BlocksFrom(t, FIRST_DATA_BLOCK, blockNum), 0, key) == []
        invariant pos.Some? ==> pos == FindKey(t, nValid, key) && Holding(pos.value.block)
      {
        pos := KeyProbe(blockNum, key, t);
        FindKeyProbe(t, blockNum, nValid, key, pos);
        blockNum := blockNum + 1;
      }
      if pos.None? {
        FindKeyNone(t, nValid, MAX_BLOCKS, key);
      }
    }

    /** One block of delete's scan: an unmarked block holds nothing; a
        marked one is read and its slots searched. */
    method KeyProbe(b: int, key: int, ghost t: Table) returns (pos: Option<Pos>)
      requires Scannable() && Table() == t && FIRST_DATA_BLOCK <= b < MAX_BLOCKS
      modifies buffer, buffer.bytes
      ensures Scannable() && Table() == t
      ensures pos == KeyIn(t, b, key) && (pos.Some? ==> pos.value.block == b && Holding(b))
    {
      var bit := blockMap.GetBit(b);
      pos := None;
      if bit.value {
        ReadBlock(b);
        HoldingView(b);
        pos := KeyInBlock(b, key, t);
      }
    }

    /** The slot loop of delete over the block in the buffer. */
    method KeyInBlock(b: int, key: int, ghost t: Table) returns (pos: Option<Pos>)
      requires b in t && Viewing(t[b]) && 0 < |types| && types[0] == IntType
      ensures pos == KeyIn(t, b, key) && (pos.Some? ==> pos.value.block == b)
    {
      var recNum := 0;
      pos := None;
      while recNum < recMap.Size() && pos.None?
        invariant 0 <= recNum <= |t[b]|
        invariant pos.None? ==> Hits(t, SlotsFrom(t[b], b, recNum), 0, key) == BlockHits(t, b, 0, key)
        invariant pos.Some? ==> pos == KeyIn(t, b, key) && pos.value.block == b
      {
        pos := SlotKey(b, recNum, key, t);
        KeyInStep(t, b, recNum, key, pos);
        recNum := recNum + 1;
      }
      if pos.None? {
        assert SlotsFrom(t[b], b, recNum) == [];
      }
    }

    /** Slot `r` of the block in the buffer, when its bit is set and its
        record's key is `key`. */
    method SlotKey(b: int, r: int, key: int, ghost t: Table) returns (pos: Option<Pos>)
      requires b in t && Viewing(t[b]) && 0 <= r < |t[b]| && 0 < |types| && types[0] == IntType
      ensures pos == if Holds(t, Pos(b, r), 0, key) then Some(Pos(b, r)) else None
    {
      var bit := recMap.GetBit(r);
      pos := None;
      if bit.value {
        var row := buffer.records[r];
        assert RowFits(t[b][r].value, types);
        if row[0].value == key {
          pos := Some(Pos(b, r));
        }
      }
    }

    /** The clear and the index maintenance of delete on the live slot `p`
        of the block in the buffer. */
    method RemoveAt(p: Pos)
      requires Valid() && Holding(p.block) && IsLive(Table(), p)
      modifies this, buffer, buffer.bytes, IndexObjects()
      ensures Valid() && nValid == old(nValid) && Table() == Clear(old(Table()), p)
    {
      ghost var t := Table();
      ghost var ms := models;
      HoldingSlots(p.block);
      var row := buffer.records[p.slot];
      assert RowFits(row, types);
      ClearRecord(p.block, p.slot, ms);
      RemoveFromIndexes(row, p.block, ms);
      ModelsAfterClear(ms, t, p, types);
      SetModels(DeleteAll(ms, row, p.block));
    }

    /** What insert did, judged against InsertSpec on the table and the
        valid blocks before the call. */
    ghost predicate InsertDone(r: Result<bool>, ins: Inserted, t0: Table, v0: int)
      reads this
    {
      match ins
      case Duplicate => r == Ok(false) && Table() == t0 && nValid == v0
      case Placed(u, v, _) => r == Ok(true) && Table() == u && nValid == v
      case Full(u, v) => r == Fail(IllegalState) && Table() == u && nValid == v
    }

    /** insert(rec): refuses a key already present, else writes the record
        into the first free slot of the first block with room and indexes
        it; with no room it initialises the first unmarked block and tries
        again, and throws when the block bitmap is full. */
    method Insert(row: Row) returns (r: Result<bool>)
      requires Valid() && RowFits(row, types)
      modifies this, buffer, buffer.bytes, blockMap.bytes, IndexObjects()
      ensures Valid()
      ensures InsertDone(r, InsertSpec(old(Table()), old(nValid), MAX_BLOCKS, Width(), row), old(Table()), old(nValid))
      decreases MAX_BLOCKS - nValid, 3
    {
      var found := LookupKey(row[0].value);
      if found.Some? {
        return Ok(false);
      }
      r := Store(row);
    }

    /** insert(rec) once the key is known to be absent. */
    method Store(row: Row) returns (r: Result<bool>)
      requires Valid() && RowFits(row, types) && !KeyPresent(Table(), nValid, row[0].value)
      modifies this, buffer, buffer.bytes, blockMap.bytes, IndexObjects()
      ensures Valid()
      ensures InsertDone(r, InsertSpec(old(Table()), old(nValid), MAX_BLOCKS, Width(), row), old(Table()), old(nValid))
      decreases MAX_BLOCKS - nValid, 2
    {
      ghost var t := Table();
      var room := FindRoom();
      assert ObjectsDistinct();
      assert IndexesHold(models);
      assert Table() == t;
      if room.Some? {
        PlaceAt(row, room.value);
        assert InsertSpec(t, nValid, MAX_BLOCKS, Width(), row) == Placed(Table(), nValid, room.value);
        return Ok(true);
      }
      r := Extend(row);
    }

    /** Writes the record into the free slot `p` of the block in the buffer
        and adds it to every index. */
    method PlaceAt(row: Row, p: Pos)
      requires Valid() && RowFits(row, types) && !KeyPresent(Table(), nValid, row[0].value)
      requires Holding(p.block) && 0 <= p.slot < Width() && Table()[p.block][p.slot].None?
      modifies this, buffer, buffer.bytes, IndexObjects()
      ensures Valid() && nValid == old(nValid) && Table() == Place(old(Table()), p, row)
    {
      ghost var t := Table();
      ghost var ms := models;
      TableShaped();
      AbsentEverywhere(t, nValid, Width(), row[0].value);
      WriteRecord(p.block, p.slot, row, ms);
      AddToIndexes(row, p.block, ms);
      ModelsAfterPlace(ms, t, p, row, types);
      SetModels(InsertAll(ms, row, p.block));
    }

    /** Records what the indexes now hold. */
    ghost method SetModels(ms: seq<IndexModel.Model>)
      requires Scannable() && ObjectsDistinct() && IndexesHold(ms)
      modifies this
      ensures Scannable() && ObjectsDistinct() && IndexesHold(ms)
      ensures models == ms && file == old(file) && nValid == old(nValid)
    {
      models := ms;
    }

    /** No block has room: initialise the first unmarked block and retry,
        or throw IllegalStateException when every block is marked. */
    method Extend(row: Row) returns (r: Result<bool>)
      requires Valid() && RowFits(row, types) && !KeyPresent(Table(), nValid, row[0].value)
      requires FirstFit(Table(), FIRST_DATA_BLOCK, nValid).None?
      modifies this, buffer, buffer.bytes, blockMap.bytes, IndexObjects()
      ensures Valid()
      ensures InsertDone(r, InsertSpec(old(Table()), old(nValid), MAX_BLOCKS, Width(), row), old(Table()), old(nValid))
      decreases MAX_BLOCKS - nValid, 1
    {
      var blockNum := FirstUnmarked();
      if blockNum < 0 {
        InsertFull(Table(), nValid, MAX_BLOCKS, Width(), row);
        return Fail(IllegalState);
      }
      r := Retry(row, blockNum);
    }

    /** Initialises block `blockNum`, the first unmarked one, and inserts
        again. */
    method Retry(row: Row, blockNum: int) returns (r: Result<bool>)
      requires Valid() && RowFits(row, types) && !KeyPresent(Table(), nValid, row[0].value)
      requires FirstFit(Table(), FIRST_DATA_BLOCK, nValid).None? && blockNum == nValid < MAX_BLOCKS
      modifies this, buffer, buffer.bytes, blockMap.bytes, IndexObjects()
      ensures Valid()
      ensures InsertDone(r, InsertSpec(old(Table()), old(nValid), MAX_BLOCKS, Width(), row), old(Table()), old(nValid))
      decreases MAX_BLOCKS - nValid, 0
    {
      ghost var t := Table();
      ghost var t1 := t[blockNum := Empty(Width())];
      TableShaped();
      InsertRetries(t, nValid, MAX_BLOCKS, Width(), row);
      KeyPresentNewBlock(t, nValid, Width(), row[0].value);
      NewBlockKeeps(t, nValid, Width(), types);
      InsertDuplicateIff(t1, nValid + 1, MAX_BLOCKS, Width(), row);
      ModelsAfterNewBlock(models, t, blockNum, Width(), types);
      AddBlock(blockNum);
      r := Insert(row);
      InsertDoneFrom(r, InsertSpec(t1, blockNum + 1, MAX_BLOCKS, Width(), row), t, blockNum, t1, blockNum + 1);
    }

    /** Past a retry, only a duplicate would be judged against the table
        before the new block. */
    lemma InsertDoneFrom(r: Result<bool>, ins: Inserted, t0: Table, v0: int, t1: Table, v1: int)
      requires InsertDone(r, ins, t1, v1) && !ins.Duplicate?
      ensures InsertDone(r, ins, t0, v0)
    {
    }

    /** blockMap.firstZero(): the first block not yet marked, which is
        nValid, or -1 when every block is. */
    method FirstUnmarked() returns (blockNum: int)
      requires Valid()
      ensures Valid()
      ensures blockNum == if nValid < MAX_BLOCKS then nValid else -1
    {
      blockNum := FirstZeroOf(nValid);
    }

    /** The first clear bit of a block bitmap marking the blocks below n. */
    method FirstZeroOf(ghost n: int) returns (blockNum: int)
      requires Marked(n) && 0 <= n <= MAX_BLOCKS
      ensures blockNum == if n < MAX_BLOCKS then n else -1
    {
      blockNum := blockMap.FirstZero();
      if n < MAX_BLOCKS {
        assert !blockMap.Bits()[n];
      }
      if blockNum >= 0 {
        assert !blockMap.Bits()[blockNum];
      }
    }

    /** size(): counts the records the iterator yields. */
    method Size() returns (n: int)
      requires Valid()
      modifies buffer, buffer.bytes
      ensures Valid() && n == |Live(Table(), nValid)|
    {
      n := CountLive();
      BlocksFromBeyond(Table(), FIRST_DATA_BLOCK, nValid, MAX_BLOCKS);
    }

    /** The loop of size(): one count per record the iterator yields. */
    method CountLive() returns (n: int)
      requires Scannable()
      modifies buffer, buffer.bytes
      ensures Scannable() && n == |Live(Table(), MAX_BLOCKS)|
    {
      var it := new DBIterator(this);
      n := 0;
      while it.HasNext()
        invariant Scannable() && it.db == this && it.Valid() && fresh(it) && fresh(it.rec)
        invariant n + |it.Remaining()| == |Live(Table(), MAX_BLOCKS)|
        decreases |it.Remaining()|
      {
        var _ := it.Next();
        n := n + 1;
      }
    }

    /** An index object other than every object of the database itself. */
    predicate Apart(o: object) {
      o != this && o != schema && o != buffer && o != buffer.bytes && o != recMap.bytes && o != blockMap.bytes
    }

    /** initializeIndex(fieldNum, index): a null index throws; otherwise
        every live record of every marked block is inserted into the index
        under its int field `f` and its block number. */
    method InitializeIndex(f: int, ix: IndexRef) returns (out: Outcome)
      requires Scannable() && 0 <= f < |types| && types[f] == IntType
      requires !ix.NoIndex? ==> ix.Valid() && Apart(ix.Obj())
      modifies buffer, buffer.bytes, if ix.NoIndex? then {} else {ix.Obj()}
      ensures Scannable()
      ensures out == if ix.NoIndex? then Thrown(IllegalArgument) else Done
      ensures !ix.NoIndex? ==> ix.Valid()
      ensures !ix.NoIndex? ==>
        forall k, c :: IndexModel.Blocks(ix.Model(), k)[c] == IndexModel.Blocks(old(ix.Model()), k)[c] + Occurs(Table(), c, f, k)
      ensures !ix.NoIndex? && old(ix.Model()) == map[] ==> IndexAgrees(ix.Model(), Table(), f)
    {
      if ix.NoIndex? {
        return Thrown(IllegalArgument);
      }
      ghost var t := Table();
      ghost var m0 := ix.Model();
      BuildIndex(f, ix, t, m0);
      BuiltAll(m0, t, FIRST_DATA_BLOCK, MAX_BLOCKS, f);
      out := Done;
    }

    /** The block loop of initializeIndex. */
    method BuildIndex(f: int, ix: IndexRef, ghost t: Table, ghost m0: IndexModel.Model)
      requires Scannable() && Table() == t && 0 <= f < |types| && types[f] == IntType
      requires !ix.NoIndex? && ix.Valid() && Apart(ix.Obj()) && ix.Model() == m0
      modifies buffer, buffer.bytes, ix.Obj()
      ensures Scannable() && Table() == t
      ensures ix.Valid() && ix.Model() == Built(m0, t, FIRST_DATA_BLOCK, MAX_BLOCKS, 0, f)
    {
      var n := blockMap.Size();
      var blockNum := FIRST_DATA_BLOCK;
      while blockNum < n
        invariant FIRST_DATA_BLOCK <= blockNum <= n == MAX_BLOCKS
        invariant Scannable() && Table() == t
        invariant ix.Valid() && ix.Model() == Built(m0, t, FIRST_DATA_BLOCK, blockNum, 0, f)
      {
        IndexBlock(f, ix, blockNum, t, m0);
        blockNum := blockNum + 1;
      }
    }

    /** One block of initializeIndex: an unmarked block adds nothing; a
        marked one is read and its slots indexed. */
    method IndexBlock(f: int, ix: IndexRef, b: int, ghost t: Table, ghost m0: IndexModel.Model)
      requires Scannable() && Table() == t && FIRST_DATA_BLOCK <= b < MAX_BLOCKS
      requires 0 <= f < |types| && types[f] == IntType
      requires !ix.NoIndex? && ix.Valid() && Apart(ix.Obj()) && ix.Model() == Built(m0, t, FIRST_DATA_BLOCK, b, 0, f)
      modifies buffer, buffer.bytes, ix.Obj()
      ensures Scannable() && Table() == t
      ensures ix.Valid() && ix.Model() == Built(m0, t, FIRST_DATA_BLOCK, b + 1, 0, f)
    {
      var bit := blockMap.GetBit(b);
      if bit.value {
        ReadBlock(b);
        HoldingView(b);
        IndexSlots(f, ix, b, t, m0);
      }
    }

    /** The slot loop of initializeIndex over the block in the buffer. */
    method IndexSlots(f: int, ix: IndexRef, b: int, ghost t: Table, ghost m0: IndexModel.Model)
      requires FIRST_DATA_BLOCK <= b && b in t && Viewing(t[b]) && 0 <= f < |types| && types[f] == IntType
      requires !ix.NoIndex? && ix.Valid() && Apart(ix.Obj()) && ix.Model() == Built(m0, t, FIRST_DATA_BLOCK, b, 0, f)
      modifies ix.Obj()
      ensures ix.Valid() && ix.Model() == Built(m0, t, FIRST_DATA_BLOCK, b + 1, 0, f)
    {
      var recNum := 0;
      while recNum < recMap.Size()
        invariant 0 <= recNum <= |t[b]|
        invariant ix.Valid() && ix.Model() == Built(m0, t, FIRST_DATA_BLOCK, b, recNum, f)
      {
        IndexSlot(f, ix, b, recNum, t, m0);
        recNum := recNum + 1;
      }
      assert Built(m0, t, FIRST_DATA_BLOCK, b + 1, 0, f) == Built(m0, t, FIRST_DATA_BLOCK, b, recNum, f);
    }

    /** Slot `r`: when its bit is set, index.insert(rec.get(f), b). */
    method IndexSlot(f: int, ix: IndexRef, b: int, r: int, ghost t: Table, ghost m0: IndexModel.Model)
      requires b in t && Viewing(t[b]) && 0 <= r < |t[b]| && 0 <= f < |types| && types[f] == IntType
      requires !ix.NoIndex? && ix.Valid() && Apart(ix.Obj()) && ix.Model() == Built(m0, t, FIRST_DATA_BLOCK, b, r, f)
      modifies ix.Obj()
      ensures ix.Valid() && ix.Model() == Built(m0, t, FIRST_DATA_BLOCK, b, r + 1, f)
    {
      if t[b][r].Some? {
        assert RowFits(t[b][r].value, types);
      }
      var bit := recMap.GetBit(r);
      if bit.value {
        var row := buffer.records[r];
        IndexInsert(ix, row[f].value, b);
      }
    }

    /** The field createOrderedIndex(fname) and createHashIndex(fname)
        index: an unknown field or one that is not an int is refused. */
    function IndexTarget(fname: JString): (r: Result<int>)
      reads schema
      requires Layout()
      ensures r.Ok? <==> fname in names && types[IndexOf(names, fname)] == IntType
      ensures r.Ok? ==> r.value == IndexOf(names, fname) && 0 <= r.value < |types| && types[r.value] == IntType
      ensures r.Fail? ==> r.error == IllegalArgument
    {
      var f := schema.GetFieldIndex(fname);
      if f < 0 then Fail(IllegalArgument)
      else
        var ft := schema.GetType(f);
        if ft.value != IntType then Fail(IllegalArgument) else Ok(f)
    }

    /** createOrderedIndex(fname): a new ordered index on the field, built
        from the file, replaces whatever index the field had. */
    method CreateOrderedIndex(fname: JString) returns (out: Outcome)
      requires Valid()
      modifies this, buffer, buffer.bytes, indexes
      ensures Valid() && file == old(file) && nValid == old(nValid)
      ensures out == if IndexTarget(fname).Ok? then Done else Thrown(IllegalArgument)
      ensures out.Thrown? ==> indexes[..] == old(indexes[..])
      ensures out.Done? ==> var f := IndexTarget(fname).value;
        && indexes[f].Ordered? && fresh(indexes[f].ord) && IndexAgrees(indexes[f].Model(), Table(), f)
        && forall j :: 0 <= j < indexes.Length && j != f ==> indexes[j] == old(indexes[j])
    {
      var target := IndexTarget(fname);
      if target.Fail? {
        return Thrown(target.error);
      }
      out := NewOrderedIndex(target.value);
    }

    /** The ordered index made, filled and installed once the field is known. */
    method NewOrderedIndex(f: int) returns (out: Outcome)
      requires Valid() && 0 <= f < |types| && types[f] == IntType
      modifies this, buffer, buffer.bytes, indexes
      ensures Valid() && file == old(file) && nValid == old(nValid) && out == Done
      ensures indexes[f].Ordered? && fresh(indexes[f].ord) && IndexAgrees(indexes[f].Model(), Table(), f)
      ensures forall j :: 0 <= j < indexes.Length && j != f ==> indexes[j] == old(indexes[j])
    {
      var o := new OrdIndexes.OrdIndex();
      out := CreateIndex(f, Ordered(o));
    }

    /** createHashIndex(fname): a new hash index on the field, built from
        the file, replaces whatever index the field had. */
    method CreateHashIndex(fname: JString) returns (out: Outcome)
      requires Valid()
      modifies this, buffer, buffer.bytes, indexes
      ensures Valid() && file == old(file) && nValid == old(nValid)
      ensures out == if IndexTarget(fname).Ok? then Done else Thrown(IllegalArgument)
      ensures out.Thrown? ==> indexes[..] == old(indexes[..])
      ensures out.Done? ==> var f := IndexTarget(fname).value;
        && indexes[f].Hashed? && fresh(indexes[f].hash) && IndexAgrees(indexes[f].Model(), Table(), f)
        && forall j :: 0 <= j < indexes.Length && j != f ==> indexes[j] == old(indexes[j])
    {
      var target := IndexTarget(fname);
      if target.Fail? {
        return Thrown(target.error);
      }
      out := NewHashIndex(target.value);
    }

    /** The hash index made, filled and installed once the field is known. */
    method NewHashIndex(f: int) returns (out: Outcome)
      requires Valid() && 0 <= f < |types| && types[f] == IntType
      modifies this, buffer, buffer.bytes, indexes
      ensures Valid() && file == old(file) && nValid == old(nValid) && out == Done
      ensures indexes[f].Hashed? && fresh(indexes[f].hash) && IndexAgrees(indexes[f].Model(), Table(), f)
      ensures forall j :: 0 <= j < indexes.Length && j != f ==> indexes[j] == old(indexes[j])
    {
      var h := new HashIndexes.HashIndex();
      out := CreateIndex(f, Hashed(h));
    }

    /** createOrderedIndex(): an ordered index on the primary key. */
    method CreateOrderedKeyIndex() returns (out: Outcome)
      requires Valid()
      modifies this, buffer, buffer.bytes, indexes
      ensures Valid() && file == old(file) && nValid == old(nValid) && out == Done
      ensures indexes[0].Ordered? && IndexAgrees(indexes[0].Model(), Table(), 0)
      ensures forall j :: 0 < j < indexes.Length ==> indexes[j] == old(indexes[j])
    {
      out := CreateOrderedIndex(schema.key);
    }

    /** createHashIndex(): a hash index on the primary key. */
    method CreateHashKeyIndex() returns (out: Outcome)
      requires Valid()
      modifies this, buffer, buffer.bytes, indexes
      ensures Valid() && file == old(file) && nValid == old(nValid) && out == Done
      ensures indexes[0].Hashed? && IndexAgrees(indexes[0].Model(), Table(), 0)
      ensures forall j :: 0 < j < indexes.Length ==> indexes[j] == old(indexes[j])
    {
      out := CreateHashIndex(schema.key);
    }

    /** The common tail of both creates: initializeIndex on the new, empty
        index, then indexes[f] = index. */
    method CreateIndex(f: int, ix: IndexRef) returns (out: Outcome)
      requires Valid() && 0 <= f < |types| && types[f] == IntType
      requires !ix.NoIndex? && ix.Valid() && ix.Model() == map[] && Apart(ix.Obj())
      requires ix.Obj() != indexes && ix.Obj() !in IndexObjects()
      modifies this, buffer, buffer.bytes, indexes, ix.Obj()
      ensures Valid() && file == old(file) && nValid == old(nValid) && out == Done
      ensures indexes[f] == ix && IndexAgrees(ix.Model(), Table(), f)
      ensures forall j :: 0 <= j < indexes.Length && j != f ==> indexes[j] == old(indexes[j])
    {
      out := InitializeIndex(f, ix);
      assert ObjectsDistinct();
      Install(f, ix);
    }

    /** indexes[f] = index, for an index that agrees with the file. */
    method Install(f: int, ix: IndexRef)
      requires Scannable() && ObjectsDistinct() && IndexesHold(models) && ModelsAgree(models, Table(), types)
      requires 0 <= f < |types| && types[f] == IntType
      requires !ix.NoIndex? && ix.Valid() && IndexAgrees(ix.Model(), Table(), f) && Apart(ix.Obj())
      requires ix.Obj() != indexes && ix.Obj() !in IndexObjects()
      modifies this, indexes
      ensures Valid() && file == old(file) && nValid == old(nValid)
      ensures indexes[..] == old(indexes[..])[f := ix] && models == old(models)[f := ix.Model()]
    {
      ghost var ms := models[f := ix.Model()];
      ModelsAfterInstall(models, Table(), types, f, ix.Model());
      SetIndex(f, ix, models);
      SetModels(ms);
    }

    /** The array store of indexes[f] = index. */
    method SetIndex(f: int, ix: IndexRef, ghost ms: seq<IndexModel.Model>)
      requires Layout() && ObjectsDistinct() && IndexesHold(ms) && 0 <= f < |types| && types[f] == IntType
      requires !ix.NoIndex? && ix.Valid() && Apart(ix.Obj()) && ix.Obj() != indexes && ix.Obj() !in IndexObjects()
      modifies indexes
      ensures ObjectsDistinct() && IndexesHold(ms[f := ix.Model()]) && indexes[..] == old(indexes[..])[f := ix]
    {
      indexes[f] := ix;
    }

    /** deleteIndex(fname): an unknown field throws; otherwise the field is
        left without an index. */
    method DeleteIndex(fname: JString) returns (out: Outcome)
      requires Valid()
      modifies indexes
      ensures Valid()
      ensures out == if fname in names then Done else Thrown(IllegalArgument)
      ensures out.Thrown? ==> indexes[..] == old(indexes[..])
      ensures out.Done? ==> indexes[..] == old(indexes[..])[IndexOf(names, fname) := NoIndex]
    {
      var f := schema.GetFieldIndex(fname);
      if f < 0 {
        return Thrown(IllegalArgument);
      }
      indexes[f] := NoIndex;
      out := Done;
    }

    /** deleteIndex(): the primary key is left without an index. */
    method DeleteKeyIndex() returns (out: Outcome)
      requires Valid()
      modifies indexes
      ensures Valid() && out == Done && indexes[..] == old(indexes[..])[0 := NoIndex]
    {
      out := DeleteIndex(schema.key);
    }
  }

  /** DBIterator: visits the live slots block by block, deserializing each
      record into the one record object it returns every time. */
  class DBIterator {
    const db: HeapDB
    const rec: Record
    /** The table the iterator walks: the one the file holds while it runs. */
    ghost const t: Table
    /** The block and slot of the next record; r == -1 means block b has
        not been looked at yet. */
    var b: int
    const nb: int
    var r: int
    const nr: int

    /** The slots the iterator will visit after (b, r). */
    ghost function After(): seq<Pos>
      reads this
    {
      if r == -1 then BlocksFrom(t, b, nb)
      else if r >= 0 then Rest(t, b, r + 1, nb)
      else []
    }

    /** The slots next() will yield from now on. */
    ghost function Remaining(): seq<Pos>
      reads this
    {
      if b < nb && r >= 0 then [Pos(b, r)] + After() else []
    }

    /** Either exhausted, or at a live slot of the block in the buffer. */
    ghost predicate Valid()
      reads this, db, db.buffer, db.buffer.bytes
    {
      && nb == MAX_BLOCKS && nr == db.Width() && t == db.Table()
      && ((b == nb && r == nr)
          || (FIRST_DATA_BLOCK <= b < db.nValid && b < nb && 0 <= r < nr && db.Holding(b) && IsLive(t, Pos(b, r))))
    }

    constructor (db: HeapDB)
      requires db.Scannable()
      modifies db.buffer, db.buffer.bytes
      ensures db.Scannable() && Valid() && this.db == db && fresh(rec)
      ensures Remaining() == Live(db.Table(), MAX_BLOCKS)
    {
      var blank := BlankRecord(db.schema);
      BlankFieldsOfWellFormed(db.names, db.types);
      this.db := db;
      rec := blank.value;
      t := db.Table();
      b := FIRST_DATA_BLOCK;
      nb := db.blockMap.Size();
      r := -1;
      nr := db.recMap.Size();
      new;
      FindNext();
    }

    /** The first loop of findNext: on to the next block the block bitmap
        marks, or to nb. */
    method SkipBlocks()
      requires db.Scannable() && t == db.Table() && nb == MAX_BLOCKS && FIRST_DATA_BLOCK <= b <= nb
      modifies this
      ensures old(b) <= b <= nb && r == old(r)
      ensures b < nb ==> b in db.file
      ensures BlocksFrom(t, b, nb) == BlocksFrom(t, old(b), nb)
    {
      while b < nb
        invariant old(b) <= b <= nb && r == old(r)
        invariant BlocksFrom(t, b, nb) == BlocksFrom(t, old(b), nb)
      {
        var bit := db.blockMap.GetBit(b);
        if bit.value {
          return;
        }
        b := b + 1;
      }
    }

    /** The second loop of findNext: on to the next slot the record bitmap
        marks, or to nr. */
    method SkipSlots()
      requires b in t && |t[b]| == nr && 0 <= r <= nr
      requires db.recMap.Valid() && |db.recMap.Bits()| == nr
      requires forall k :: 0 <= k < nr ==> (t[b][k].Some? <==> db.recMap.Bits()[k])
      modifies this
      ensures old(r) <= r <= nr && b == old(b)
      ensures r < nr ==> IsLive(t, Pos(b, r))
      ensures Rest(t, b, r, nb) == Rest(t, b, old(r), nb)
    {
      while r < nr
        invariant old(r) <= r <= nr && b == old(b)
        invariant SlotsFrom(t[b], b, r) == SlotsFrom(t[b], b, old(r))
      {
        var bit := db.recMap.GetBit(r);
        if bit.value {
          break;
        }
        SkipSlot(t[b], b, r);
        r := r + 1;
      }
      SameRest(t, b, r, old(r), nb);
    }

    /** The first half of findNext, when block b has not been looked at:
        find a block in use and read it, or reach the end. */
    method FindBlock()
      requires db.Scannable() && t == db.Table() && nb == MAX_BLOCKS && FIRST_DATA_BLOCK <= b <= nb && r == -1
      modifies this, db.buffer, db.buffer.bytes
      ensures db.Scannable() && r == -1 && old(b) <= b <= nb
      ensures b == nb ==> old(After()) == []
      ensures b < nb ==> b < db.nValid && db.Holding(b) && old(After()) == Rest(t, b, 0, nb)
    {
      SkipBlocks();
      if b < nb {
        db.ReadBlock(b);
        EnterBlock(t, b, nb);
      }
    }

    /** findNext(): moves to the next live slot, or to the end. */
    method FindNext()
      requires db.Scannable() && t == db.Table() && nb == MAX_BLOCKS && nr == db.Width()
      requires FIRST_DATA_BLOCK <= b <= nb
      requires r == -1 || (b < db.nValid && 0 <= r < nr && db.Holding(b))
      modifies this, db.buffer, db.buffer.bytes
      ensures db.Scannable() && Valid()
      ensures Remaining() == old(After())
      decreases nb - b, 3
    {
      if r == -1 {
        EnterNext();
      } else {
        r := r + 1;
        ScanFrom();
      }
    }

    /** findNext() when block b has not been looked at. */
    method EnterNext()
      requires db.Scannable() && t == db.Table() && nb == MAX_BLOCKS && nr == db.Width()
      requires FIRST_DATA_BLOCK <= b <= nb && r == -1
      modifies this, db.buffer, db.buffer.bytes
      ensures db.Scannable() && Valid()
      ensures Remaining() == old(BlocksFrom(t, b, nb))
      decreases nb - b, 2
    {
      FindBlock();
      if b == nb {
        r := nr;
        return;
      }
      r := 0;
      ScanFrom();
    }

    /** The second half of findNext, from slot r of the block in the
        buffer: the next live slot there, or on to the next block. */
    method ScanFrom()
      requires db.Scannable() && t == db.Table() && nb == MAX_BLOCKS && nr == db.Width()
      requires FIRST_DATA_BLOCK <= b < db.nValid && b < nb && 0 <= r <= nr && db.Holding(b)
      modifies this, db.buffer, db.buffer.bytes
      ensures db.Scannable() && Valid()
      ensures Remaining() == old(Rest(t, b, r, nb))
      decreases nb - b, 1
    {
      db.HoldingSlots(b);
      SkipSlots();
      if r == nr {
        NextBlock();
      } else {
        AtLive();
      }
    }

    /** At a live slot, next() yields it and then the rest of the scan. */
    lemma AtLive()
      requires b in t && 0 <= r < |t[b]| && IsLive(t, Pos(b, r)) && b < nb
      ensures Remaining() == Rest(t, b, r, nb)
    {
      ghost var rest := Rest(t, b, r + 1, nb);
      assert After() == rest;
      TakeSlot(t, b, r, nb);
    }

    /** The block in the buffer has no live slot left: on to the next one. */
    method NextBlock()
      requires db.Scannable() && t == db.Table() && nb == MAX_BLOCKS && nr == db.Width()
      requires FIRST_DATA_BLOCK <= b < nb && db.Holding(b) && r == nr
      modifies this, db.buffer, db.buffer.bytes
      ensures db.Scannable() && Valid()
      ensures Remaining() == old(Rest(t, b, r, nb))
      decreases nb - b, 0
    {
      ghost var rest := Rest(t, b, r, nb);
      db.HoldingSlots(b);
      LeaveBlock(t, b, r, nb);
      b := b + 1;
      r := -1;
      assert After() == rest;
      FindNext();
    }

    function HasNext(): (more: bool)
      reads this, db, db.buffer, db.buffer.bytes
      ensures Valid() ==> (more <==> Remaining() != [])
    {
      b < nb || r < nr
    }

    /** next(): deserializes the record at (b, r) into `rec`, moves on and
        returns `rec`, the same object every time. */
    method Next() returns (next: Record)
      requires db.Scannable() && Valid() && Remaining() != []
      modifies this, rec, db.buffer, db.buffer.bytes
      ensures db.Scannable() && Valid() && next == rec
      ensures IsLive(t, old(Remaining())[0]) && rec.fields == RowAt(t, old(Remaining())[0])
      ensures Remaining() == old(Remaining())[1..]
    {
      db.HoldingSlots(b);
      rec.fields := db.buffer.records[r];
      FindNext();
      next := rec;
    }
  }
}
