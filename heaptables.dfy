/** The contents of a heap database file as values: each data block is a
    sequence of record slots, each slot empty or holding a row of field
    values. A slot is live when its bit in the block's record bitmap is
    set; the bytes of a slot that is not live are never read. The
    functions here say what the engine's scans find and which slot an
    insert or a delete touches; the engine's class is proved against them. */
module HeapTables {
  import opened Outcomes
  import opened Fields
  import opened HeapLayout
  import IndexModel

  /** The field values of one record. */
  type Row = seq<Field>

  /** The record slots of one data block, `None` where the bit is clear. */
  type Slots = seq<Option<Row>>

  /** The data blocks of the file by block number. */
  type Table = map<int, Slots>

  /** A record slot: a block number and a slot number within it. */
  datatype Pos = Pos(block: int, slot: int)

  /** The order in which the engine visits slots: block by block, and
      slot by slot within a block. */
  predicate Before(p: Pos, q: Pos) {
    p.block < q.block || (p.block == q.block && p.slot < q.slot)
  }

  predicate Ascending(ps: seq<Pos>) {
    forall i, j :: 0 <= i < j < |ps| ==> Before(ps[i], ps[j])
  }

  /** A data block as it is first written: a cleared record bitmap. */
  function Empty(width: nat): (s: Slots)
    ensures |s| == width && forall r :: 0 <= r < width ==> s[r].None?
  {
    seq(width, _ => None)
  }

  predicate IsLive(t: Table, p: Pos) {
    p.block in t && 0 <= p.slot < |t[p.block]| && t[p.block][p.slot].Some?
  }

  function RowAt(t: Table, p: Pos): Row
    requires IsLive(t, p)
  {
    t[p.block][p.slot].value
  }

  /** Field `f` of the row is the int `key`. */
  predicate Matches(row: Row, f: int, key: int) {
    0 <= f < |row| && row[f].IntField? && row[f].value == key
  }

  /** The slot at `p` is live and its field `f` is the int `key`. */
  predicate Holds(t: Table, p: Pos, f: int, key: int) {
    IsLive(t, p) && Matches(RowAt(t, p), f, key)
  }

  /** Every live row has the schema's field types in order. */
  predicate RowFits(row: Row, types: seq<FieldType>) {
    |row| == |types| && forall i :: 0 <= i < |row| ==> TypeOf(row[i]) == types[i]
  }

  ghost predicate Conforming(t: Table, types: seq<FieldType>) {
    forall p :: IsLive(t, p) ==> RowFits(RowAt(t, p), types)
  }

  /** No two live slots hold the same primary key (field 0). */
  ghost predicate UniqueKeys(t: Table) {
    forall p, q, k :: Holds(t, p, 0, k) && Holds(t, q, 0, k) ==> p == q
  }

  /** The data blocks are exactly 2 .. valid - 1, each with `width` slots. */
  ghost predicate Shaped(t: Table, valid: int, width: int) {
    && FIRST_DATA_BLOCK <= valid
    && (forall b :: b in t <==> FIRST_DATA_BLOCK <= b < valid)
    && (forall b :: b in t ==> |t[b]| == width)
  }

  /** The first empty slot at or after `r`, or -1: what the record
      bitmap's firstZero finds. */
  function FirstFree(s: Slots, r: nat): (i: int)
    decreases |s| - r
    ensures i == -1 <==> forall j :: r <= j < |s| ==> s[j].Some?
    ensures i != -1 ==> r <= i < |s| && s[i].None? && forall j :: r <= j < i ==> s[j].Some?
  {
    if r >= |s| then -1
    else if s[r].None? then r
    else FirstFree(s, r + 1)
  }

  /** The first slot of the lowest block in [b, hi) that has an empty one:
      where the first-fit scan of insert puts a record. */
  function FirstFit(t: Table, b: int, hi: int): (p: Option<Pos>)
    decreases hi - b
    ensures p.Some? ==> && b <= p.value.block < hi && p.value.block in t
                        && p.value.slot == FirstFree(t[p.value.block], 0) >= 0
                        && forall c :: b <= c < p.value.block && c in t ==> FirstFree(t[c], 0) == -1
    ensures p.None? ==> forall c :: b <= c < hi && c in t ==> FirstFree(t[c], 0) == -1
  {
    if b >= hi then None
    else if b in t && FirstFree(t[b], 0) >= 0 then Some(Pos(b, FirstFree(t[b], 0)))
    else FirstFit(t, b + 1, hi)
  }

  /** The live slots of block `b` from slot `r` on, in slot order. */
  function SlotsFrom(s: Slots, b: int, r: nat): seq<Pos>
    decreases |s| - r
  {
    if r >= |s| then [] else (if s[r].Some? then [Pos(b, r)] else []) + SlotsFrom(s, b, r + 1)
  }

  /** The live slots of the data blocks b .. hi - 1, in the engine's order. */
  function BlocksFrom(t: Table, b: int, hi: int): seq<Pos>
    decreases hi - b
  {
    if b >= hi then [] else (if b in t then SlotsFrom(t[b], b, 0) else []) + BlocksFrom(t, b + 1, hi)
  }

  /** Every live slot of the file, in the order the iterator yields them. */
  function Live(t: Table, hi: int): seq<Pos> {
    BlocksFrom(t, FIRST_DATA_BLOCK, hi)
  }

  /** The positions of `ps` whose row has `key` in field `f`, in order. */
  function Hits(t: Table, ps: seq<Pos>, f: int, key: int): seq<Pos> {
    if ps == [] then [] else (if Holds(t, ps[0], f, key) then [ps[0]] else []) + Hits(t, ps[1..], f, key)
  }

  /** The rows at the positions, as records read back from the slots. */
  function Rows(t: Table, ps: seq<Pos>): (rows: seq<Row>)
    ensures |rows| == |ps|
  {
    seq(|ps|, i requires 0 <= i < |ps| => if IsLive(t, ps[i]) then RowAt(t, ps[i]) else [])
  }

  /** The result of a sequential lookup of `key` in field `f`. */
  function Scan(t: Table, hi: int, f: int, key: int): seq<Row> {
    Rows(t, Hits(t, Live(t, hi), f, key))
  }

  /** The slots of block `b` whose field `f` is `key`: lookupInBlock. */
  function BlockHits(t: Table, b: int, f: int, key: int): seq<Pos> {
    if b in t then Hits(t, SlotsFrom(t[b], b, 0), f, key) else []
  }

  /** How many live records of block `b` have `key` in field `f`. */
  function Occurs(t: Table, b: int, f: int, key: int): nat {
    |BlockHits(t, b, f, key)|
  }

  /** An index on field `f` holds, for each key and block, one occurrence
      per live record of that block with that key. */
  ghost predicate IndexAgrees(m: IndexModel.Model, t: Table, f: int) {
    forall k, b :: IndexModel.Blocks(m, k)[b] == Occurs(t, b, f, k)
  }

  /** The records an indexed lookup collects: lookupInBlock over each
      block of `bs` in turn. */
  function Gather(t: Table, bs: seq<int>, f: int, key: int): seq<Row> {
    if bs == [] then [] else Rows(t, BlockHits(t, bs[0], f, key)) + Gather(t, bs[1..], f, key)
  }

  /** Whether some live record has primary key `key`. */
  predicate KeyPresent(t: Table, hi: int, key: int) {
    Hits(t, Live(t, hi), 0, key) != []
  }

  /** The first live slot holding primary key `key`, where delete stops. */
  function FindKey(t: Table, hi: int, key: int): Option<Pos> {
    var hs := Hits(t, Live(t, hi), 0, key);
    if hs == [] then None else Some(hs[0])
  }

  /** Writing a row into a slot and setting its bit. */
  function Place(t: Table, p: Pos, row: Row): Table
    requires p.block in t && 0 <= p.slot < |t[p.block]|
  {
    t[p.block := t[p.block][p.slot := Some(row)]]
  }

  /** Clearing the bit of a slot. */
  function Clear(t: Table, p: Pos): Table
    requires p.block in t && 0 <= p.slot < |t[p.block]|
  {
    t[p.block := t[p.block][p.slot := None]]
  }

  /** The outcome of insert on the table: the key is already present, the
      row was placed, or every block is in use (IllegalStateException). */
  datatype Inserted =
    | Duplicate
    | Placed(table: Table, valid: int, at: Pos)
    | Full(table: Table, valid: int)

  /** insert(rec) on a table whose blocks 0 .. valid - 1 are marked valid
      out of `nb`: a present key refuses the row; otherwise the first-fit
      scan places it, and failing that the first unmarked block is
      initialised with a cleared bitmap, marked, and the insert retried. */
  function InsertSpec(t: Table, valid: int, nb: int, width: nat, row: Row): Inserted
    requires |row| >= 1 && row[0].IntField?
    decreases nb - valid
  {
    if KeyPresent(t, valid, row[0].value) then Duplicate
    else
      match FirstFit(t, FIRST_DATA_BLOCK, valid)
      case Some(p) => Placed(Place(t, p, row), valid, p)
      case None =>
        if valid >= nb then Full(t, valid)
        else InsertSpec(t[valid := Empty(width)], valid + 1, nb, width, row)
  }
}
