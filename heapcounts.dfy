/** How writing, clearing and initialising slots changes the number of
    live records per block and key, and so what an index must do to keep
    agreeing with the file. */
module HeapCounts {
  import opened HeapTables
  import opened HeapScans
  import IndexModel

  /** The filter only looks at the rows of the positions it is given. */
  lemma {:induction false} HitsFrame(t: Table, u: Table, ps: seq<Pos>, f: int, key: int)
    requires forall i :: 0 <= i < |ps| ==> (Holds(t, ps[i], f, key) <==> Holds(u, ps[i], f, key))
    ensures Hits(t, ps, f, key) == Hits(u, ps, f, key)
  {
    if ps != [] {
      HitsFrame(t, u, ps[1..], f, key);
    }
  }

  /** A block whose slots are all empty has no live slot. */
  lemma {:induction false} SlotsFromEmpty(s: Slots, b: int, r: nat)
    requires forall j :: r <= j < |s| ==> s[j].None?
    ensures SlotsFrom(s, b, r) == []
    decreases |s| - r
  {
    if r < |s| {
      SlotsFromEmpty(s, b, r + 1);
    }
  }

  /** Blocks other than `b` keep their counts when only block `b` changes. */
  lemma OtherBlock(t: Table, u: Table, b: int, c: int, f: int, key: int)
    requires c != b && (c in t <==> c in u) && (c in t ==> t[c] == u[c])
    requires forall d :: d != b ==> (d in t <==> d in u)
    ensures Occurs(u, c, f, key) == Occurs(t, c, f, key)
  {
    if c in t {
      var ps := SlotsFrom(t[c], c, 0);
      forall i | 0 <= i < |ps|
        ensures Holds(t, ps[i], f, key) <==> Holds(u, ps[i], f, key)
      {
        SlotsFromMembers(t[c], c, 0, ps[i]);
      }
      HitsFrame(t, u, ps, f, key);
    }
  }

  /** Writing `row` into the empty slot `p` adds one matching record to
      the count of block `p.block` from slot `i` on, when `p.slot` is among
      those slots and `row` matches. */
  lemma {:induction false} PlaceCount(t: Table, p: Pos, row: Row, i: nat, f: int, key: int)
    requires p.block in t && 0 <= p.slot < |t[p.block]| && t[p.block][p.slot].None?
    ensures var u := Place(t, p, row);
            |Hits(u, SlotsFrom(u[p.block], p.block, i), f, key)|
            == |Hits(t, SlotsFrom(t[p.block], p.block, i), f, key)| + (if i <= p.slot && Matches(row, f, key) then 1 else 0)
    decreases |t[p.block]| - i
  {
    var u := Place(t, p, row);
    var b := p.block;
    var s, v := t[b], u[b];
    if i < |s| {
      PlaceCount(t, p, row, i + 1, f, key);
      var here := if s[i].Some? then [Pos(b, i)] else [];
      var there := if v[i].Some? then [Pos(b, i)] else [];
      HitsConcat(t, here, SlotsFrom(s, b, i + 1), f, key);
      HitsConcat(u, there, SlotsFrom(v, b, i + 1), f, key);
      if i != p.slot {
        assert here == there;
        HitsFrame(t, u, here, f, key);
      } else {
        assert Holds(u, Pos(b, i), f, key) == Matches(row, f, key);
      }
    }
  }

  /** Clearing the live slot `p` removes its record from the count of
      block `p.block` from slot `i` on, when `p.slot` is among those slots
      and the record matches. */
  lemma {:induction false} ClearCount(t: Table, p: Pos, i: nat, f: int, key: int)
    requires IsLive(t, p)
    ensures var u := Clear(t, p);
            |Hits(u, SlotsFrom(u[p.block], p.block, i), f, key)|
            == |Hits(t, SlotsFrom(t[p.block], p.block, i), f, key)| - (if i <= p.slot && Matches(RowAt(t, p), f, key) then 1 else 0)
    decreases |t[p.block]| - i
  {
    var u := Clear(t, p);
    var b := p.block;
    var s, v := t[b], u[b];
    if i < |s| {
      ClearCount(t, p, i + 1, f, key);
      var here := if s[i].Some? then [Pos(b, i)] else [];
      var there := if v[i].Some? then [Pos(b, i)] else [];
      HitsConcat(t, here, SlotsFrom(s, b, i + 1), f, key);
      HitsConcat(u, there, SlotsFrom(v, b, i + 1), f, key);
      if i != p.slot {
        assert here == there;
        HitsFrame(t, u, here, f, key);
      }
    }
  }

  /** After a write into an empty slot, the block written gains one record
      matching the row's key and no other count changes. */
  lemma PlaceOccurs(t: Table, p: Pos, row: Row, b: int, f: int, key: int)
    requires p.block in t && 0 <= p.slot < |t[p.block]| && t[p.block][p.slot].None?
    ensures Occurs(Place(t, p, row), b, f, key)
            == Occurs(t, b, f, key) + (if b == p.block && Matches(row, f, key) then 1 else 0)
  {
    if b == p.block {
      PlaceCount(t, p, row, 0, f, key);
    } else {
      OtherBlock(t, Place(t, p, row), p.block, b, f, key);
    }
  }

  /** After a live slot is cleared, its block loses the record's match and
      no other count changes. */
  lemma ClearOccurs(t: Table, p: Pos, b: int, f: int, key: int)
    requires IsLive(t, p)
    ensures Occurs(Clear(t, p), b, f, key)
            == Occurs(t, b, f, key) - (if b == p.block && Matches(RowAt(t, p), f, key) then 1 else 0)
  {
    if b == p.block {
      ClearCount(t, p, 0, f, key);
    } else {
      OtherBlock(t, Clear(t, p), p.block, b, f, key);
    }
  }

  /** Initialising a new block changes no count. */
  lemma NewBlockOccurs(t: Table, nb: int, width: nat, b: int, f: int, key: int)
    requires nb !in t
    ensures Occurs(t[nb := Empty(width)], b, f, key) == Occurs(t, b, f, key)
  {
    if b == nb {
      SlotsFromEmpty(Empty(width), nb, 0);
    } else {
      OtherBlock(t, t[nb := Empty(width)], nb, b, f, key);
    }
  }

  /** The index maintenance of insert: adding (row[f], block) to an index
      that agreed with the file keeps it in agreement after the write. */
  lemma IndexAfterPlace(m: IndexModel.Model, t: Table, p: Pos, row: Row, f: int)
    requires IndexAgrees(m, t, f)
    requires p.block in t && 0 <= p.slot < |t[p.block]| && t[p.block][p.slot].None?
    requires 0 <= f < |row| && row[f].IntField?
    ensures IndexAgrees(IndexModel.Insert(m, row[f].value, p.block), Place(t, p, row), f)
  {
    var m' := IndexModel.Insert(m, row[f].value, p.block);
    forall k, b
      ensures IndexModel.Blocks(m', k)[b] == Occurs(Place(t, p, row), b, f, k)
    {
      PlaceOccurs(t, p, row, b, f, k);
    }
  }

  /** The evidently intended index maintenance of delete: removing
      (record[f], block) for the deleted record keeps the index in agreement. */
  lemma IndexAfterClear(m: IndexModel.Model, t: Table, p: Pos, f: int)
    requires IndexAgrees(m, t, f)
    requires IsLive(t, p) && 0 <= f < |RowAt(t, p)| && RowAt(t, p)[f].IntField?
    ensures IndexAgrees(IndexModel.Delete(m, RowAt(t, p)[f].value, p.block), Clear(t, p), f)
  {
    var v := RowAt(t, p)[f].value;
    var m' := IndexModel.Delete(m, v, p.block);
    assert Occurs(t, p.block, f, v) >= 1 by {
      SlotsFromMembers(t[p.block], p.block, 0, p);
      HitsMembers(t, SlotsFrom(t[p.block], p.block, 0), f, v, p);
    }
    forall k, b
      ensures IndexModel.Blocks(m', k)[b] == Occurs(Clear(t, p), b, f, k)
    {
      ClearOccurs(t, p, b, f, k);
    }
  }

  /** An index keeps agreeing when a new, cleared block is initialised. */
  lemma IndexAfterNewBlock(m: IndexModel.Model, t: Table, nb: int, width: nat, f: int)
    requires IndexAgrees(m, t, f) && nb !in t
    ensures IndexAgrees(m, t[nb := Empty(width)], f)
  {
    forall k, b
      ensures IndexModel.Blocks(m, k)[b] == Occurs(t[nb := Empty(width)], b, f, k)
    {
      NewBlockOccurs(t, nb, width, b, f, k);
    }
  }

  /** The records of block `b` from slot `r` on whose field `f` is `key`. */
  function HitsFrom(t: Table, b: int, r: nat, f: int, key: int): seq<Pos> {
    if b in t then Hits(t, SlotsFrom(t[b], b, r), f, key) else []
  }

  /** What an index being built by initializeIndex holds for `key` and
      block `c` once the build has scanned every block below `b` and the
      slots of block `b` below `r`. */
  function Counted(t: Table, b: int, r: nat, f: int, key: int, c: int): int {
    if c < b then Occurs(t, c, f, key)
    else if c == b then Occurs(t, b, f, key) - |HitsFrom(t, b, r, f, key)|
    else 0
  }

  /** Before the build starts nothing is counted. */
  lemma CountedStart(t: Table, b: int, f: int, key: int, c: int)
    requires forall d :: d < b ==> d !in t
    ensures Counted(t, b, 0, f, key, c) == 0
  {
  }

  /** Scanning slot `r` of block `b` counts its record when it matches. */
  lemma CountedStep(t: Table, b: int, r: nat, f: int, key: int, c: int)
    requires b in t && r < |t[b]|
    ensures Counted(t, b, r + 1, f, key, c)
            == Counted(t, b, r, f, key, c) + (if c == b && Holds(t, Pos(b, r), f, key) then 1 else 0)
  {
    var s := t[b];
    var here := if s[r].Some? then [Pos(b, r)] else [];
    HitsConcat(t, here, SlotsFrom(s, b, r + 1), f, key);
  }

  /** Once the slots of block `b` are done, or when it is not initialised,
      the build moves on to block `b + 1`. */
  lemma CountedNextBlock(t: Table, b: int, r: nat, f: int, key: int, c: int)
    requires b in t ==> r >= |t[b]|
    ensures Counted(t, b, r, f, key, c) == Counted(t, b + 1, 0, f, key, c)
  {
  }

  /** When no block lies at or beyond `b`, the build has counted everything. */
  lemma CountedEnd(t: Table, b: int, f: int, key: int, c: int)
    requires forall d :: d >= b ==> d !in t
    ensures Counted(t, b, 0, f, key, c) == Occurs(t, c, f, key)
  {
  }

  /** What initializeIndex has put into an index that held `m0` once its
      scan, starting at block `lo`, has reached slot `r` of block `b`:
      one insert of (field `f`, block) per live record passed. */
  ghost function Built(m0: IndexModel.Model, t: Table, lo: int, b: int, r: nat, f: int): IndexModel.Model
    decreases b - lo, r
  {
    if r > 0 then
      var m := Built(m0, t, lo, b, r - 1, f);
      if b in t && r - 1 < |t[b]| && t[b][r - 1].Some? && 0 <= f < |t[b][r - 1].value| && t[b][r - 1].value[f].IntField?
      then IndexModel.Insert(m, t[b][r - 1].value[f].value, b)
      else m
    else if b <= lo then m0
    else Built(m0, t, lo, b - 1, if b - 1 in t then |t[b - 1]| else 0, f)
  }

  /** Under each key and for each block, the scan has added one occurrence
      per matching record it has passed. */
  lemma {:induction false} BuiltCounts(m0: IndexModel.Model, t: Table, lo: int, b: int, r: nat, f: int, k: int, c: int)
    requires forall d :: d < lo ==> d !in t
    requires lo <= b && (if b in t then r <= |t[b]| else r == 0)
    ensures IndexModel.Blocks(Built(m0, t, lo, b, r, f), k)[c] == IndexModel.Blocks(m0, k)[c] + Counted(t, b, r, f, k, c)
    decreases b - lo, r
  {
    var here := IndexModel.Blocks(Built(m0, t, lo, b, r, f), k)[c];
    if r > 0 {
      var m := Built(m0, t, lo, b, r - 1, f);
      BuiltCounts(m0, t, lo, b, r - 1, f, k, c);
      CountedStep(t, b, r - 1, f, k, c);
      if Holds(t, Pos(b, r - 1), f, k) {
        assert Built(m0, t, lo, b, r, f) == IndexModel.Insert(m, k, b);
        assert here == IndexModel.Blocks(m, k)[c] + multiset{b}[c];
      } else if t[b][r - 1].Some? && 0 <= f < |t[b][r - 1].value| && t[b][r - 1].value[f].IntField? {
        assert Built(m0, t, lo, b, r, f) == IndexModel.Insert(m, t[b][r - 1].value[f].value, b);
        assert here == IndexModel.Blocks(m, k)[c];
      } else {
        assert Built(m0, t, lo, b, r, f) == m;
      }
    } else if b <= lo {
      CountedStart(t, b, f, k, c);
    } else {
      var len := if b - 1 in t then |t[b - 1]| else 0;
      assert Built(m0, t, lo, b, r, f) == Built(m0, t, lo, b - 1, len, f);
      BuiltCounts(m0, t, lo, b - 1, len, f, k, c);
      CountedNextBlock(t, b - 1, len, f, k, c);
    }
  }

  /** Once the scan has passed every block, the index holds one more
      occurrence of block `c` under key `k` per live record of `c` whose
      field `f` is `k`; an index built from empty agrees with the file. */
  lemma BuiltAll(m0: IndexModel.Model, t: Table, lo: int, hi: int, f: int)
    requires lo <= hi && forall d :: d < lo || d >= hi ==> d !in t
    ensures forall k, c :: IndexModel.Blocks(Built(m0, t, lo, hi, 0, f), k)[c] == IndexModel.Blocks(m0, k)[c] + Occurs(t, c, f, k)
    ensures m0 == map[] ==> IndexAgrees(Built(m0, t, lo, hi, 0, f), t, f)
  {
    forall k, c
      ensures IndexModel.Blocks(Built(m0, t, lo, hi, 0, f), k)[c] == IndexModel.Blocks(m0, k)[c] + Occurs(t, c, f, k)
    {
      BuiltCounts(m0, t, lo, hi, 0, f, k, c);
      CountedEnd(t, hi, f, k, c);
    }
  }
}
