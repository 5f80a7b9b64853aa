/** What the engine's sequential scans visit: every live slot of the data
    blocks, once each, in ascending (block, slot) order, and the filters
    the lookups and the delete apply to that sequence. */
module HeapScans {
  import opened Outcomes
  import opened HeapLayout
  import opened HeapTables

  /** The scan of a block from slot `r` visits exactly its live slots at or
      after `r`. */
  lemma {:induction false} SlotsFromMembers(s: Slots, b: int, r: nat, p: Pos)
    ensures p in SlotsFrom(s, b, r) <==> p.block == b && r <= p.slot < |s| && s[p.slot].Some?
    decreases |s| - r
  {
    if r < |s| {
      SlotsFromMembers(s, b, r + 1, p);
    }
  }

  /** ... in ascending slot order. */
  lemma {:induction false} SlotsFromAscending(s: Slots, b: int, r: nat)
    ensures Ascending(SlotsFrom(s, b, r))
    decreases |s| - r
  {
    if r < |s| {
      SlotsFromAscending(s, b, r + 1);
      var rest := SlotsFrom(s, b, r + 1);
      forall i | 0 <= i < |rest|
        ensures Before(Pos(b, r), rest[i])
      {
        SlotsFromMembers(s, b, r + 1, rest[i]);
      }
      AscendingCons(Pos(b, r), rest);
    }
  }

  /** A position before every element of an ascending sequence heads an
      ascending sequence. */
  lemma AscendingCons(p: Pos, ps: seq<Pos>)
    requires Ascending(ps) && forall i :: 0 <= i < |ps| ==> Before(p, ps[i])
    ensures Ascending([p] + ps)
  {
  }

  /** Two ascending sequences, the first wholly before the second, join
      into an ascending sequence. */
  lemma AscendingJoin(a: seq<Pos>, c: seq<Pos>)
    requires Ascending(a) && Ascending(c)
    requires forall i, j :: 0 <= i < |a| && 0 <= j < |c| ==> Before(a[i], c[j])
    ensures Ascending(a + c)
  {
  }

  /** The scan of blocks b .. hi - 1 visits exactly the live slots there. */
  lemma {:induction false} BlocksFromMembers(t: Table, b: int, hi: int, p: Pos)
    ensures p in BlocksFrom(t, b, hi) <==> b <= p.block < hi && IsLive(t, p)
    decreases hi - b
  {
    if b < hi {
      BlocksFromMembers(t, b + 1, hi, p);
      if b in t {
        SlotsFromMembers(t[b], b, 0, p);
      }
    }
  }

  /** ... in ascending (block, slot) order. */
  lemma {:induction false} BlocksFromAscending(t: Table, b: int, hi: int)
    ensures Ascending(BlocksFrom(t, b, hi))
    decreases hi - b
  {
    if b < hi {
      BlocksFromAscending(t, b + 1, hi);
      if b in t {
        var here := SlotsFrom(t[b], b, 0);
        var rest := BlocksFrom(t, b + 1, hi);
        SlotsFromAscending(t[b], b, 0);
        forall i, j | 0 <= i < |here| && 0 <= j < |rest|
          ensures Before(here[i], rest[j])
        {
          SlotsFromMembers(t[b], b, 0, here[i]);
          BlocksFromMembers(t, b + 1, hi, rest[j]);
        }
        AscendingJoin(here, rest);
      }
    }
  }

  /** The iterator's sequence: every live slot of the data blocks below
      `hi`, each once, in ascending order. */
  lemma LiveExactly(t: Table, hi: int)
    ensures Ascending(Live(t, hi))
    ensures forall p :: p in Live(t, hi) <==> FIRST_DATA_BLOCK <= p.block < hi && IsLive(t, p)
  {
    BlocksFromAscending(t, FIRST_DATA_BLOCK, hi);
    forall p {
      BlocksFromMembers(t, FIRST_DATA_BLOCK, hi, p);
    }
  }

  /** Filtering distributes over concatenation. */
  lemma {:induction false} HitsConcat(t: Table, a: seq<Pos>, c: seq<Pos>, f: int, key: int)
    ensures Hits(t, a + c, f, key) == Hits(t, a, f, key) + Hits(t, c, f, key)
  {
    if a == [] {
      assert a + c == c;
    } else {
      assert (a + c)[0] == a[0] && (a + c)[1..] == a[1..] + c;
      HitsConcat(t, a[1..], c, f, key);
    }
  }

  /** The filter keeps exactly the positions whose row matches. */
  lemma {:induction false} HitsMembers(t: Table, ps: seq<Pos>, f: int, key: int, p: Pos)
    ensures p in Hits(t, ps, f, key) <==> p in ps && Holds(t, p, f, key)
  {
    if ps != [] {
      HitsMembers(t, ps[1..], f, key, p);
      assert ps == [ps[0]] + ps[1..];
    }
  }

  /** Reading rows distributes over concatenation. */
  lemma RowsConcat(t: Table, a: seq<Pos>, c: seq<Pos>)
    ensures Rows(t, a + c) == Rows(t, a) + Rows(t, c)
  {
    assert forall i :: 0 <= i < |a| ==> (a + c)[i] == a[i];
    assert forall i :: |a| <= i < |a| + |c| ==> (a + c)[i] == c[i - |a|];
  }

  /** A primary key is present exactly when some live slot of a data block
      below `hi` holds it. */
  lemma KeyPresentIff(t: Table, hi: int, key: int)
    ensures KeyPresent(t, hi, key) <==> exists p: Pos :: FIRST_DATA_BLOCK <= p.block < hi && Holds(t, p, 0, key)
  {
    var hs := Hits(t, Live(t, hi), 0, key);
    LiveExactly(t, hi);
    if hs != [] {
      HitsMembers(t, Live(t, hi), 0, key, hs[0]);
    }
    forall p: Pos | FIRST_DATA_BLOCK <= p.block < hi && Holds(t, p, 0, key)
      ensures p in hs
    {
      HitsMembers(t, Live(t, hi), 0, key, p);
    }
  }

  /** Delete's scan stops at a live slot holding the key, and finds one
      whenever the key is present; with unique keys it is the only one. */
  lemma FindKeyFinds(t: Table, hi: int, key: int)
    ensures FindKey(t, hi, key).Some? <==> KeyPresent(t, hi, key)
    ensures FindKey(t, hi, key).Some? ==> var p := FindKey(t, hi, key).value;
              FIRST_DATA_BLOCK <= p.block < hi && Holds(t, p, 0, key)
              && (UniqueKeys(t) ==> forall q :: Holds(t, q, 0, key) ==> q == p)
  {
    var hs := Hits(t, Live(t, hi), 0, key);
    if hs != [] {
      HitsMembers(t, Live(t, hi), 0, key, hs[0]);
      LiveExactly(t, hi);
    }
  }
}
