/** Ascending lists of block numbers, as both indexes keep them, and the
    list operations the indexes apply to them: Collections.sort after an
    append, and List.remove by position. */
module SortedLists {

  /** The elements ascend, duplicates allowed. */
  predicate Ascending(s: seq<int>) {
    forall i, j :: 0 <= i < j < |s| ==> s[i] <= s[j]
  }

  /** Collections.sort of an ascending list with one element appended: the
      element goes before the first larger one. */
  function SortAppended(s: seq<int>, x: int): (r: seq<int>)
    requires Ascending(s)
    ensures Ascending(r) && multiset(r) == multiset(s) + multiset{x}
  {
    if s == [] then [x]
    else if x <= s[0] then [x] + s
    else
      var t := SortAppended(s[1..], x);
      AscendingTail(s);
      AtLeastAll(s[1..], x, t, s[0]);
      ConsAscending(s[0], t);
      [s[0]] + t
  }

  /** A list headed by an element no larger than any of an ascending tail
      ascends. */
  lemma ConsAscending(h: int, t: seq<int>)
    requires Ascending(t) && forall i :: 0 <= i < |t| ==> h <= t[i]
    ensures Ascending([h] + t)
  {
  }

  /** A list holding the elements of `s` and `x`, all at least `lo`, holds
      only elements at least `lo`. */
  lemma AtLeastAll(s: seq<int>, x: int, t: seq<int>, lo: int)
    requires multiset(t) == multiset(s) + multiset{x}
    requires lo <= x && forall i :: 0 <= i < |s| ==> lo <= s[i]
    ensures forall i :: 0 <= i < |t| ==> lo <= t[i]
  {
    forall i | 0 <= i < |t|
      ensures lo <= t[i]
    {
      assert t[i] in multiset(t);
      if t[i] != x {
        assert t[i] in multiset(s);
        var j :| 0 <= j < |s| && s[j] == t[i];
      }
    }
  }

  /** Sorting is determined by its input's elements: two ascending lists
      holding the same elements are equal, so SortAppended is what any sort
      of the list returns. */
  lemma {:induction false} AscendingUnique(a: seq<int>, b: seq<int>)
    requires Ascending(a) && Ascending(b) && multiset(a) == multiset(b)
    ensures a == b
    decreases |a|
  {
    if a != [] {
      assert b != [] && a[0] == b[0] by {
        assert a[0] in multiset(a);
        HeadIsLeast(b, a[0]);
        HeadIsLeast(a, b[0]);
      }
      AscendingTail(a);
      AscendingTail(b);
      AscendingUnique(a[1..], b[1..]);
    } else {
      assert |multiset(b)| == 0;
    }
  }

  /** The first element of an ascending list is its least. */
  lemma HeadIsLeast(s: seq<int>, v: int)
    requires Ascending(s) && v in multiset(s)
    ensures s != [] && s[0] <= v
  {
    var i :| 0 <= i < |s| && s[i] == v;
  }

  /** The tail of a non-empty ascending list is ascending and holds all its
      elements but the first. */
  lemma AscendingTail(s: seq<int>)
    requires Ascending(s) && s != []
    ensures Ascending(s[1..]) && s == [s[0]] + s[1..]
    ensures multiset(s[1..]) == multiset(s) - multiset{s[0]}
  {
    assert s == [s[0]] + s[1..];
  }

  /** Removing the element at `i` removes one occurrence of it and keeps an
      ascending list ascending. */
  lemma RemoveOne(s: seq<int>, i: int)
    requires 0 <= i < |s|
    ensures multiset(s[..i] + s[i + 1..]) == multiset(s) - multiset{s[i]}
    ensures Ascending(s) ==> Ascending(s[..i] + s[i + 1..])
  {
    assert s == s[..i] + [s[i]] + s[i + 1..];
    if Ascending(s) {
      RemoveOneAscending(s, i);
    }
  }

  lemma RemoveOneAscending(s: seq<int>, i: int)
    requires 0 <= i < |s| && Ascending(s)
    ensures Ascending(s[..i] + s[i + 1..])
  {
    var t := s[..i] + s[i + 1..];
    forall p, q | 0 <= p < q < |t|
      ensures t[p] <= t[q]
    {
      var p' := if p < i then p else p + 1;
      var q' := if q < i then q else q + 1;
      assert t[p] == s[p'] && t[q] == s[q'];
    }
  }

  /** List.indexOf(x): the position of the first occurrence of x, or -1. */
  function IndexOf(s: seq<int>, x: int): (i: int)
    ensures i == -1 <==> x !in s
    ensures i != -1 ==> 0 <= i < |s| && s[i] == x && x !in s[..i]
  {
    if s == [] then -1
    else if s[0] == x then 0
    else
      var j := IndexOf(s[1..], x);
      assert s == [s[0]] + s[1..];
      if j == -1 then -1
      else
        assert s[..j + 1] == [s[0]] + s[1..][..j];
        j + 1
  }
}
