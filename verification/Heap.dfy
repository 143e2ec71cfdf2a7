/** Binary max-heaps in sequences: what one sift of heapsort (sort-utils/sort.c) achieves. */
module Heap {
  import opened Orders

  function Parent(j: nat): nat
    requires j > 0
  {
    (j - 1) / 2
  }

  /** Among the first `m` items, every one whose parent is at or behind `k` is at most its parent. */
  ghost predicate HeapFrom<T>(s: seq<T>, cmp: (T, T) -> int, k: nat, m: nat)
    requires m <= |s|
  {
    forall j :: 0 < j < m && k <= Parent(j) ==> cmp(s[j], s[Parent(j)]) <= 0
  }

  /** The same, except that the item at `hole` may be smaller than its children; those are at most its parent. */
  ghost predicate Sinking<T>(s: seq<T>, cmp: (T, T) -> int, k: nat, hole: nat, m: nat)
    requires hole < m <= |s|
  {
    k <= hole &&
    (forall j :: 0 < j < m && k <= Parent(j) && Parent(j) != hole ==> cmp(s[j], s[Parent(j)]) <= 0) &&
    (hole > 0 && k <= Parent(hole) ==>
       forall j :: 0 < j < m && Parent(j) == hole ==> cmp(s[j], s[Parent(hole)]) <= 0)
  }

  function Swap<T>(s: seq<T>, i: nat, j: nat): seq<T>
    requires i < |s| && j < |s|
  {
    s[i := s[j]][j := s[i]]
  }

  lemma SwapBag<T>(s: seq<T>, i: nat, j: nat, m: nat)
    requires i < m <= |s| && j < m
    ensures |Swap(s, i, j)| == |s| && multiset(Swap(s, i, j)) == multiset(s)
    ensures multiset(Swap(s, i, j)[..m]) == multiset(s[..m])
    ensures Swap(s, i, j)[m..] == s[m..]
  {
    assert Swap(s, i, j)[..m] == Swap(s[..m], i, j);
  }

  lemma SinkStart<T>(s: seq<T>, cmp: (T, T) -> int, k: nat, m: nat)
    requires k < m <= |s| && HeapFrom(s, cmp, k + 1, m)
    ensures Sinking(s, cmp, k, k, m)
  {
  }

  /** The larger child `c` of the hole changes places with it. */
  lemma SinkStep<T(!new)>(s: seq<T>, cmp: (T, T) -> int, k: nat, hole: nat, c: nat, m: nat)
    requires TotalOrder(cmp) && hole < c < m <= |s| && Sinking(s, cmp, k, hole, m)
    requires Parent(c) == hole && cmp(s[hole], s[c]) < 0
    requires forall j :: 0 < j < m && Parent(j) == hole ==> cmp(s[j], s[c]) <= 0
    ensures Sinking(Swap(s, hole, c), cmp, k, c, m)
  {
    var t := Swap(s, hole, c);
    forall j | 0 < j < m && k <= Parent(j) && Parent(j) != c
      ensures cmp(t[j], t[Parent(j)]) <= 0
    {
      if Parent(j) == hole {
        if j == c {
          assert t[j] == s[hole];
        } else {
          assert t[j] == s[j] && t[hole] == s[c];
        }
      } else if j == hole {
        assert t[hole] == s[c] && t[Parent(j)] == s[Parent(hole)];
      } else {
        assert j != c;
      }
    }
    forall j | 0 < j < m && Parent(j) == c
      ensures cmp(t[j], t[Parent(c)]) <= 0
    {
      assert t[j] == s[j] && t[Parent(c)] == s[c];
    }
  }

  /** The hole stops where no child is larger. */
  lemma SinkStop<T>(s: seq<T>, cmp: (T, T) -> int, k: nat, hole: nat, m: nat)
    requires hole < m <= |s| && Sinking(s, cmp, k, hole, m)
    requires forall j :: 0 < j < m && Parent(j) == hole ==> cmp(s[j], s[hole]) <= 0
    ensures HeapFrom(s, cmp, k, m)
  {
  }

  /** The first item of a heap is its largest. */
  lemma {:induction false} HeapMax<T(!new)>(s: seq<T>, cmp: (T, T) -> int, m: nat, j: nat)
    requires TotalOrder(cmp) && j < m <= |s| && HeapFrom(s, cmp, 0, m)
    ensures cmp(s[j], s[0]) <= 0
  {
    hide TotalOrder;
    if j == 0 {
      Flip(cmp, s[0], s[0]);
    } else {
      HeapMax(s, cmp, m, Parent(j));
      Trans(cmp, s[j], s[Parent(j)], s[0]);
    }
  }

  ghost predicate Ascending<T>(s: seq<T>, cmp: (T, T) -> int, from: nat) {
    forall i, j :: from <= i < j < |s| ==> cmp(s[i], s[j]) <= 0
  }

  /** The items from `m` on are in order and none before them is larger. */
  ghost predicate Done<T>(s: seq<T>, cmp: (T, T) -> int, m: nat)
    requires m <= |s|
  {
    Ascending(s, cmp, m) && forall i, j :: 0 <= i < m <= j < |s| ==> cmp(s[i], s[j]) <= 0
  }

  /** Putting the largest item of the heap behind the others extends the sorted part. */
  lemma TakeLargest<T(!new)>(s: seq<T>, cmp: (T, T) -> int, t: nat)
    requires TotalOrder(cmp) && 0 < t < |s| && HeapFrom(s, cmp, 0, t + 1) && Done(s, cmp, t + 1)
    ensures Done(Swap(s, 0, t), cmp, t) && HeapFrom(Swap(s, 0, t), cmp, 1, t)
  {
    hide TotalOrder;
    var r := Swap(s, 0, t);
    forall i | 0 <= i < t
      ensures cmp(r[i], r[t]) <= 0
    {
      HeapMax(s, cmp, t + 1, if i == 0 then t else i);
    }
    forall i, j | 0 <= i < t < j < |s|
      ensures cmp(r[i], r[j]) <= 0
    {
      assert r[i] == s[if i == 0 then t else i] && r[j] == s[j];
    }
    forall j | t < j < |s|
      ensures cmp(r[t], r[j]) <= 0
    {
      assert r[t] == s[0] && r[j] == s[j];
    }
    forall j | 0 < j < t && 1 <= Parent(j)
      ensures cmp(r[j], r[Parent(j)]) <= 0
    {
      assert r[j] == s[j] && r[Parent(j)] == s[Parent(j)];
    }
  }

  /** Rearranging the items before `m` does not disturb the sorted part. */
  lemma DoneKept<T(!new)>(s: seq<T>, r: seq<T>, cmp: (T, T) -> int, m: nat)
    requires m <= |s| == |r| && Done(s, cmp, m)
    requires multiset(r[..m]) == multiset(s[..m]) && r[m..] == s[m..]
    ensures Done(r, cmp, m)
  {
    assert forall j :: m <= j < |s| ==> r[j] == r[m..][j - m] == s[j];
    forall i, j | 0 <= i < m <= j < |s|
      ensures cmp(r[i], r[j]) <= 0
    {
      assert r[..m][i] in multiset(r[..m]);
      assert r[i] in multiset(s[..m]);
      var x :| 0 <= x < m && s[..m][x] == r[i];
      assert cmp(s[x], s[j]) <= 0;
    }
  }
}
