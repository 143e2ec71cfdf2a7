/**
 Heapsort on a byte array (sort-utils/sort.c).

 Items are `size` bytes each and all positions are byte offsets, as in the source; the
 loop counters are the source's size_t and long with their wrap-around.
 */
module HeapSort {
  import opened Arithmetic
  import opened Bytes
  import opened Orders
  import opened Heap
  import opened Memory

  type Cell = seq<byte>

  const WORD: nat := 8
  const SIZES: int := 0x1_0000_0000_0000_0000

  /** The items in a buffer. */
  function Cells(b: seq<byte>, size: nat): seq<Cell>
    requires size > 0
  {
    if |b| < size then [] else [b[..size]] + Cells(b[size..], size)
  }

  /** A size_t taken for a long. */
  function ToLong(x: int): int {
    var y := x % SIZES;
    if y < SIZES / 2 then y else y - SIZES
  }

  // -------------------------------------------------------------------------
  // Offsets

  lemma Scaled(a: int, b: int, size: nat)
    requires size > 0
    ensures a * size < b * size <==> a < b
    ensures a < b ==> a * size + size <= b * size
    ensures (a + 1) * size == a * size + size
  {
    if a < b {
      assert (b - a) * size >= size;
    } else {
      assert (a - b) * size >= 0;
    }
  }

  /** Where the left child of item `h` lies. */
  lemma ChildOffset(h: nat, size: nat)
    ensures (2 * h + 1) * size == 2 * (h * size) + size
    ensures (2 * h + 2) * size == 2 * (h * size) + size + size
  {
  }

  lemma {:induction false} CellsAt(b: seq<byte>, size: nat, n: nat, i: nat)
    requires size > 0 && |b| == n * size && i < n
    ensures |Cells(b, size)| == n
    ensures 0 <= i * size && i * size + size <= |b| && Cells(b, size)[i] == b[i * size..i * size + size]
  {
    hide Cells;
    CellsFrom(b, size, n, i);
  }

  /** A buffer of `n` items. */
  ghost predicate Whole(b: seq<byte>, size: nat, n: nat) { |b| == n * size }

  /** Item `i` of a buffer is `c`. */
  ghost predicate IsCell(b: seq<byte>, size: nat, i: nat, c: Cell) {
    0 <= i * size && i * size + size <= |b| && c == b[i * size..i * size + size]
  }

  lemma {:induction false} CellsFrom(b: seq<byte>, size: nat, n: nat, i: nat)
    requires size > 0 && Whole(b, size, n) && i < n
    ensures |Cells(b, size)| == n && IsCell(b, size, i, Cells(b, size)[i])
  {
    hide Cells, Whole, IsCell;
    FirstCell(b, size, n);
    var rest := b[size..];
    if n == 1 {
      NoCells(rest, size);
    } else if i == 0 {
      CellsFrom(rest, size, n - 1, 0);
    } else {
      CellsFrom(rest, size, n - 1, i - 1);
      LaterCell(b, size, i, Cells(rest, size)[i - 1]);
    }
  }

  lemma FirstCell(b: seq<byte>, size: nat, n: nat)
    requires size > 0 && Whole(b, size, n) && n > 0
    ensures |b| >= size && Whole(b[size..], size, n - 1) && (n == 1 ==> |b[size..]| < size)
    ensures Cells(b, size) == [b[..size]] + Cells(b[size..], size) && IsCell(b, size, 0, b[..size])
  {
    Ordered(0, n, size);
    OneLess(n, size);
  }

  lemma LaterCell(b: seq<byte>, size: nat, i: nat, c: Cell)
    requires i > 0 && |b| >= size && IsCell(b[size..], size, i - 1, c)
    ensures IsCell(b, size, i, c)
  {
    OneLess(i, size);
    var j := (i - 1) * size;
    assert b[size..][j..j + size] == b[j + size..j + size + size];
  }

  lemma NoCells(b: seq<byte>, size: nat)
    requires size > 0 && |b| < size
    ensures Cells(b, size) == []
  {
  }

  lemma CellsCount(b: seq<byte>, size: nat, n: nat)
    requires size > 0 && |b| == n * size
    ensures |Cells(b, size)| == n
  {
    if n > 0 {
      CellsAt(b, size, n, 0);
    }
  }

  /** Buffers that hold the same items are equal item by item. */
  lemma CellsAre(b: seq<byte>, size: nat, n: nat, s: seq<Cell>)
    requires size > 0 && |b| == n * size && |s| == n
    requires forall i :: 0 <= i < n ==> CellAt(b, size, i) == s[i]
    ensures Cells(b, size) == s
  {
    hide Cells, CellAt;
    CellsCount(b, size, n);
    forall i | 0 <= i < n
      ensures Cells(b, size)[i] == s[i]
    {
      CellIs(b, size, n, i);
    }
  }

  ghost function CellAt(b: seq<byte>, size: nat, i: nat): Cell {
    if i * size + size <= |b| then b[i * size..i * size + size] else []
  }

  // -------------------------------------------------------------------------
  // Swapping

  /** `b` with the `n` bytes at `x` and at `y` exchanged. */
  ghost predicate Exchanged(b: seq<byte>, b': seq<byte>, x: nat, y: nat, n: nat) {
    |b'| == |b| && x + n <= y && y + n <= |b| &&
    forall w :: 0 <= w < |b| ==>
      b'[w] == b[if x <= w < x + n then w - x + y else if y <= w < y + n then w - y + x else w]
  }

  lemma ExchangedNone(b: seq<byte>, x: nat, y: nat)
    requires x <= y <= |b|
    ensures Exchanged(b, b, x, y, 0)
  {
  }

  /** Two exchanges side by side are one. */
  lemma ExchangedMore(b: seq<byte>, c: seq<byte>, d: seq<byte>, x: nat, y: nat, k: nat, j: nat)
    requires Exchanged(b, c, x, y, k) && Exchanged(c, d, x + k, y + k, j) && x + k + j <= y
    ensures Exchanged(b, d, x, y, k + j)
  {
  }

  /** One word through a register. */
  method SwapWord(p: array<byte>, x: nat, y: nat)
    requires x + WORD <= y && y + WORD <= p.Length
    modifies p
    ensures Exchanged(old(p[..]), p[..], x, y, WORD)
  {
    var it := p[x..x + WORD];
    forall j | 0 <= j < WORD {
      p[x + j] := p[y + j];
    }
    forall j | 0 <= j < WORD {
      p[y + j] := it[j];
    }
  }

  method SwapByte(p: array<byte>, x: nat, y: nat)
    requires x < y < p.Length
    modifies p
    ensures Exchanged(old(p[..]), p[..], x, y, 1)
  {
    var ct := p[x];
    p[x] := p[y];
    p[y] := ct;
  }

  /** `__memswap`: eight bytes at a time, then the rest one by one. */
  method Memswap(p: array<byte>, x: nat, y: nat, n: nat)
    requires x + n <= y && y + n <= p.Length
    modifies p
    ensures Exchanged(old(p[..]), p[..], x, y, n)
  {
    hide Exchanged;
    ghost var was := p[..];
    var k, left := 0, n;
    ExchangedNone(was, x, y);
    while left >= WORD
      invariant 0 <= left && k + left == n && Exchanged(was, p[..], x, y, k)
    {
      SwapWordAt(p, x, y, k, was);
      k, left := k + WORD, left - WORD;
    }
    while left > 0
      invariant 0 <= left && k + left == n && Exchanged(was, p[..], x, y, k)
    {
      SwapByteAt(p, x, y, k, was);
      k, left := k + 1, left - 1;
    }
  }

  /** One turn of the first loop. */
  method SwapWordAt(p: array<byte>, x: nat, y: nat, k: nat, ghost was: seq<byte>)
    requires x + k + WORD <= y && y + k + WORD <= p.Length && Exchanged(was, p[..], x, y, k)
    modifies p
    ensures Exchanged(was, p[..], x, y, k + WORD)
  {
    hide Exchanged;
    ghost var before := p[..];
    SwapWord(p, x + k, y + k);
    ghost var after := p[..];
    ExchangedMore(was, before, after, x, y, k, WORD);
  }

  /** One turn of the second loop. */
  method SwapByteAt(p: array<byte>, x: nat, y: nat, k: nat, ghost was: seq<byte>)
    requires x + k + 1 <= y && y + k + 1 <= p.Length && Exchanged(was, p[..], x, y, k)
    modifies p
    ensures Exchanged(was, p[..], x, y, k + 1)
  {
    hide Exchanged;
    ghost var before := p[..];
    SwapByte(p, x + k, y + k);
    ghost var after := p[..];
    ExchangedMore(was, before, after, x, y, k, 1);
  }

  lemma SwappedCell(b: seq<byte>, b': seq<byte>, size: nat, n: nat, i: nat, j: nat, k: nat)
    requires size > 0 && |b| == n * size && i < j < n && k < n
    requires Exchanged(b, b', i * size, j * size, size)
    ensures CellAt(b', size, k) == CellAt(b, size, if k == i then j else if k == j then i else k)
  {
    hide Exchanged;
    Ordered(i, j, size);
    Ordered(j, n, size);
    Ordered(k, n, size);
    if k < i {
      Ordered(k, i, size);
      ExchangedApart(b, b', i * size, j * size, size, k * size);
    } else if k == i || k == j {
      ExchangedPair(b, b', i * size, j * size, size);
    } else if k < j {
      Ordered(i, k, size);
      Ordered(k, j, size);
      ExchangedApart(b, b', i * size, j * size, size, k * size);
    } else {
      Ordered(j, k, size);
      ExchangedApart(b, b', i * size, j * size, size, k * size);
    }
  }

  lemma OneLess(n: nat, size: nat)
    requires n > 0
    ensures (n - 1) * size == n * size - size
  {
  }

  /** Item `i` ends where item `k` starts, or before. */
  lemma Ordered(i: nat, k: nat, size: nat)
    requires i < k
    ensures i * size + size <= k * size
  {
    Difference(k, i, size);
    AtLeastOnce(k - i, size);
  }

  /** The two places after an exchange. */
  lemma ExchangedPair(b: seq<byte>, b': seq<byte>, x: nat, y: nat, n: nat)
    requires Exchanged(b, b', x, y, n)
    ensures |b'| == |b| && x + n <= y && y + n <= |b| && b'[x..x + n] == b[y..y + n] && b'[y..y + n] == b[x..x + n]
  {
  }

  /** A place apart from both. */
  lemma ExchangedApart(b: seq<byte>, b': seq<byte>, x: nat, y: nat, n: nat, at: nat)
    requires Exchanged(b, b', x, y, n) && at + n <= |b|
    requires at + n <= x || (x + n <= at && at + n <= y) || y + n <= at
    ensures |b'| == |b| && b'[at..at + n] == b[at..at + n]
  {
  }

  /** Exchanging the bytes of two items exchanges the items. */
  lemma SwappedCells(b: seq<byte>, b': seq<byte>, size: nat, n: nat, i: nat, j: nat)
    requires size > 0 && |b| == n * size && i < j < n
    requires Exchanged(b, b', i * size, j * size, size)
    ensures |Cells(b, size)| == n && Cells(b', size) == Swap<Cell>(Cells(b, size), i, j)
  {
    hide Exchanged, Cells, CellAt, Swap;
    CellsCount(b, size, n);
    var s := Cells(b, size);
    var t := Swap<Cell>(s, i, j);
    SwapIs(s, i, j);
    assert |b'| == n * size by {
      ExchangedSize(b, b', i * size, j * size, size);
    }
    forall k | 0 <= k < n
      ensures CellAt(b', size, k) == t[k]
    {
      SwappedCell(b, b', size, n, i, j, k);
      CellIs(b, size, n, if k == i then j else if k == j then i else k);
    }
    CellsAre(b', size, n, t);
  }

  lemma SwapIs(s: seq<Cell>, i: nat, j: nat)
    requires i < |s| && j < |s|
    ensures |Swap<Cell>(s, i, j)| == |s|
    ensures forall k :: 0 <= k < |s| ==> Swap<Cell>(s, i, j)[k] == s[if k == i then j else if k == j then i else k]
  {
  }

  lemma CellIs(b: seq<byte>, size: nat, n: nat, i: nat)
    requires size > 0 && |b| == n * size && i < n
    ensures |Cells(b, size)| == n && Cells(b, size)[i] == CellAt(b, size, i)
  {
    hide Cells;
    CellsAt(b, size, n, i);
  }

  lemma ExchangedSize(b: seq<byte>, b': seq<byte>, x: nat, y: nat, n: nat)
    requires Exchanged(b, b', x, y, n)
    ensures |b'| == |b|
  {
  }

  // -------------------------------------------------------------------------
  // Sorting

  /**
   The larger of the children of the item at byte `r`, none of whose offsets wraps around, and whether the
   item is smaller still.
   */
  method PickChild(p: array<byte>, r: nat, end: nat, size: nat, cmp: (Cell, Cell) -> int,
                   ghost n: nat, ghost h: nat, ghost m: nat)
    returns (c: nat, smaller: bool, ghost g: nat)
    requires size > 0 && p.Length == n * size < SIZES / 2 && TotalOrder<Cell>(cmp)
    requires 2 * h + 1 < m <= n && r == h * size && end == m * size
    ensures (c == 2 * r + size || c == 2 * r + size + size) && c + size <= end <= p.Length && 2 * r + size < SIZES
    ensures smaller <==> cmp(p[..][r..r + size], p[..][c..c + size]) < 0
    ensures |Cells(p[..], size)| == n && h < g < m && Parent(g) == h && c == g * size
    ensures var s := Cells(p[..], size);
      && (smaller <==> cmp(s[h], s[g]) < 0)
      && forall j :: 0 < j < m && Parent(j) == h ==> cmp(s[j], s[g]) <= 0
  {
    hide Cells, TotalOrder;
    Children(h, m, size);
    ghost var s := Cells(p[..], size);
    g := 2 * h + 1;
    CellsAt(p[..], size, n, h);
    CellsAt(p[..], size, n, g);
    c := 2 * r + size;
    if c < end - size {
      CellsAt(p[..], size, n, g + 1);
      if cmp(p[..][c..c + size], p[..][c + size..c + size + size]) < 0 {
        c, g := c + size, g + 1;
      }
    }
    LargerChild(s, cmp, h, g, m);
    CellFits(g, m, n, size);
    smaller := cmp(p[..][r..r + size], p[..][c..c + size]) < 0;
  }

  /** Item `g` of the first `m` of `n` ends where the first `m` end, or before. */
  lemma CellFits(g: nat, m: nat, n: nat, size: nat)
    requires g < m <= n
    ensures g * size + size <= m * size <= n * size
  {
    assert g * size + size == (g + 1) * size;
    MoreCells(g + 1, m, size);
    MoreCells(m, n, size);
  }

  lemma MoreCells(m: nat, n: nat, size: nat)
    requires m <= n
    ensures m * size <= n * size
  {
  }

  /** Swap the items at bytes `r` and `c`. */
  method Exchange(p: array<byte>, r: nat, c: nat, size: nat, ghost n: nat, ghost h: nat, ghost g: nat)
    requires size > 0 && p.Length == n * size && h < g < n && r == h * size && c == g * size
    requires |Cells(p[..], size)| == n
    modifies p
    ensures Cells(p[..], size) == Swap<Cell>(old(Cells(p[..], size)), h, g) && |Cells(p[..], size)| == n
  {
    hide Cells, Exchanged, Swap;
    Ordered(h, g, size);
    Ordered(g, n, size);
    ghost var was := p[..];
    Memswap(p, r, c, size);
    SwappedCells(was, p[..], size, n, h, g);
    SwapIs(Cells(was, size), h, g);
  }

  /** The inner loop: the item at byte `start` sinks into the heap that ends at byte `end`. */
  method SiftDown(p: array<byte>, start: nat, end: nat, size: nat, cmp: (Cell, Cell) -> int,
                  ghost n: nat, ghost k: nat, ghost m: nat)
    requires size > 0 && p.Length == n * size < SIZES / 2 && TotalOrder<Cell>(cmp)
    requires k < m <= n && start == k * size && end == m * size
    requires |Cells(p[..], size)| == n && HeapFrom<Cell>(Cells(p[..], size), cmp, k + 1, m)
    modifies p
    ensures |Cells(p[..], size)| == n && HeapFrom<Cell>(Cells(p[..], size), cmp, k, m)
    ensures multiset(Cells(p[..], size)[..m]) == old(multiset(Cells(p[..], size)[..m]))
    ensures Cells(p[..], size)[m..] == old(Cells(p[..], size)[m..])
  {
    hide Cells, Exchanged, TotalOrder, HeapFrom, Sinking, Swap;
    var r := start;
    ghost var h, s := k, Cells(p[..], size);
    SinkStart<Cell>(s, cmp, k, m);
    Children(h, m, size);
    CellFits(h, m, n, size);
    while 2 * r + size < end
      invariant 2 * r + size < SIZES
      invariant k <= h < m && r == h * size && s == Cells(p[..], size) && |s| == n
      invariant 2 * r + size < end ==> 2 * h + 1 < m
      invariant 2 * h + 1 < m ==> 2 * r + size < end
      invariant Sinking<Cell>(s, cmp, k, h, m)
      invariant multiset(s[..m]) == old(multiset(Cells(p[..], size)[..m]))
      invariant s[m..] == old(Cells(p[..], size)[m..])
      decreases m - h
    {
      var c, smaller;
      ghost var g;
      c, smaller, g := PickChild(p, r, end, size, cmp, n, h, m);
      if !smaller {
        StopAt(s, cmp, h, g, m);
        SinkStop<Cell>(s, cmp, k, h, m);
        return;
      }
      SinkStep<Cell>(s, cmp, k, h, g, m);
      SwapBag<Cell>(s, h, g, m);
      Exchange(p, r, c, size, n, h, g);
      r := c;
      s := Swap<Cell>(s, h, g);
      h := g;
      Children(h, m, size);
      CellFits(h, m, n, size);
    }
    SinkStop<Cell>(s, cmp, k, h, m);
  }

  /** The loop guards on bytes, as guards on items. */
  lemma Children(h: nat, m: nat, size: nat)
    requires size > 0
    ensures 2 * (h * size) + size == (2 * h + 1) * size
    ensures 2 * (h * size) + size < m * size <==> 2 * h + 1 < m
    ensures 2 * (h * size) + size < m * size - size <==> 2 * h + 2 < m
    ensures (2 * h + 2) * size == 2 * (h * size) + size + size
  {
    ChildOffset(h, size);
    Scaled(2 * h + 1, m, size);
    Scaled(2 * h + 2, m, size);
    Scaled(2 * h + 1, m - 1, size);
    Scaled(m - 1, m, size);
  }

  lemma LargerChild(s: seq<Cell>, cmp: (Cell, Cell) -> int, h: nat, g: nat, m: nat)
    requires TotalOrder<Cell>(cmp) && m <= |s| && 2 * h + 1 < m && g < m
    requires g == 2 * h + 1 || g == 2 * h + 2
    requires g == 2 * h + 1 && 2 * h + 2 < m ==> cmp(s[g], s[g + 1]) >= 0
    requires g == 2 * h + 2 ==> cmp(s[g - 1], s[g]) < 0
    ensures Parent(g) == h
    ensures forall j :: 0 < j < m && Parent(j) == h ==> cmp(s[j], s[g]) <= 0
  {
    Flip(cmp, s[g], s[g]);
    forall j | 0 < j < m && Parent(j) == h
      ensures cmp(s[j], s[g]) <= 0
    {
      if j != g && g == 2 * h + 1 {
        Flip(cmp, s[g], s[j]);
      }
    }
  }

  lemma StopAt(s: seq<Cell>, cmp: (Cell, Cell) -> int, h: nat, g: nat, m: nat)
    requires TotalOrder<Cell>(cmp) && h < m <= |s| && g < m && cmp(s[h], s[g]) >= 0
    requires forall j :: 0 < j < m && Parent(j) == h ==> cmp(s[j], s[g]) <= 0
    ensures forall j :: 0 < j < m && Parent(j) == h ==> cmp(s[j], s[h]) <= 0
  {
    Flip(cmp, s[h], s[g]);
    forall j | 0 < j < m && Parent(j) == h
      ensures cmp(s[j], s[h]) <= 0
    {
      Trans(cmp, s[j], s[g], s[h]);
    }
  }

  lemma LongSmall(z: int)
    requires 0 <= z < SIZES / 2
    ensures ToLong(z) == z
  {
  }

  lemma LongNegative(size: nat)
    requires 0 < size < SIZES / 2
    ensures ToLong((SIZES - 1) * size) == -(size as int)
  {
    assert (SIZES - 1) * size == SIZES * (size - 1) + (SIZES - size);
    ModShift(size - 1, SIZES - size);
  }

  lemma ModShift(q: int, r: int)
    requires 0 <= r < SIZES
    ensures (SIZES * q + r) % SIZES == r
  {
  }

  /** The first counter, computed unsigned and read signed: negative when there is no parent at all. */
  lemma FirstParent(n: nat, size: nat)
    requires 0 < size < SIZES / 2 && n * size < SIZES / 2
    ensures ToLong((n / 2 - 1) % SIZES * size) == (n / 2 - 1) * size
  {
    hide ToLong;
    var q := n / 2 - 1;
    if q >= 0 {
      Scaled(q, n, size);
      AtMostScaled(q, size);
      assert q % SIZES == q;
      LongSmall(q * size);
    } else {
      assert q % SIZES == SIZES - 1;
      LongNegative(size);
    }
  }

  lemma AtMostScaled(q: nat, size: nat)
    requires size > 0
    ensures 0 <= q <= q * size
  {
  }

  /**
   `sort`, and with `memcmp` for `cmp` also `mmsort`: for every number of items, 0 and 1 included, every
   item size and every total preorder the items end up ascending and are a permutation of the input.
   */
  method Sort(p: array<byte>, n: nat, size: nat, cmp: (Cell, Cell) -> int)
    requires 0 < size < SIZES / 2 && p.Length == n * size < SIZES / 2 && TotalOrder<Cell>(cmp)
    modifies p
    ensures |Cells(p[..], size)| == n && Ascending<Cell>(Cells(p[..], size), cmp, 0)
    ensures multiset(Cells(p[..], size)) == multiset(old(Cells(p[..], size)))
  {
    hide Cells, Exchanged, TotalOrder, HeapFrom, Swap, Done, ToLong;
    CellsCount(p[..], size, n);
    Heapify(p, n, size, cmp);
    var end := n * size;
    var i := ToLong(end - size);
    LastItem(n, size);
    ghost var t, s := n - 1, Cells(p[..], size);
    assert n > 0 ==> Done<Cell>(s, cmp, t + 1) by {
      if n > 0 {
        NothingDone(s, cmp, n);
      }
    }
    while i > 0
      invariant -1 <= t < n && (n > 0 ==> t >= 0) && i == t * size && s == Cells(p[..], size) && |s| == n
      invariant t >= 0 ==> HeapFrom<Cell>(s, cmp, 0, t + 1) && Done<Cell>(s, cmp, t + 1)
      invariant multiset(s) == multiset(old(Cells(p[..], size)))
      decreases t + 1
    {
      Scaled(0, t, size);
      Scaled(t, n, size);
      Scaled(t - 1, t, size);
      TakeLargest<Cell>(s, cmp, t);
      SwapBag<Cell>(s, 0, t, n);
      ghost var was := p[..];
      Memswap(p, 0, i, size);
      SwappedCells(was, p[..], size, n, 0, t);
      ghost var u := Swap<Cell>(s, 0, t);
      SiftDown(p, 0, i, size, cmp, n, 0, t);
      s := Cells(p[..], size);
      DoneKept<Cell>(u, s, cmp, t);
      PrefixBag(u, s, t);
      i := i - size;
      t := t - 1;
    }
    Scaled(0, t, size);
    if n > 0 {
      DoneAll(s, cmp);
    }
  }

  lemma NothingDone(s: seq<Cell>, cmp: (Cell, Cell) -> int, n: nat)
    requires |s| == n
    ensures Done<Cell>(s, cmp, n)
  {
  }

  lemma DoneAll(s: seq<Cell>, cmp: (Cell, Cell) -> int)
    requires 0 < |s| && Done<Cell>(s, cmp, 1)
    ensures Ascending<Cell>(s, cmp, 0)
  {
    forall i, j | 0 <= i < j < |s|
      ensures cmp(s[i], s[j]) <= 0
    {
    }
  }

  lemma PrefixBag(u: seq<Cell>, s: seq<Cell>, t: nat)
    requires t <= |u| == |s| && multiset(u[..t]) == multiset(s[..t]) && u[t..] == s[t..]
    ensures multiset(u) == multiset(s)
  {
    assert u == u[..t] + u[t..] && s == s[..t] + s[t..];
  }

  /** The second counter starts at the last item, or below zero if there is none. */
  lemma LastItem(n: nat, size: nat)
    requires 0 < size < SIZES / 2 && n * size < SIZES / 2
    ensures ToLong(n * size - size) == (n - 1) * size
  {
    Scaled(n - 1, n, size);
    if n > 0 {
      Scaled(0, n, size);
    }
  }

  /** The first loop: every item from the last parent down to the first sinks. */
  method Heapify(p: array<byte>, n: nat, size: nat, cmp: (Cell, Cell) -> int)
    requires 0 < size < SIZES / 2 && p.Length == n * size < SIZES / 2 && TotalOrder<Cell>(cmp)
    requires |Cells(p[..], size)| == n
    modifies p
    ensures |Cells(p[..], size)| == n && HeapFrom<Cell>(Cells(p[..], size), cmp, 0, n)
    ensures multiset(Cells(p[..], size)) == multiset(old(Cells(p[..], size)))
  {
    hide Cells, Exchanged, TotalOrder, Swap, Sinking, ToLong;
    var i := ToLong((n / 2 - 1) % SIZES * size);
    FirstParent(n, size);
    ghost var k, s := n / 2 - 1, Cells(p[..], size);
    while i >= 0
      invariant -1 <= k < n / 2 && i == k * size && s == Cells(p[..], size) && |s| == n
      invariant HeapFrom<Cell>(s, cmp, k + 1, n)
      invariant multiset(s) == multiset(old(Cells(p[..], size)))
      decreases k + 1
    {
      Scaled(k, 0, size);
      Scaled(k - 1, k, size);
      SiftDown(p, i, n * size, size, cmp, n, k, n);
      assert s[..n] == s && Cells(p[..], size)[..n] == Cells(p[..], size);
      s := Cells(p[..], size);
      i := i - size;
      k := k - 1;
    }
    Scaled(-1, k, size);
  }

  /** `mmsort`: the same loops over `memcmp`. */
  method MmSort(p: array<byte>, n: nat, size: nat)
    requires 0 < size < SIZES / 2 && p.Length == n * size < SIZES / 2
    modifies p
    ensures |Cells(p[..], size)| == n && Ascending<Cell>(Cells(p[..], size), Memcmp, 0)
    ensures multiset(Cells(p[..], size)) == multiset(old(Cells(p[..], size)))
    ensures forall t :: multiset(t) == multiset(old(Cells(p[..], size))) && Ascending<Cell>(t, Memcmp, 0) ==>
      t == Cells(p[..], size)
    ensures AscendingBytes(Cells(p[..], size))
  {
    hide Cells, Memcmp, AscendingBytes;
    MemcmpOrder();
    CellsCount(p[..], size, n);
    Sort(p, n, size, Memcmp);
    ghost var s := Cells(p[..], size);
    CellSizes(p[..], size, n);
    AscendingIs(s, size);
    forall t | multiset(t) == multiset(s) && Ascending<Cell>(t, Memcmp, 0)
      ensures t == s
    {
      OneAscending(t, s, size);
    }
  }

  lemma CellSizes(b: seq<byte>, size: nat, n: nat)
    requires size > 0 && |b| == n * size
    ensures forall i :: 0 <= i < |Cells(b, size)| ==> |Cells(b, size)[i]| == size
  {
    hide Cells;
    CellsCount(b, size, n);
    forall i | 0 <= i < |Cells(b, size)|
      ensures |Cells(b, size)[i]| == size
    {
      CellsAt(b, size, n, i);
    }
  }

  /** Items of one size have one ascending order: under `memcmp` no two different items are equal. */
  lemma {:induction false} OneAscending(s: seq<Cell>, t: seq<Cell>, size: nat)
    requires multiset(s) == multiset(t) && Ascending<Cell>(s, Memcmp, 0) && Ascending<Cell>(t, Memcmp, 0)
    requires forall i :: 0 <= i < |t| ==> |t[i]| == size
    ensures s == t
  {
    hide Memcmp, Ascending;
    SameCount(s, t);
    if s != [] {
      HeadsAgree(s, t, size);
      TailBag(s);
      TailBag(t);
      AscendingTail(s);
      AscendingTail(t);
      OneAscending(s[1..], t[1..], size);
      assert s == [s[0]] + s[1..] && t == [t[0]] + t[1..];
    }
  }

  lemma SameCount(s: seq<Cell>, t: seq<Cell>)
    requires multiset(s) == multiset(t)
    ensures |s| == |t|
  {
    assert |s| == |multiset(s)| && |t| == |multiset(t)|;
  }

  lemma TailBag(s: seq<Cell>)
    requires s != []
    ensures multiset(s[1..]) == multiset(s) - multiset{s[0]}
  {
    assert s == [s[0]] + s[1..];
  }

  lemma AscendingTail(s: seq<Cell>)
    requires s != [] && Ascending<Cell>(s, Memcmp, 0)
    ensures Ascending<Cell>(s[1..], Memcmp, 0)
  {
    hide Memcmp;
    assert forall i :: 0 <= i < |s| - 1 ==> s[1..][i] == s[i + 1];
  }

  /** Both start with the least item. */
  lemma HeadsAgree(s: seq<Cell>, t: seq<Cell>, size: nat)
    requires s != [] && t != [] && multiset(s) == multiset(t) && Ascending<Cell>(s, Memcmp, 0)
    requires Ascending<Cell>(t, Memcmp, 0)
    requires forall i :: 0 <= i < |t| ==> |t[i]| == size
    ensures s[0] == t[0]
  {
    hide Memcmp, Ascending;
    assert s[0] in multiset(t) && t[0] in multiset(s);
    var i :| 0 <= i < |t| && t[i] == s[0];
    var j :| 0 <= j < |s| && s[j] == t[0];
    LeastFirst(s, j);
    LeastFirst(t, i);
    MemcmpFlip(s[0], t[0]);
    MemcmpZero(s[0], t[0]);
  }

  lemma LeastFirst(s: seq<Cell>, j: nat)
    requires Ascending<Cell>(s, Memcmp, 0) && j < |s|
    ensures Memcmp(s[0], s[j]) <= 0
  {
    if j == 0 {
      MemcmpFlip(s[0], s[0]);
    }
  }
}
