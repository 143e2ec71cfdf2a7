/** The bounded merge of two sorted buffers (sort-utils/merge.c), item by item and with a bulk-copied tail. */
module Merge {
  import opened Arithmetic
  import opened Bytes
  import opened Orders
  import opened Memory
  import opened HeapSort
  import Copy = PageBytes

  /** Which item of which input. */
  datatype Tag = A(i: nat) | B(j: nat)

  /** The order in which the items of `a[i..]` and `b[j..]` come out. */
  function Order(a: seq<Cell>, b: seq<Cell>, cmp: (Cell, Cell) -> int, i: nat, j: nat): (r: seq<Tag>)
    requires i <= |a| && j <= |b|
    ensures |r| == |a| - i + |b| - j
    decreases |a| - i + |b| - j
  {
    if i < |a| && (j == |b| || cmp(a[i], b[j]) < 0) then [A(i)] + Order(a, b, cmp, i + 1, j)
    else if j < |b| then [B(j)] + Order(a, b, cmp, i, j + 1)
    else []
  }

  predicate Legal(a: seq<Cell>, b: seq<Cell>, t: Tag) {
    match t case A(i) => i < |a| case B(j) => j < |b|
  }

  function Item(a: seq<Cell>, b: seq<Cell>, t: Tag): Cell
    requires Legal(a, b, t)
  {
    match t case A(i) => a[i] case B(j) => b[j]
  }

  ghost predicate SortedCells(s: seq<Cell>, cmp: (Cell, Cell) -> int) {
    forall i, j :: 0 <= i < j < |s| ==> cmp(s[i], s[j]) <= 0
  }

  // -------------------------------------------------------------------------
  // What the order is

  /** `t` has to come out before `u`: smaller, or equal and from `b`, or equal and earlier in the same input. */
  ghost predicate Before(a: seq<Cell>, b: seq<Cell>, cmp: (Cell, Cell) -> int, t: Tag, u: Tag)
    requires Legal(a, b, t) && Legal(a, b, u)
  {
    cmp(Item(a, b, t), Item(a, b, u)) < 0 ||
    (cmp(Item(a, b, t), Item(a, b, u)) == 0 &&
     match (t, u)
     case (A(i), A(i')) => i < i'
     case (B(j), B(j')) => j < j'
     case (B(_), A(_)) => true
     case (A(_), B(_)) => false)
  }

  /** Every item not yet taken comes out, and no other. */
  lemma {:induction false} OrderTakes(a: seq<Cell>, b: seq<Cell>, cmp: (Cell, Cell) -> int, i: nat, j: nat, t: Tag)
    requires i <= |a| && j <= |b|
    ensures t in Order(a, b, cmp, i, j) <==> Legal(a, b, t) && (match t case A(x) => i <= x case B(y) => j <= y)
    decreases |a| - i + |b| - j
  {
    hide Order;
    OrderStep(a, b, cmp, i, j, t);
    if i < |a| && (j == |b| || cmp(a[i], b[j]) < 0) {
      OrderTakes(a, b, cmp, i + 1, j, t);
    } else if j < |b| {
      OrderTakes(a, b, cmp, i, j + 1, t);
    }
  }

  lemma OrderStep(a: seq<Cell>, b: seq<Cell>, cmp: (Cell, Cell) -> int, i: nat, j: nat, t: Tag)
    requires i <= |a| && j <= |b|
    ensures t in Order(a, b, cmp, i, j) <==>
      if i < |a| && (j == |b| || cmp(a[i], b[j]) < 0) then t == A(i) || t in Order(a, b, cmp, i + 1, j)
      else j < |b| && (t == B(j) || t in Order(a, b, cmp, i, j + 1))
  {
  }

  /** The item taken first comes before every other one. */
  lemma HeadBefore(a: seq<Cell>, b: seq<Cell>, cmp: (Cell, Cell) -> int, i: nat, j: nat, u: Tag)
    requires TotalOrder<Cell>(cmp) && SortedCells(a, cmp) && SortedCells(b, cmp) && i <= |a| && j <= |b|
    requires Order(a, b, cmp, i, j) != [] && u in Order(a, b, cmp, i, j)[1..]
    ensures var t := Order(a, b, cmp, i, j)[0]; Legal(a, b, t) && Legal(a, b, u) && Before(a, b, cmp, t, u)
  {
    hide TotalOrder, Order, SortedCells, Before;
    OrderHead(a, b, cmp, i, j);
    if i < |a| && (j == |b| || cmp(a[i], b[j]) < 0) {
      OrderTakes(a, b, cmp, i + 1, j, u);
      TakenFromA(a, b, cmp, i, j, u);
    } else {
      OrderTakes(a, b, cmp, i, j + 1, u);
      TakenFromB(a, b, cmp, i, j, u);
    }
  }

  lemma OrderHead(a: seq<Cell>, b: seq<Cell>, cmp: (Cell, Cell) -> int, i: nat, j: nat)
    requires i <= |a| && j <= |b| && Order(a, b, cmp, i, j) != []
    ensures if i < |a| && (j == |b| || cmp(a[i], b[j]) < 0)
      then Order(a, b, cmp, i, j)[0] == A(i) && Order(a, b, cmp, i, j)[1..] == Order(a, b, cmp, i + 1, j)
      else j < |b| && Order(a, b, cmp, i, j)[0] == B(j) && Order(a, b, cmp, i, j)[1..] == Order(a, b, cmp, i, j + 1)
  {
  }

  lemma TakenFromA(a: seq<Cell>, b: seq<Cell>, cmp: (Cell, Cell) -> int, i: nat, j: nat, u: Tag)
    requires TotalOrder<Cell>(cmp) && SortedCells(a, cmp) && SortedCells(b, cmp) && i < |a| && j <= |b|
    requires j == |b| || cmp(a[i], b[j]) < 0
    requires Legal(a, b, u) && match u case A(x) => i < x case B(y) => j <= y
    ensures Before(a, b, cmp, A(i), u)
  {
    hide TotalOrder;
    if u.B? && u.j > j {
      StrictTrans<Cell>(cmp, a[i], b[j], b[u.j]);
    }
  }

  lemma TakenFromB(a: seq<Cell>, b: seq<Cell>, cmp: (Cell, Cell) -> int, i: nat, j: nat, u: Tag)
    requires TotalOrder<Cell>(cmp) && SortedCells(a, cmp) && SortedCells(b, cmp) && i <= |a| && j < |b|
    requires i == |a| || cmp(a[i], b[j]) >= 0
    requires Legal(a, b, u) && match u case A(x) => i <= x case B(y) => j < y
    ensures Before(a, b, cmp, B(j), u)
  {
    hide TotalOrder;
    if u.A? {
      Flip<Cell>(cmp, a[i], b[j]);
      if u.i > i {
        Trans<Cell>(cmp, b[j], a[i], a[u.i]);
      }
    }
  }

  /**
   For sorted inputs the output order is the one and only order by value, ties from `b` first, and by
   position within one input; it is a strict order, so no item comes out twice.
   */
  lemma {:induction false} OrderIsStable(a: seq<Cell>, b: seq<Cell>, cmp: (Cell, Cell) -> int, i: nat, j: nat, x: nat,
                                         y: nat)
    requires TotalOrder<Cell>(cmp) && SortedCells(a, cmp) && SortedCells(b, cmp) && i <= |a| && j <= |b|
    requires x < y < |Order(a, b, cmp, i, j)|
    ensures var o := Order(a, b, cmp, i, j);
      Legal(a, b, o[x]) && Legal(a, b, o[y]) && Before(a, b, cmp, o[x], o[y])
    decreases |a| - i + |b| - j
  {
    hide TotalOrder, SortedCells, Before, Order;
    var o := Order(a, b, cmp, i, j);
    OrderHead(a, b, cmp, i, j);
    assert o[y] == o[1..][y - 1];
    if x == 0 {
      HeadBefore(a, b, cmp, i, j, o[y]);
    } else {
      assert o[x] == o[1..][x - 1];
      if i < |a| && (j == |b| || cmp(a[i], b[j]) < 0) {
        OrderIsStable(a, b, cmp, i + 1, j, x - 1, y - 1);
      } else {
        OrderIsStable(a, b, cmp, i, j + 1, x - 1, y - 1);
      }
    }
  }

  // -------------------------------------------------------------------------
  // The output buffer

  /** The bytes of the first `k` items in the order `o`. */
  ghost function Out(a: seq<Cell>, b: seq<Cell>, o: seq<Tag>, k: nat): seq<byte>
    requires k <= |o|
  {
    if k == 0 then [] else Out(a, b, o, k - 1) + if Legal(a, b, o[k - 1]) then Item(a, b, o[k - 1]) else []
  }

  /** What is still to come after `k` items, of which `i` were from `a` and `j` from `b`. */
  ghost predicate Ahead(a: seq<Cell>, b: seq<Cell>, cmp: (Cell, Cell) -> int, o: seq<Tag>, i: nat, j: nat) {
    i <= |a| && j <= |b| && i + j <= |o| && o[i + j..] == Order(a, b, cmp, i, j)
  }

  lemma TakeA(a: seq<Cell>, b: seq<Cell>, cmp: (Cell, Cell) -> int, o: seq<Tag>, i: nat, j: nat)
    requires Ahead(a, b, cmp, o, i, j) && i < |a| && (j == |b| || cmp(a[i], b[j]) < 0)
    ensures Ahead(a, b, cmp, o, i + 1, j) && Out(a, b, o, i + j + 1) == Out(a, b, o, i + j) + a[i]
  {
    assert o[i + j] == o[i + j..][0] == A(i);
    assert o[i + j + 1..] == o[i + j..][1..];
  }

  lemma TakeB(a: seq<Cell>, b: seq<Cell>, cmp: (Cell, Cell) -> int, o: seq<Tag>, i: nat, j: nat)
    requires Ahead(a, b, cmp, o, i, j) && j < |b| && (i == |a| || cmp(a[i], b[j]) >= 0)
    ensures Ahead(a, b, cmp, o, i, j + 1) && Out(a, b, o, i + j + 1) == Out(a, b, o, i + j) + b[j]
  {
    assert o[i + j] == o[i + j..][0] == B(j);
    assert o[i + j + 1..] == o[i + j..][1..];
  }

  /** The state of the output while `k` items have been written. */
  ghost predicate Written(r: seq<byte>, was: seq<byte>, out: seq<byte>) {
    |r| == |was| && |out| <= |r| && r[..|out|] == out && r[|out|..] == was[|out|..]
  }

  lemma WriteMore(r: seq<byte>, was: seq<byte>, out: seq<byte>, x: seq<byte>)
    requires Written(r, was, out) && |out| + |x| <= |r|
    ensures Written(Copy.Patch(r, |out|, x), was, out + x)
  {
    var r' := Copy.Patch(r, |out|, x);
    assert r'[..|out + x|] == out + x;
    forall w | |out + x| <= w < |r|
      ensures r'[w] == was[w]
    {
      assert r'[w] == r[w] == r[|out|..][w - |out|];
    }
  }

  /** One turn of a merge loop: the item at byte `at` of `src` goes to the output. */
  method PutCell(r: array<byte>, ri: nat, src: seq<byte>, at: nat, size: nat, ghost was: seq<byte>,
                 ghost out: seq<byte>)
    requires at + size <= |src| && ri + size <= r.Length && ri == |out| && Written(r[..], was, out)
    modifies r
    ensures Written(r[..], was, out + src[at..at + size])
  {
    hide Written;
    ghost var before := r[..];
    Copy.CopyIn(r, ri, src[at..at + size]);
    WriteMore(before, was, out, src[at..at + size]);
  }

  /** The positions and the output of a merge after `i` items of `a` and `j` items of `b`. */
  ghost predicate Stage(r: seq<byte>, was: seq<byte>, x: seq<Cell>, y: seq<Cell>, cmp: (Cell, Cell) -> int, o: seq<Tag>,
                        rs: nat, size: nat, i: nat, j: nat, ai: int, bi: int, ri: int)
  {
    i <= |x| && j <= |y| && i + j <= rs && o == Order(x, y, cmp, 0, 0) && |r| == rs * size &&
    ai == i * size && bi == j * size && ri == (i + j) * size &&
    Ahead(x, y, cmp, o, i, j) && Written(r, was, Out(x, y, o, i + j)) && |Out(x, y, o, i + j)| == ri
  }

  /** The byte guards of the loops, as guards on items. */
  lemma Guards(r: seq<byte>, was: seq<byte>, x: seq<Cell>, y: seq<Cell>, cmp: (Cell, Cell) -> int, o: seq<Tag>,
               rs: nat, size: nat, i: nat, j: nat, ai: int, bi: int, ri: int)
    requires Stage(r, was, x, y, cmp, o, rs, size, i, j, ai, bi, ri) && size > 0
    ensures i <= |x| && j <= |y| && i + j <= rs && ai >= 0 && bi >= 0 && ri >= 0
    ensures ai < |x| * size <==> i < |x|
    ensures bi < |y| * size <==> j < |y|
    ensures ri < |r| <==> i + j < rs
  {
    hide Order, Out, Written, Ahead;
    Scaled(i, |x|, size);
    Scaled(j, |y|, size);
    Scaled(i + j, rs, size);
  }

  /** Copy the next item of `a`. */
  method StepA(r: array<byte>, ri: nat, a: seq<byte>, ai: nat, size: nat, ghost was: seq<byte>, ghost x: seq<Cell>,
               ghost y: seq<Cell>,
               ghost cmp: (Cell, Cell) -> int, ghost o: seq<Tag>, ghost rs: nat, ghost i: nat, ghost j: nat,
                 ghost bi: int)
    requires size > 0 && |a| == |x| * size && x == Cells(a, size)
    requires Stage(r[..], was, x, y, cmp, o, rs, size, i, j, ai, bi, ri)
    requires i < |x| && i + j < rs && (j == |y| || cmp(x[i], y[j]) < 0)
    modifies r
    ensures Stage(r[..], was, x, y, cmp, o, rs, size, i + 1, j, ai + size, bi, ri + size)
  {
    hide Cells, Order, Out, Written, Ahead;
    Scaled(i + j, rs, size);
    Scaled(i, i + 1, size);
    CellsAt(a, size, |x|, i);
    PutCell(r, ri, a, ai, size, was, Out(x, y, o, i + j));
    TakeA(x, y, cmp, o, i, j);
  }

  /** Copy the next item of `b`. */
  method StepB(r: array<byte>, ri: nat, b: seq<byte>, bi: nat, size: nat, ghost was: seq<byte>, ghost x: seq<Cell>,
               ghost y: seq<Cell>,
               ghost cmp: (Cell, Cell) -> int, ghost o: seq<Tag>, ghost rs: nat, ghost i: nat, ghost j: nat,
                 ghost ai: int)
    requires size > 0 && |b| == |y| * size && y == Cells(b, size)
    requires Stage(r[..], was, x, y, cmp, o, rs, size, i, j, ai, bi, ri)
    requires j < |y| && i + j < rs && (i == |x| || cmp(x[i], y[j]) >= 0)
    modifies r
    ensures Stage(r[..], was, x, y, cmp, o, rs, size, i, j + 1, ai, bi + size, ri + size)
  {
    hide Cells, Order, Out, Written, Ahead;
    Scaled(i + j, rs, size);
    Scaled(j, j + 1, size);
    CellsAt(b, size, |y|, j);
    PutCell(r, ri, b, bi, size, was, Out(x, y, o, i + j));
    TakeB(x, y, cmp, o, i, j);
  }

  /** The loop that both functions start with: while both inputs and the output last. */
  method MergeLoop(r: array<byte>, rs: nat, a: seq<byte>, b: seq<byte>, size: nat, cmp: (Cell, Cell) -> int,
                   ghost x: seq<Cell>, ghost y: seq<Cell>, ghost o: seq<Tag>)
    returns (ai: nat, bi: nat, ri: nat, ghost i: nat, ghost j: nat)
    requires size > 0 && |a| == |x| * size && |b| == |y| * size && r.Length == rs * size
    requires x == Cells(a, size) && y == Cells(b, size) && o == Order(x, y, cmp, 0, 0)
    modifies r
    ensures Stage(r[..], old(r[..]), x, y, cmp, o, rs, size, i, j, ai, bi, ri)
    ensures i == |x| || j == |y| || i + j == rs
  {
    hide Cells, Order, Stage;
    ai, bi, ri, i, j := 0, 0, 0, 0, 0;
    StartOut(r[..], x, y, cmp, o, rs, size);
    Guards(r[..], old(r[..]), x, y, cmp, o, rs, size, i, j, ai, bi, ri);
    while ai < |a| && bi < |b| && ri < r.Length
      invariant Stage(r[..], old(r[..]), x, y, cmp, o, rs, size, i, j, ai, bi, ri)
      invariant i <= |x| && j <= |y| && i + j <= rs
      invariant (ai < |a| <==> i < |x|) && (bi < |b| <==> j < |y|) && (ri < r.Length <==> i + j < rs)
      decreases |x| + |y| - i - j
    {
      CellsAt(a, size, |x|, i);
      CellsAt(b, size, |y|, j);
      PositionsOf(r[..], old(r[..]), x, y, cmp, o, rs, size, i, j, ai, bi, ri);
      if cmp(a[ai..ai + size], b[bi..bi + size]) < 0 {
        StepA(r, ri, a, ai, size, old(r[..]), x, y, cmp, o, rs, i, j, bi);
        ai, i := ai + size, i + 1;
      } else {
        StepB(r, ri, b, bi, size, old(r[..]), x, y, cmp, o, rs, i, j, ai);
        bi, j := bi + size, j + 1;
      }
      ri := ri + size;
      Guards(r[..], old(r[..]), x, y, cmp, o, rs, size, i, j, ai, bi, ri);
    }
  }

  lemma PositionsOf(r: seq<byte>, was: seq<byte>, x: seq<Cell>, y: seq<Cell>, cmp: (Cell, Cell) -> int, o: seq<Tag>,
                    rs: nat, size: nat, i: nat, j: nat, ai: int, bi: int, ri: int)
    requires Stage(r, was, x, y, cmp, o, rs, size, i, j, ai, bi, ri)
    ensures ai == i * size && bi == j * size
  {
  }

  lemma StartOut(r: seq<byte>, x: seq<Cell>, y: seq<Cell>, cmp: (Cell, Cell) -> int, o: seq<Tag>, rs: nat, size: nat)
    requires o == Order(x, y, cmp, 0, 0) && |r| == rs * size
    ensures Stage(r, r, x, y, cmp, o, rs, size, 0, 0, 0, 0, 0)
  {
    assert o[0..] == o;
  }

  /** What a merge leaves in `r`: the first items of the order, as many as there are or fit, and the rest as it was. */
  ghost predicate Result(r: seq<byte>, was: seq<byte>, rs: nat, a: seq<byte>, b: seq<byte>, size: nat,
                         cmp: (Cell, Cell) -> int)
    requires size > 0
  {
    var x, y := Cells(a, size), Cells(b, size);
    Written(r, was, Out(x, y, Order(x, y, cmp, 0, 0), Min(rs, |x| + |y|)))
  }

  /** There is only one such buffer: two merges with this result wrote the same bytes. */
  lemma ResultIsUnique(r: seq<byte>, r': seq<byte>, was: seq<byte>, rs: nat, a: seq<byte>, b: seq<byte>, size: nat,
                       cmp: (Cell, Cell) -> int)
    requires size > 0 && Result(r, was, rs, a, b, size, cmp) && Result(r', was, rs, a, b, size, cmp)
    ensures r == r'
  {
    var x, y := Cells(a, size), Cells(b, size);
    var out := Out(x, y, Order(x, y, cmp, 0, 0), Min(rs, |x| + |y|));
    assert r == r[..|out|] + r[|out|..];
    assert r' == r'[..|out|] + r'[|out|..];
  }

  lemma Finish(r: seq<byte>, was: seq<byte>, rs: nat, a: seq<byte>, b: seq<byte>, size: nat, cmp: (Cell, Cell) -> int,
               i: nat, j: nat, ai: int, bi: int, ri: int)
    requires size > 0
    requires var x, y := Cells(a, size), Cells(b, size);
      && Stage(r, was, x, y, cmp, Order(x, y, cmp, 0, 0), rs, size, i, j, ai, bi, ri)
      && (i + j == rs || i + j == |x| + |y|)
    ensures Result(r, was, rs, a, b, size, cmp)
  {
    hide Cells, Order, Out, Written, Ahead;
  }

  /** `merge` */
  method MergeItems(r: array<byte>, rs: nat, a: seq<byte>, an: nat, b: seq<byte>, bn: nat, size: nat,
                    cmp: (Cell, Cell) -> int)
    requires size > 0 && |a| == an * size && |b| == bn * size && r.Length == rs * size
    modifies r
    ensures Result(r[..], old(r[..]), rs, a, b, size, cmp)
  {
    hide Cells, Order, Stage, Result;
    CellsCount(a, size, an);
    CellsCount(b, size, bn);
    ghost var x, y := Cells(a, size), Cells(b, size);
    ghost var o := Order(x, y, cmp, 0, 0);
    var ai: nat, bi: nat, ri: nat;
    ghost var i, j;
    ai, bi, ri, i, j := MergeLoop(r, rs, a, b, size, cmp, x, y, o);
    Guards(r[..], old(r[..]), x, y, cmp, o, rs, size, i, j, ai, bi, ri);
    while ai < |a| && ri < r.Length
      invariant Stage(r[..], old(r[..]), x, y, cmp, o, rs, size, i, j, ai, bi, ri)
      invariant i <= an && j <= bn && i + j <= rs && (i == an || j == bn || i + j == rs)
      invariant (ai < |a| <==> i < an) && (bi < |b| <==> j < bn) && (ri < r.Length <==> i + j < rs)
      decreases an - i
    {
      StepA(r, ri, a, ai, size, old(r[..]), x, y, cmp, o, rs, i, j, bi);
      ri, ai, i := ri + size, ai + size, i + 1;
      Guards(r[..], old(r[..]), x, y, cmp, o, rs, size, i, j, ai, bi, ri);
    }
    while bi < |b| && ri < r.Length
      invariant Stage(r[..], old(r[..]), x, y, cmp, o, rs, size, i, j, ai, bi, ri)
      invariant i <= an && j <= bn && i + j <= rs && (i == an || i + j == rs)
      invariant (bi < |b| <==> j < bn) && (ri < r.Length <==> i + j < rs)
      decreases bn - j
    {
      StepB(r, ri, b, bi, size, old(r[..]), x, y, cmp, o, rs, i, j, ai);
      ri, bi, j := ri + size, bi + size, j + 1;
      Guards(r[..], old(r[..]), x, y, cmp, o, rs, size, i, j, ai, bi, ri);
    }
    Finish(r[..], old(r[..]), rs, a, b, size, cmp, i, j, ai, bi, ri);
  }

  // -------------------------------------------------------------------------
  // What a merge means

  ghost function ItemsOf(a: seq<Cell>, b: seq<Cell>, o: seq<Tag>): (r: seq<Cell>)
    ensures |r| == |o|
  {
    seq(|o|, k requires 0 <= k < |o| => if Legal(a, b, o[k]) then Item(a, b, o[k]) else [])
  }

  lemma ItemsCons(a: seq<Cell>, b: seq<Cell>, o: seq<Tag>)
    requires o != [] && Legal(a, b, o[0])
    ensures ItemsOf(a, b, o) == [Item(a, b, o[0])] + ItemsOf(a, b, o[1..])
  {
  }

  lemma DropBag(s: seq<Cell>, i: nat)
    requires i < |s|
    ensures multiset(s[i..]) == multiset{s[i]} + multiset(s[i + 1..])
  {
    assert s[i..] == [s[i]] + s[i + 1..];
  }

  /** The items that come out are those of both inputs, each as often. */
  lemma {:induction false} ItemsBag(a: seq<Cell>, b: seq<Cell>, cmp: (Cell, Cell) -> int, i: nat, j: nat)
    requires i <= |a| && j <= |b|
    ensures multiset(ItemsOf(a, b, Order(a, b, cmp, i, j))) == multiset(a[i..]) + multiset(b[j..])
    decreases |a| - i + |b| - j
  {
    hide Order, ItemsOf;
    var o := Order(a, b, cmp, i, j);
    if o != [] {
      OrderHead(a, b, cmp, i, j);
      ItemsCons(a, b, o);
      if i < |a| && (j == |b| || cmp(a[i], b[j]) < 0) {
        ItemsBag(a, b, cmp, i + 1, j);
        DropBag(a, i);
      } else {
        ItemsBag(a, b, cmp, i, j + 1);
        DropBag(b, j);
      }
    } else {
      assert ItemsOf(a, b, o) == [] && a[i..] == [] && b[j..] == [];
    }
  }

  /** Sorted inputs come out sorted. */
  lemma ItemsSorted(a: seq<Cell>, b: seq<Cell>, cmp: (Cell, Cell) -> int)
    requires TotalOrder<Cell>(cmp) && SortedCells(a, cmp) && SortedCells(b, cmp)
    ensures SortedCells(ItemsOf(a, b, Order(a, b, cmp, 0, 0)), cmp)
  {
    hide TotalOrder, Order;
    var o := Order(a, b, cmp, 0, 0);
    var s := ItemsOf(a, b, o);
    forall x, y | 0 <= x < y < |s|
      ensures cmp(s[x], s[y]) <= 0
    {
      OrderIsStable(a, b, cmp, 0, 0, x, y);
    }
  }

  /** The bytes of the output, item by item. */
  lemma {:induction false} OutAt(a: seq<Cell>, b: seq<Cell>, o: seq<Tag>, size: nat, k: nat, q: nat)
    requires size > 0 && k <= |o| && forall x :: 0 <= x < |o| ==> |ItemsOf(a, b, o)[x]| == size
    ensures |Out(a, b, o, k)| == k * size
    ensures q < k ==>
      0 <= q * size && q * size + size <= k * size && Out(a, b, o, k)[q * size..q * size + size] == ItemsOf(a, b, o)[q]
  {
    if k > 0 {
      OutAt(a, b, o, size, k - 1, q);
      OutStep(a, b, o, size, k, q);
    }
  }

  lemma OutStep(a: seq<Cell>, b: seq<Cell>, o: seq<Tag>, size: nat, k: nat, q: nat)
    requires size > 0 && 0 < k <= |o| && |ItemsOf(a, b, o)[k - 1]| == size && |Out(a, b, o, k - 1)| == (k - 1) * size
    requires q < k - 1 ==>
      0 <= q * size && q * size + size <= (k - 1) * size &&
      Out(a, b, o, k - 1)[q * size..q * size + size] == ItemsOf(a, b, o)[q]
    ensures |Out(a, b, o, k)| == k * size
    ensures q < k ==>
      0 <= q * size && q * size + size <= k * size && Out(a, b, o, k)[q * size..q * size + size] == ItemsOf(a, b, o)[q]
  {
    Scaled(k - 1, k, size);
    Scaled(q, k, size);
    Product(q, size);
    var before, last := Out(a, b, o, k - 1), ItemsOf(a, b, o)[k - 1];
    assert Out(a, b, o, k) == before + last;
    if q == k - 1 {
      LastPiece(before, last);
    } else if q < k - 1 {
      EarlierPiece(before, last, q * size, q * size + size);
    }
  }

  lemma LastPiece(s: seq<byte>, t: seq<byte>)
    ensures (s + t)[|s|..|s| + |t|] == t
  {
  }

  lemma EarlierPiece(s: seq<byte>, t: seq<byte>, i: nat, k: nat)
    requires i <= k <= |s|
    ensures (s + t)[i..k] == s[i..k]
  {
  }

  lemma CountOf(b: seq<byte>, size: nat, n: nat)
    requires size > 0 && Whole(b, size, n)
    ensures |Cells(b, size)| == n
  {
    hide Cells;
    CellsCount(b, size, n);
  }

  lemma SizesOf(b: seq<byte>, size: nat, n: nat)
    requires size > 0 && Whole(b, size, n)
    ensures forall i :: 0 <= i < |Cells(b, size)| ==> |Cells(b, size)[i]| == size
  {
    hide Cells;
    CellSizes(b, size, n);
  }

  /** The items of the output are the first ones in the order. */
  lemma ResultItems(r: seq<byte>, was: seq<byte>, rs: nat, a: seq<byte>, an: nat, b: seq<byte>, bn: nat, size: nat,
                    cmp: (Cell, Cell) -> int)
    requires size > 0 && Whole(a, size, an) && Whole(b, size, bn) && Whole(r, size, rs)
    requires Result(r, was, rs, a, b, size, cmp)
    ensures var x, y, m := Cells(a, size), Cells(b, size), Min(rs, an + bn);
      && |Cells(r, size)| == rs && |x| == an && |y| == bn
      && Cells(r, size)[..m] == ItemsOf(x, y, Order(x, y, cmp, 0, 0))[..m]
  {
    hide Cells, Order, ItemsOf, Out, Written, Result, Whole;
    ResultIs(r, was, rs, a, b, size, cmp);
    SizesOf(a, size, an);
    SizesOf(b, size, bn);
    var x, y, m := Cells(a, size), Cells(b, size), Min(rs, an + bn);
    CountOf(a, size, an);
    CountOf(b, size, bn);
    CountOf(r, size, rs);
    var o := Order(x, y, cmp, 0, 0);
    var s := ItemsOf(x, y, o);
    ItemSizes(x, y, cmp, o, size);
    forall q | 0 <= q < m
      ensures Cells(r, size)[q] == s[q]
    {
      ResultItem(r, was, rs, x, y, o, size, m, q);
    }
  }

  lemma ResultIs(r: seq<byte>, was: seq<byte>, rs: nat, a: seq<byte>, b: seq<byte>, size: nat,
                 cmp: (Cell, Cell) -> int)
    requires size > 0 && Result(r, was, rs, a, b, size, cmp)
    ensures var x, y := Cells(a, size), Cells(b, size);
      Written(r, was, Out(x, y, Order(x, y, cmp, 0, 0), Min(rs, |x| + |y|)))
  {
  }

  lemma ResultItem(r: seq<byte>, was: seq<byte>, rs: nat, x: seq<Cell>, y: seq<Cell>, o: seq<Tag>, size: nat, m: nat,
                   q: nat)
    requires size > 0 && Whole(r, size, rs) && q < m <= |o| && m <= rs && Written(r, was, Out(x, y, o, m))
    requires forall k :: 0 <= k < |o| ==> |ItemsOf(x, y, o)[k]| == size
    ensures |Cells(r, size)| == rs && Cells(r, size)[q] == ItemsOf(x, y, o)[q]
  {
    hide Cells, ItemsOf, Out;
    OutAt(x, y, o, size, m, q);
    CellsAt(r, size, rs, q);
    Prefixed(r, Out(x, y, o, m), q * size, q * size + size);
  }

  lemma Prefixed(r: seq<byte>, out: seq<byte>, i: nat, k: nat)
    requires i <= k <= |out| <= |r| && r[..|out|] == out
    ensures out[i..k] == r[i..k]
  {
  }

  lemma ItemSizes(x: seq<Cell>, y: seq<Cell>, cmp: (Cell, Cell) -> int, o: seq<Tag>, size: nat)
    requires (forall i :: 0 <= i < |x| ==> |x[i]| == size) && forall i :: 0 <= i < |y| ==> |y[i]| == size
    requires o == Order(x, y, cmp, 0, 0)
    ensures forall k :: 0 <= k < |o| ==> |ItemsOf(x, y, o)[k]| == size
  {
    hide Order;
    forall k | 0 <= k < |o|
      ensures |ItemsOf(x, y, o)[k]| == size
    {
      OrderTakes(x, y, cmp, 0, 0, o[k]);
    }
  }

  /**
   `out` is the sorted merge of `x` and `y` as far as it goes: with some `rest` it has the items of both, each as
   often, and `out` followed by `rest` is ascending.
   */
  ghost predicate Merged(out: seq<Cell>, x: seq<Cell>, y: seq<Cell>, cmp: (Cell, Cell) -> int) {
    exists rest :: multiset(out + rest) == multiset(x) + multiset(y) && SortedCells(out + rest, cmp)
  }

  /** For sorted inputs a merge writes the smallest items of both, in ascending order, as many as fit. */
  lemma MergeIsSorted(r: seq<byte>, was: seq<byte>, rs: nat, a: seq<byte>, an: nat, b: seq<byte>, bn: nat, size: nat,
                      cmp: (Cell, Cell) -> int)
    requires size > 0 && Whole(a, size, an) && Whole(b, size, bn) && Whole(r, size, rs)
    requires Result(r, was, rs, a, b, size, cmp) && TotalOrder<Cell>(cmp)
    requires SortedCells(Cells(a, size), cmp) && SortedCells(Cells(b, size), cmp)
    ensures |Cells(r, size)| == rs
    ensures Merged(Cells(r, size)[..Min(rs, an + bn)], Cells(a, size), Cells(b, size), cmp)
  {
    hide Cells, Order, ItemsOf, SortedCells, TotalOrder, Result, Whole;
    var x, y, m := Cells(a, size), Cells(b, size), Min(rs, an + bn);
    CountOf(a, size, an);
    CountOf(b, size, bn);
    var s := ItemsOf(x, y, Order(x, y, cmp, 0, 0));
    ResultItems(r, was, rs, a, an, b, bn, size, cmp);
    ItemsBag(x, y, cmp, 0, 0);
    ItemsSorted(x, y, cmp);
    assert x[0..] == x && y[0..] == y && s[..m] + s[m..] == s;
    assert multiset(s[..m] + s[m..]) == multiset(x) + multiset(y) && SortedCells(s[..m] + s[m..], cmp);
  }

  // -------------------------------------------------------------------------
  // The bulk-copied tail

  /** Taking the rest of `a` item by item is taking its bytes in one piece. */
  lemma {:induction false} TailA(a: seq<byte>, x: seq<Cell>, y: seq<Cell>, cmp: (Cell, Cell) -> int, o: seq<Tag>,
                                 size: nat, i: nat, q: nat)
    requires size > 0 && |a| == |x| * size && x == Cells(a, size)
    requires i + q <= |x| && Ahead(x, y, cmp, o, i, |y|)
    ensures Ahead(x, y, cmp, o, i + q, |y|)
    ensures Out(x, y, o, i + q + |y|) == Out(x, y, o, i + |y|) + Slice(a, i * size, (i + q) * size)
    decreases q
  {
    hide Cells, Order, Out, Ahead, Slice;
    AheadBound(x, y, cmp, o, i, |y|);
    if q > 0 {
      TailA(a, x, y, cmp, o, size, i, q - 1);
      var k := i + q - 1;
      TakeA(x, y, cmp, o, k, |y|);
      AheadBound(x, y, cmp, o, k + 1, |y|);
      NextCell(Out(x, y, o, i + |y|), a, x, size, i, k);
    } else {
      NoSlice(Out(x, y, o, i + |y|), a, i * size);
    }
  }

  /** `s[i..k]`, or nothing where that makes no sense. */
  ghost function Slice(s: seq<byte>, i: int, k: int): seq<byte> {
    if 0 <= i <= k <= |s| then s[i..k] else []
  }

  lemma NoSlice(out: seq<byte>, a: seq<byte>, i: int)
    ensures out + Slice(a, i, i) == out
  {
  }

  lemma NextCell(out: seq<byte>, a: seq<byte>, x: seq<Cell>, size: nat, i: nat, k: nat)
    requires size > 0 && |a| == |x| * size && x == Cells(a, size) && i <= k < |x|
    ensures out + Slice(a, i * size, k * size) + x[k] == out + Slice(a, i * size, (k + 1) * size)
  {
    hide Cells;
    CellsAt(a, size, |x|, k);
    Distances(i, k, size);
    Distances(k, k + 1, size);
    Distances(k + 1, |x|, size);
    SliceMore(out, a, i * size, k * size, (k + 1) * size);
  }

  lemma AheadBound(x: seq<Cell>, y: seq<Cell>, cmp: (Cell, Cell) -> int, o: seq<Tag>, i: nat, j: nat)
    requires Ahead(x, y, cmp, o, i, j)
    ensures i <= |x| && j <= |y| && i + j <= |o|
  {
  }

  lemma SliceMore(out: seq<byte>, a: seq<byte>, i: nat, k: nat, l: nat)
    requires i <= k <= l <= |a|
    ensures out + a[i..k] + a[k..l] == out + a[i..l]
  {
    assert a[i..k] + a[k..l] == a[i..l];
  }

  /** The same for `b`. */
  lemma {:induction false} TailB(b: seq<byte>, x: seq<Cell>, y: seq<Cell>, cmp: (Cell, Cell) -> int, o: seq<Tag>,
                                 size: nat, j: nat, q: nat)
    requires size > 0 && |b| == |y| * size && y == Cells(b, size)
    requires j + q <= |y| && Ahead(x, y, cmp, o, |x|, j)
    ensures Ahead(x, y, cmp, o, |x|, j + q)
    ensures Out(x, y, o, |x| + j + q) == Out(x, y, o, |x| + j) + Slice(b, j * size, (j + q) * size)
    decreases q
  {
    hide Cells, Order, Out, Ahead, Slice;
    AheadBound(x, y, cmp, o, |x|, j);
    if q > 0 {
      TailB(b, x, y, cmp, o, size, j, q - 1);
      var k := j + q - 1;
      TakeB(x, y, cmp, o, |x|, k);
      AheadBound(x, y, cmp, o, |x|, k + 1);
      NextCell(Out(x, y, o, |x| + j), b, y, size, j, k);
    } else {
      NoSlice(Out(x, y, o, |x| + j), b, j * size);
    }
  }

  lemma MinScaled(p: nat, q: nat, size: nat)
    requires size > 0
    ensures Min(p * size, q * size) == Min(p, q) * size
  {
    Scaled(p, q, size);
    Scaled(q, p, size);
  }

  /** Bulk copy of what is left of `a`, as far as it fits. */
  method BulkA(r: array<byte>, ri: nat, a: seq<byte>, ai: nat, size: nat, ghost was: seq<byte>, ghost x: seq<Cell>,
               ghost y: seq<Cell>,
               ghost cmp: (Cell, Cell) -> int, ghost o: seq<Tag>, ghost rs: nat, ghost i: nat, ghost bi: int)
    returns (n: nat, ghost q: nat)
    requires size > 0 && |a| == |x| * size && x == Cells(a, size)
    requires Stage(r[..], was, x, y, cmp, o, rs, size, i, |y|, ai, bi, ri)
    modifies r
    ensures q == Min(|x| - i, rs - i - |y|)
    ensures Stage(r[..], was, x, y, cmp, o, rs, size, i + q, |y|, ai + n, bi, ri + n)
  {
    hide Cells, Order, Out, Written, Ahead;
    Distances(i, |x|, size);
    Distances(i + |y|, rs, size);
    n := Min(|a| - ai, r.Length - ri);
    q := Min(|x| - i, rs - i - |y|);
    MinScaled(|x| - i, rs - i - |y|, size);
    Distances(i, i + q, size);
    Distances(i + |y|, i + q + |y|, size);
    TailA(a, x, y, cmp, o, size, i, q);
    PutCell(r, ri, a, ai, n, was, Out(x, y, o, i + |y|));
  }

  lemma Distances(i: nat, k: nat, size: nat)
    requires i <= k
    ensures k * size - i * size == (k - i) * size >= 0
  {
  }

  method BulkB(r: array<byte>, ri: nat, b: seq<byte>, bi: nat, size: nat, ghost was: seq<byte>, ghost x: seq<Cell>,
               ghost y: seq<Cell>,
               ghost cmp: (Cell, Cell) -> int, ghost o: seq<Tag>, ghost rs: nat, ghost j: nat, ghost ai: int)
    returns (n: nat, ghost q: nat)
    requires size > 0 && |b| == |y| * size && y == Cells(b, size)
    requires Stage(r[..], was, x, y, cmp, o, rs, size, |x|, j, ai, bi, ri)
    modifies r
    ensures q == Min(|y| - j, rs - |x| - j)
    ensures Stage(r[..], was, x, y, cmp, o, rs, size, |x|, j + q, ai, bi + n, ri + n)
  {
    hide Cells, Order, Out, Written, Ahead;
    Distances(j, |y|, size);
    Distances(|x| + j, rs, size);
    n := Min(|b| - bi, r.Length - ri);
    q := Min(|y| - j, rs - |x| - j);
    MinScaled(|y| - j, rs - |x| - j, size);
    Distances(j, j + q, size);
    Distances(|x| + j, |x| + j + q, size);
    TailB(b, x, y, cmp, o, size, j, q);
    PutCell(r, ri, b, bi, n, was, Out(x, y, o, |x| + j));
  }

  /** The same for the order of bytes. */
  ghost predicate MergedBytes(out: seq<Cell>, x: seq<Cell>, y: seq<Cell>) {
    exists rest :: multiset(out + rest) == multiset(x) + multiset(y) && AscendingBytes(out + rest)
  }

  lemma BagSizes(s: seq<Cell>, x: seq<Cell>, y: seq<Cell>, size: nat)
    requires multiset(s) == multiset(x) + multiset(y)
    requires (forall i :: 0 <= i < |x| ==> |x[i]| == size) && forall i :: 0 <= i < |y| ==> |y[i]| == size
    ensures forall i :: 0 <= i < |s| ==> |s[i]| == size
  {
    forall i | 0 <= i < |s|
      ensures |s[i]| == size
    {
      assert s[i] in multiset(s);
    }
  }

  lemma MergesBytes(r: seq<byte>, was: seq<byte>, rs: nat, a: seq<byte>, an: nat, b: seq<byte>, bn: nat, size: nat)
    requires size > 0 && Whole(a, size, an) && Whole(b, size, bn) && Whole(r, size, rs)
    requires Result(r, was, rs, a, b, size, Memcmp)
    requires AscendingBytes(Cells(a, size)) && AscendingBytes(Cells(b, size))
    ensures |Cells(r, size)| == rs
    ensures MergedBytes(Cells(r, size)[..Min(rs, an + bn)], Cells(a, size), Cells(b, size))
  {
    hide Cells, Result, AscendingBytes, Memcmp, Whole;
    MemcmpOrder();
    var x, y := Cells(a, size), Cells(b, size);
    SizesOf(a, size, an);
    SizesOf(b, size, bn);
    AscendingIs(x, size);
    AscendingIs(y, size);
    MergeIsSorted(r, was, rs, a, an, b, bn, size, Memcmp);
    var out := Cells(r, size)[..Min(rs, an + bn)];
    var rest :| multiset(out + rest) == multiset(x) + multiset(y) && SortedCells(out + rest, Memcmp);
    BagSizes(out + rest, x, y, size);
    AscendingIs(out + rest, size);
  }

  /** `mmmerge`: the same result as `merge` under `memcmp`, byte for byte. */
  method MmMerge(r: array<byte>, rs: nat, a: seq<byte>, an: nat, b: seq<byte>, bn: nat, size: nat)
    requires size > 0 && |a| == an * size && |b| == bn * size && r.Length == rs * size
    modifies r
    ensures Result(r[..], old(r[..]), rs, a, b, size, Memcmp)
    ensures |Cells(r[..], size)| == rs
    ensures AscendingBytes(Cells(a, size)) && AscendingBytes(Cells(b, size)) ==>
      MergedBytes(Cells(r[..], size)[..Min(rs, an + bn)], Cells(a, size), Cells(b, size))
  {
    hide Cells, Order, Stage, Result, MergedBytes, AscendingBytes;
    CellsCount(a, size, an);
    CellsCount(b, size, bn);
    ghost var x, y := Cells(a, size), Cells(b, size);
    ghost var o := Order(x, y, Memcmp, 0, 0);
    var ai: nat, bi: nat, ri: nat;
    ghost var i, j;
    ai, bi, ri, i, j := MergeLoop(r, rs, a, b, size, Memcmp, x, y, o);
    Guards(r[..], old(r[..]), x, y, Memcmp, o, rs, size, i, j, ai, bi, ri);
    if ai < |a| && ri < r.Length {
      var n;
      ghost var q;
      n, q := BulkA(r, ri, a, ai, size, old(r[..]), x, y, Memcmp, o, rs, i, bi);
      ri, ai, i := ri + n, ai + n, i + q;
      Guards(r[..], old(r[..]), x, y, Memcmp, o, rs, size, i, j, ai, bi, ri);
    }
    if bi < |b| && ri < r.Length {
      var n;
      ghost var q;
      n, q := BulkB(r, ri, b, bi, size, old(r[..]), x, y, Memcmp, o, rs, j, ai);
      ri, bi, j := ri + n, bi + n, j + q;
      Guards(r[..], old(r[..]), x, y, Memcmp, o, rs, size, i, j, ai, bi, ri);
    }
    Finish(r[..], old(r[..]), rs, a, b, size, Memcmp, i, j, ai, bi, ri);
    CellsCount(r[..], size, rs);
    if AscendingBytes(x) && AscendingBytes(y) {
      MergesBytes(r[..], old(r[..]), rs, a, an, b, bn, size);
    }
  }
}
