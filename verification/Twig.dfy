/**
 Twig pages of the B-tree (btree/btree.c): a row of keys and a row of disk pointers in one block of bytes,
 and a row of in-memory pointers beside it, which belong together by position.
 */
module Twigs {
  import opened Arithmetic
  import opened Bytes
  import opened PageBytes

  const NULL: nat := 0
  const DISK_REF: nat := 16

  // -------------------------------------------------------------------------
  // Rows

  /** `n` slots from `at` on, moved up by one; slot `at` keeps what it had. */
  function Shifted<T>(s: seq<T>, at: nat, n: nat): (r: seq<T>)
    requires at + n < |s|
    ensures |r| == |s|
  {
    s[..at + 1] + s[at..at + n] + s[at + n + 1..]
  }

  method ShiftUp<T>(a: array<T>, at: nat, n: nat)
    requires at + n < a.Length
    modifies a
    ensures a[..] == Shifted(old(a[..]), at, n)
  {
    var k := n;
    while k > 0
      invariant 0 <= k <= n
      invariant forall i :: 0 <= i < a.Length ==> a[i] == if at + k < i <= at + n then old(a[i - 1]) else old(a[i])
    {
      k := k - 1;
      a[at + k + 1] := a[at + k];
    }
  }

  /** The first slots of `a` become `s`. */
  method CopyTo<T>(a: array<T>, s: seq<T>)
    requires |s| <= a.Length
    modifies a
    ensures a[..] == s + old(a[..])[|s|..]
  {
    for k := 0 to |s|
      invariant forall i :: 0 <= i < a.Length ==> a[i] == if i < k then s[i] else old(a[i])
    {
      a[k] := s[k];
    }
  }

  method ClearFrom(a: array<nat>, from: nat, n: nat)
    requires from + n <= a.Length
    modifies a
    ensures a[..] == old(a[..])[..from] + seq(n, _ => NULL) + old(a[..])[from + n..]
  {
    for k := 0 to n
      invariant forall i :: 0 <= i < a.Length ==> a[i] == if from <= i < from + k then NULL else old(a[i])
    {
      a[from + k] := NULL;
    }
  }

  /** `x` put in at `at` among the first `n`. */
  function Inserted<T>(s: seq<T>, n: nat, at: nat, x: T): (r: seq<T>)
    requires at <= n <= |s|
    ensures |r| == n + 1
  {
    s[..at] + [x] + s[at..n]
  }

  lemma ShiftedRow<T>(s: seq<T>, n: nat, at: nat, x: T)
    requires at <= n < |s|
    ensures Shifted(s, at, n - at)[at := x][..n + 1] == Inserted(s, n, at, x)
    ensures Shifted(s, at, n - at)[..n + 1] == Inserted(s, n, at, s[at])
    ensures Shifted(s, at, n - at)[n + 1..] == s[n + 1..]
  {
  }

  /** A row cut in two, the upper part at the start of another row. */
  lemma CutRow<T>(s: seq<T>, d: seq<T>, m: nat, r: nat)
    requires m + r <= |s| == |d|
    ensures var d' := s[m..m + r] + d[r..]; |d'| == |d| && s[..m] + d'[..r] == s[..m + r] && d'[r..] == d[r..]
  {
  }

  lemma ClearedRow(s: seq<nat>, m: nat, r: nat)
    requires m + r <= |s| && forall i :: m + r <= i < |s| ==> s[i] == NULL
    ensures var s' := s[..m] + seq(r, _ => NULL) + s[m + r..];
      |s'| == |s| && s' == s[..m] + seq(|s| - m, _ => NULL) && s'[..m] == s[..m]
  {
  }

  /** A row that is null from `m` on, slot by slot. */
  lemma NullRows(s: seq<nat>, m: nat)
    requires m <= |s|
    ensures (forall i :: m <= i < |s| ==> s[i] == NULL) <==> s[m..] == seq(|s| - m, _ => NULL)
  {
    assert forall i :: m <= i < |s| ==> s[i] == s[m..][i - m];
  }

  // -------------------------------------------------------------------------
  // Rows of slots in a block of bytes

  type Slot = seq<byte>

  /** Slot `k` of a row of slots of `w` bytes that starts at `base`. */
  ghost function SlotAt(d: seq<byte>, base: nat, w: nat, k: nat): Slot {
    if 0 <= k * w && base + k * w + w <= |d| then d[base + k * w..base + k * w + w] else []
  }

  ghost function Row(d: seq<byte>, base: nat, w: nat, n: nat): (r: seq<Slot>)
    ensures |r| == n && forall k :: 0 <= k < n ==> r[k] == SlotAt(d, base, w, k)
  {
    seq(n, k requires 0 <= k < n => SlotAt(d, base, w, k))
  }

  /** Slot `k` of `n` lies within the row. */
  lemma SlotFits(k: nat, n: nat, w: nat)
    requires k < n
    ensures 0 <= k * w && k * w + w <= n * w
  {
    Difference(n, k, w);
    AtLeastOnce(n - k, w);
    Product(k, w);
  }

  lemma RangeFits(i: nat, c: nat, n: nat, w: nat)
    requires i + c <= n
    ensures 0 <= i * w && (i + c) * w == i * w + c * w && i * w + c * w <= n * w && 0 <= c * w
  {
    Difference(n, i + c, w);
    Product(n - (i + c), w);
    Product(i, w);
    Product(c, w);
  }

  /** A slot depends on the bytes of its row only. */
  lemma SlotFrame(d: seq<byte>, d': seq<byte>, base: nat, w: nat, n: nat, k: nat)
    requires base + n * w <= |d| == |d'| && d[base..base + n * w] == d'[base..base + n * w] && k < n
    ensures SlotAt(d', base, w, k) == SlotAt(d, base, w, k)
  {
    SlotFits(k, n, w);
    SliceOf(d, base, n * w, k * w, w);
    SliceOf(d', base, n * w, k * w, w);
  }

  /** A row depends on its own bytes only. */
  lemma RowFrame(d: seq<byte>, d': seq<byte>, base: nat, w: nat, n: nat)
    requires base + n * w <= |d| == |d'| && d[base..base + n * w] == d'[base..base + n * w]
    ensures Row(d', base, w, n) == Row(d, base, w, n)
  {
    hide SlotAt;
    forall k | 0 <= k < n
      ensures SlotAt(d', base, w, k) == SlotAt(d, base, w, k)
    {
      SlotFrame(d, d', base, w, n, k);
    }
  }

  /** Bytes in whole slots written over a row, from slot `i` on. */
  lemma PatchSlot(d: seq<byte>, base: nat, w: nat, n: nat, i: nat, c: nat, bytes: seq<byte>, k: nat)
    requires base + n * w <= |d| && i + c <= n && |bytes| == c * w && k < n && base + i * w + |bytes| <= |d|
    requires 0 <= i * w
    ensures SlotAt(Patch(d, base + i * w, bytes), base, w, k) ==
      if i <= k < i + c then SlotAt(bytes, 0, w, k - i) else SlotAt(d, base, w, k)
  {
    SlotFits(k, n, w);
    if k < i {
      SlotFits(k, i, w);
      PatchOutside(d, base + i * w, bytes, base + k * w, w);
    } else if k < i + c {
      SlotFits(k - i, c, w);
      Difference(k, i, w);
      PatchInside(d, base + i * w, bytes, (k - i) * w, w);
    } else {
      RangeFits(i, c, n, w);
      Difference(k, i + c, w);
      Product(k - (i + c), w);
      PatchOutside(d, base + i * w, bytes, base + k * w, w);
    }
  }

  lemma PatchOutside(d: seq<byte>, at: nat, bytes: seq<byte>, x: nat, w: nat)
    requires at + |bytes| <= |d| && x + w <= |d| && (x + w <= at || at + |bytes| <= x)
    ensures Patch(d, at, bytes)[x..x + w] == d[x..x + w]
  {
  }

  lemma PatchInside(d: seq<byte>, at: nat, bytes: seq<byte>, x: nat, w: nat)
    requires at + |bytes| <= |d| && x + w <= |bytes|
    ensures Patch(d, at, bytes)[at + x..at + x + w] == bytes[x..x + w]
  {
    var p := Patch(d, at, bytes);
    assert forall j :: 0 <= j < |bytes| ==> p[at + j] == bytes[j];
  }

  /** The slots of a range of a row. */
  lemma SlotOfRange(d: seq<byte>, base: nat, w: nat, n: nat, i: nat, c: nat, k: nat)
    requires base + n * w <= |d| && i + c <= n && k < c && 0 <= i * w && 0 <= c * w && base + i * w + c * w <= |d|
    ensures SlotAt(d[base + i * w..base + i * w + c * w], 0, w, k) == SlotAt(d, base, w, i + k)
  {
    SlotFits(k, c, w);
    SlotFits(i + k, n, w);
    Difference(i + k, i, w);
    SliceOf(d, base + i * w, c * w, k * w, w);
  }

  /** What a method may have changed: one row of the block. */
  ghost predicate OnlyRow(d: seq<byte>, d': seq<byte>, base: nat, size: nat) {
    |d'| == |d| && forall x :: 0 <= x < |d| && !(base <= x < base + size) ==> d'[x] == d[x]
  }

  lemma PatchOnly(d: seq<byte>, at: nat, bytes: seq<byte>, base: nat, size: nat)
    requires at + |bytes| <= |d| && base <= at && at + |bytes| <= base + size
    ensures OnlyRow(d, Patch(d, at, bytes), base, size)
  {
  }

  lemma OnlyElsewhere(d: seq<byte>, d': seq<byte>, base: nat, size: nat, other: nat, w: nat, n: nat)
    requires OnlyRow(d, d', base, size) && other + n * w <= |d| && (other + n * w <= base || base + size <= other)
    ensures Row(d', other, w, n) == Row(d, other, w, n)
  {
    assert d[other..other + n * w] == d'[other..other + n * w];
    RowFrame(d, d', other, w, n);
  }

  /** memmove of `c` slots from slot `at` on, up by one. */
  method MoveSlots(data: array<byte>, base: nat, w: nat, n: nat, at: nat, c: nat)
    requires base + n * w <= data.Length && at + c < n
    modifies data
    ensures Row(data[..], base, w, n) == Shifted(old(Row(data[..], base, w, n)), at, c)
    ensures OnlyRow(old(data[..]), data[..], base, n * w)
  {
    hide Row, SlotAt, Patch, OnlyRow;
    ghost var d := data[..];
    RangeFits(at, c, n, w);
    RangeFits(at + 1, c, n, w);
    ghost var bytes := d[base + at * w..base + at * w + c * w];
    Move(data, base + (at + 1) * w, base + at * w, c * w);
    MovedRow(d, base, w, n, at, c, bytes);
    PatchOnly(d, base + (at + 1) * w, bytes, base, n * w);
  }

  lemma MovedRow(d: seq<byte>, base: nat, w: nat, n: nat, at: nat, c: nat, bytes: seq<byte>)
    requires base + n * w <= |d| && at + c < n && 0 <= at * w && 0 <= c * w && base + at * w + c * w <= |d|
    requires bytes == d[base + at * w..base + at * w + c * w] && 0 <= (at + 1) * w && base + (at + 1) * w + c * w <= |d|
    ensures Row(Patch(d, base + (at + 1) * w, bytes), base, w, n) == Shifted(Row(d, base, w, n), at, c)
  {
    hide Patch, SlotAt;
    var d' := Patch(d, base + (at + 1) * w, bytes);
    var r, s := Row(d', base, w, n), Shifted(Row(d, base, w, n), at, c);
    forall k | 0 <= k < n
      ensures r[k] == s[k]
    {
      PatchSlot(d, base, w, n, at + 1, c, bytes, k);
      if at + 1 <= k < at + 1 + c {
        SlotOfRange(d, base, w, n, at, c, k - (at + 1));
      }
    }
  }

  /** memcpy of one slot. */
  method PutSlot(data: array<byte>, base: nat, w: nat, n: nat, at: nat, bytes: Slot)
    requires base + n * w <= data.Length && at < n && |bytes| == w
    modifies data
    ensures Row(data[..], base, w, n) == old(Row(data[..], base, w, n))[at := bytes]
    ensures OnlyRow(old(data[..]), data[..], base, n * w)
  {
    hide Row, SlotAt, Patch, OnlyRow;
    ghost var d := data[..];
    SlotFits(at, n, w);
    CopyIn(data, base + at * w, bytes);
    PutRow(d, base, w, n, at, bytes);
    PatchOnly(d, base + at * w, bytes, base, n * w);
  }

  lemma PutRow(d: seq<byte>, base: nat, w: nat, n: nat, at: nat, bytes: Slot)
    requires base + n * w <= |d| && at < n && |bytes| == w && 0 <= at * w && base + at * w + w <= |d|
    ensures Row(Patch(d, base + at * w, bytes), base, w, n) == Row(d, base, w, n)[at := bytes]
  {
    hide Patch;
    var d' := Patch(d, base + at * w, bytes);
    var r, s := Row(d', base, w, n), Row(d, base, w, n)[at := bytes];
    assert 1 * w == w && 0 * w == 0;
    assert bytes[0..w] == bytes;
    forall k | 0 <= k < n
      ensures r[k] == s[k]
    {
      PatchSlot(d, base, w, n, at, 1, bytes, k);
    }
  }

  /** memcpy of `r` slots from slot `m` on to the start of the same row of another block. */
  method CopySlots(src: array<byte>, dst: array<byte>, base: nat, w: nat, n: nat, m: nat, r: nat)
    requires src != dst && base + n * w <= src.Length == dst.Length && m + r <= n
    modifies dst
    ensures Row(dst[..], base, w, n) == Row(src[..], base, w, n)[m..m + r] + old(Row(dst[..], base, w, n))[r..]
    ensures OnlyRow(old(dst[..]), dst[..], base, n * w)
  {
    hide Row, SlotAt, Patch, OnlyRow;
    ghost var d, s := dst[..], src[..];
    RangeFits(m, r, n, w);
    RangeFits(0, r, n, w);
    CopyIn(dst, base, src[..][base + m * w..base + m * w + r * w]);
    CopiedRow(s, d, base, w, n, m, r);
    PatchOnly(d, base, s[base + m * w..base + m * w + r * w], base, n * w);
  }

  lemma CopiedRow(s: seq<byte>, d: seq<byte>, base: nat, w: nat, n: nat, m: nat, r: nat)
    requires base + n * w <= |s| == |d| && m + r <= n && 0 <= m * w && 0 <= r * w && base + m * w + r * w <= |s|
    requires base + r * w <= |d|
    ensures Row(Patch(d, base, s[base + m * w..base + m * w + r * w]), base, w, n) ==
            Row(s, base, w, n)[m..m + r] + Row(d, base, w, n)[r..]
  {
    hide Patch, SlotAt;
    var bytes := s[base + m * w..base + m * w + r * w];
    assert 0 * w == 0;
    var x, y := Row(Patch(d, base, bytes), base, w, n), Row(s, base, w, n)[m..m + r] + Row(d, base, w, n)[r..];
    forall k | 0 <= k < n
      ensures x[k] == y[k]
    {
      PatchSlot(d, base, w, n, 0, r, bytes, k);
      if k < r {
        SlotOfRange(s, base, w, n, m, r, k);
      }
    }
  }

  // -------------------------------------------------------------------------
  // The page

  /** The sizes of a tree: bytes per block and per key. */
  datatype Layout = Layout(block: nat, prefix: nat) {
    function Space(): int { block - NODE_HEAD }

    function Needed(): nat { prefix + DISK_REF }

    /** `sb_fanout` */
    function Fanout(): nat { if Space() < 0 then 0 else Space() / Needed() }

    /** Where the row of disk pointers starts. */
    function Pointers(): nat { NODE_HEAD + Fanout() * prefix }

    /** The bytes that both rows take, behind the header. */
    function Rows(): nat { Fanout() * prefix + Fanout() * DISK_REF }
  }

  /** The header, the row of keys and the row of disk pointers lie side by side within the block. */
  lemma RowsFit(l: Layout)
    requires NODE_HEAD <= l.block
    ensures NODE_HEAD + l.Fanout() * l.prefix == l.Pointers()
    ensures l.Pointers() + l.Fanout() * DISK_REF <= l.block && l.Fanout() * l.Needed() <= l.Space()
  {
    var f := l.Fanout();
    Share(l.Space(), l.Needed());
    assert f * (l.prefix + DISK_REF) == f * l.prefix + f * DISK_REF;
  }

  lemma Share(x: nat, y: nat)
    requires y > 0
    ensures x / y * y <= x
  {
  }

  class Twig {
    const layout: Layout
    const data: array<byte>
    const nodes: array<nat>
    var items: nat
    var free: int

    ghost function Keys(): (r: seq<Slot>)
      reads data
      ensures |r| == layout.Fanout()
    {
      Row(data[..], NODE_HEAD, layout.prefix, layout.Fanout())
    }

    ghost function Disk(): (r: seq<Slot>)
      reads data
      ensures |r| == layout.Fanout()
    {
      Row(data[..], layout.Pointers(), DISK_REF, layout.Fanout())
    }

    ghost predicate Sized() {
      NODE_HEAD <= layout.block == data.Length && nodes.Length == layout.Fanout()
    }

    /** Whatever lies behind the items has no in-memory node, and `nh_free` is what the entries leave. */
    ghost predicate Valid()
      reads this, nodes
    {
      && Sized() && items <= layout.Fanout()
      && free == layout.Space() - items * layout.Needed()
      && forall i :: items <= i < nodes.Length ==> nodes[i] == NULL
    }

    /** An empty page. */
    constructor (layout: Layout)
      requires NODE_HEAD <= layout.block
      ensures Valid() && items == 0 && this.layout == layout && fresh(data) && fresh(nodes)
    {
      this.layout := layout;
      data := new byte[layout.block](_ => 0);
      nodes := new nat[layout.Fanout()](_ => NULL);
      items, free := 0, layout.Space();
    }

    /** Room for one slot at `index` of a row, and `bytes` in it. */
    method InsertSlot(base: nat, w: nat, index: nat, bytes: Slot)
      requires Sized() && items < layout.Fanout() && index <= items && |bytes| == w
      requires base + layout.Fanout() * w <= data.Length
      modifies data
      ensures Row(data[..], base, w, layout.Fanout())[..items + 1] ==
        Inserted(old(Row(data[..], base, w, layout.Fanout())), items, index, bytes)
      ensures OnlyRow(old(data[..]), data[..], base, layout.Fanout() * w)
    {
      hide Shifted, Inserted, Row, OnlyRow;
      ghost var d := data[..];
      var n := layout.Fanout();
      ShiftedRow(Row(d, base, w, n), items, index, bytes);
      MoveSlots(data, base, w, n, index, items - index);
      ghost var e := data[..];
      PutSlot(data, base, w, n, index, bytes);
      OnlyTwice(d, e, data[..], base, n * w);
    }

    /**
     `__twig_insert`: key and disk pointer go in at the same place. The in-memory pointers move up with
     them, but none is stored: slot `index` keeps the one it had.
     */
    method Insert(index: nat, key: Slot, value: Slot)
      requires Valid() && index <= items < layout.Fanout() && |key| == layout.prefix && |value| == DISK_REF
      modifies this, data, nodes
      ensures Valid() && items == old(items) + 1
      ensures Keys()[..items] == old(Keys())[..index] + [key] + old(Keys())[index..old(items)]
      ensures Disk()[..items] == old(Disk())[..index] + [value] + old(Disk())[index..old(items)]
      ensures nodes[..items] == old(nodes[..index] + [nodes[index]] + nodes[index..items])
      ensures OnlyRow(old(data[..]), data[..], NODE_HEAD, layout.Rows())
    {
      hide Shifted, Inserted, Row, OnlyRow;
      RowsFit(layout);
      ghost var n := layout.Fanout();
      ghost var d := data[..];
      InsertSlot(NODE_HEAD, layout.prefix, index, key);
      ghost var e := data[..];
      OnlyElsewhere(d, e, NODE_HEAD, n * layout.prefix, layout.Pointers(), DISK_REF, n);
      InsertSlot(layout.Pointers(), DISK_REF, index, value);
      OnlyElsewhere(e, data[..], layout.Pointers(), n * DISK_REF, NODE_HEAD, layout.prefix, n);
      ShiftedRow(nodes[..], items, index, NULL);
      ShiftUp(nodes, index, items - index);
      OneMoreEntry(items, layout.Needed());
      OnlyBoth(d, e, data[..], layout);
      InsertedIs(old(Keys()), items, index, key);
      InsertedIs(old(Disk()), items, index, value);
      InsertedIs(old(nodes[..]), items, index, old(nodes[index]));
      free := free - layout.Needed();
      items := items + 1;
    }

    ghost predicate Apart(right: Twig)
    {
      right != this && right.data != data && right.nodes != nodes && right.layout == layout
    }

    /** `__twig_split`: the three rows are cut at the same place. */
    method Split(right: Twig)
      requires Valid() && right.Valid() && right.items == 0 && Apart(right)
      modifies this, nodes, right, right.data, right.nodes
      ensures Valid() && right.Valid() && items == old(items) / 2 && items + right.items == old(items)
      ensures Keys()[..items] + right.Keys()[..right.items] == old(Keys()[..items])
      ensures Disk()[..items] + right.Disk()[..right.items] == old(Disk()[..items])
      ensures nodes[..items] + right.nodes[..right.items] == old(nodes[..items])
      ensures nodes[..] == old(nodes[..])[..items] + seq(layout.Fanout() - items, _ => NULL)
      ensures data[..] == old(data[..]) && OnlyRow(old(right.data[..]), right.data[..], NODE_HEAD, layout.Rows())
    {
      hide Row, OnlyRow;
      var m := items / 2;
      var r := items - m;
      SplitBytes(right, m, r);
      SplitNodes(right, m, r);
      right.items, right.free := r, layout.Space() - r * layout.Needed();
      items, free := m, layout.Space() - m * layout.Needed();
      NullRows(nodes[..], m);
      NullRows(right.nodes[..], r);
    }

    /** The copies of keys and disk pointers: `r` slots from `m` on. */
    method SplitBytes(right: Twig, m: nat, r: nat)
      requires Sized() && right.Sized() && Apart(right) && m + r <= layout.Fanout()
      modifies right.data
      ensures Keys()[..m] + right.Keys()[..r] == Keys()[..m + r]
      ensures Disk()[..m] + right.Disk()[..r] == Disk()[..m + r]
      ensures OnlyRow(old(right.data[..]), right.data[..], NODE_HEAD, layout.Rows())
    {
      hide Row, OnlyRow;
      RowsFit(layout);
      var n := layout.Fanout();
      CutRow(Keys(), right.Keys(), m, r);
      CutRow(Disk(), right.Disk(), m, r);
      ghost var d := right.data[..];
      CopySlots(data, right.data, NODE_HEAD, layout.prefix, n, m, r);
      ghost var e := right.data[..];
      OnlyElsewhere(d, e, NODE_HEAD, n * layout.prefix, layout.Pointers(), DISK_REF, n);
      CopySlots(data, right.data, layout.Pointers(), DISK_REF, n, m, r);
      OnlyElsewhere(e, right.data[..], layout.Pointers(), n * DISK_REF, NODE_HEAD, layout.prefix, n);
      OnlyBoth(d, e, right.data[..], layout);
    }

    /** The in-memory pointers go over and are cleared here. */
    method SplitNodes(right: Twig, m: nat, r: nat)
      requires Sized() && right.Sized() && Apart(right) && m + r <= layout.Fanout()
      requires forall i :: m + r <= i < nodes.Length ==> nodes[i] == NULL
      requires forall i :: 0 <= i < right.nodes.Length ==> right.nodes[i] == NULL
      modifies nodes, right.nodes
      ensures nodes[..m] + right.nodes[..r] == old(nodes[..m + r])
      ensures nodes[..] == old(nodes[..])[..m] + seq(layout.Fanout() - m, _ => NULL)
      ensures right.nodes[r..] == seq(layout.Fanout() - r, _ => NULL)
    {
      CutRow(nodes[..], right.nodes[..], m, r);
      ClearedRow(nodes[..], m, r);
      NullRows(right.nodes[..], r);
      CopyTo(right.nodes, nodes[..][m..m + r]);
      ClearFrom(nodes, m, r);
    }

    /** An entry behind the last one. */
    method AppendEntry(key: Slot, value: Slot)
      requires Valid() && items < layout.Fanout() && |key| == layout.prefix && |value| == DISK_REF
      modifies this, data, nodes
      ensures Valid() && items == old(items) + 1 && nodes[..] == old(nodes[..])
      ensures Keys()[..items] == old(Keys()[..items]) + [key] && Disk()[..items] == old(Disk()[..items]) + [value]
      ensures OnlyRow(old(data[..]), data[..], NODE_HEAD, layout.Rows())
    {
      hide Row, OnlyRow;
      ghost var ks, ds, ns, n := Keys(), Disk(), nodes[..], items;
      Insert(items, key, value);
      EmptyEnd(ks, n, key);
      EmptyEnd(ds, n, value);
      EmptyEnd(ns, n, NULL);
      SameRow(nodes[..], ns, n + 1);
    }

    /** Slot `i` of a row, read from the bytes. */
    method ReadSlot(base: nat, w: nat, i: nat) returns (bytes: Slot)
      requires Sized() && i < layout.Fanout() && base + layout.Fanout() * w <= data.Length
      ensures |bytes| == w && bytes == Row(data[..], base, w, layout.Fanout())[i]
    {
      SlotFits(i, layout.Fanout(), w);
      bytes := data[base + i * w..base + i * w + w];
    }

    /** `__twig_merge`: keys and disk pointers come back behind those of the left page, in-memory pointers do not. */
    method Merge(right: Twig)
      requires Valid() && right.Sized() && Apart(right) && items + right.items <= layout.Fanout()
      modifies this, data, nodes, right
      ensures Valid() && items == old(items) + old(right.items)
      ensures Keys()[..items] == old(Keys()[..items]) + old(right.Keys()[..right.items])
      ensures Disk()[..items] == old(Disk()[..items]) + old(right.Disk()[..right.items])
      ensures nodes[..] == old(nodes[..])
      ensures right.items == 0 && right.free == layout.Space()
      ensures OnlyRow(old(data[..]), data[..], NODE_HEAD, layout.Rows())
    {
      hide Row, OnlyRow;
      OnlyNothing(data[..], NODE_HEAD, layout.Rows());
      RowsFit(layout);
      var index := items;
      ghost var ks, ds, rk, rd := Keys()[..items], Disk()[..items], right.Keys(), right.Disk();
      for i := 0 to right.items
        invariant Valid() && items == index + i && right.items == old(right.items)
        invariant right.data[..] == old(right.data[..])
        invariant OnlyRow(old(data[..]), data[..], NODE_HEAD, layout.Rows())
        invariant Keys()[..items] == ks + rk[..i] && Disk()[..items] == ds + rd[..i] && nodes[..] == old(nodes[..])
      {
        var key := right.ReadSlot(NODE_HEAD, layout.prefix, i);
        var value := right.ReadSlot(layout.Pointers(), DISK_REF, i);
        ghost var e := data[..];
        AppendEntry(key, value);
        OnlyTwice(old(data[..]), e, data[..], NODE_HEAD, layout.Rows());
        OneMore(ks, rk, i);
        OneMore(ds, rd, i);
      }
      right.free := layout.Space();
      right.items := 0;
    }
  }

  lemma OnlyNothing(a: seq<byte>, base: nat, size: nat)
    ensures OnlyRow(a, a, base, size)
  {
  }

  lemma OnlyTwice(a: seq<byte>, b: seq<byte>, c: seq<byte>, base: nat, size: nat)
    requires OnlyRow(a, b, base, size) && OnlyRow(b, c, base, size)
    ensures OnlyRow(a, c, base, size)
  {
  }

  lemma OneMoreEntry(items: nat, needed: nat)
    ensures (items + 1) * needed == items * needed + needed
  {
  }

  lemma OneMore<T>(s: seq<T>, r: seq<T>, i: nat)
    requires i < |r|
    ensures s + r[..i] + [r[i]] == s + r[..i + 1]
  {
    assert r[..i + 1] == r[..i] + [r[i]];
  }

  /** Rows that agree up to `n` and are null behind it. */
  lemma SameRow(s: seq<nat>, t: seq<nat>, n: nat)
    requires |s| == |t| >= n && s[..n] == t[..n]
    requires forall i :: n <= i < |s| ==> s[i] == NULL == t[i]
    ensures s == t
  {
    assert forall i :: 0 <= i < n ==> s[i] == s[..n][i] == t[..n][i] == t[i];
  }

  lemma EmptyEnd<T>(s: seq<T>, n: nat, x: T)
    requires n <= |s|
    ensures s[..n] + [x] + s[n..n] == s[..n] + [x]
  {
  }

  lemma InsertedIs<T>(s: seq<T>, n: nat, at: nat, x: T)
    requires at <= n <= |s|
    ensures Inserted(s, n, at, x) == s[..at] + [x] + s[at..n]
  {
  }

  /** Work on one row and then on the other leaves what lies outside both. */
  lemma OnlyBoth(a: seq<byte>, b: seq<byte>, c: seq<byte>, l: Layout)
    requires OnlyRow(a, b, NODE_HEAD, l.Fanout() * l.prefix) && OnlyRow(b, c, l.Pointers(), l.Fanout() * DISK_REF)
    ensures OnlyRow(a, c, NODE_HEAD, l.Rows())
  {
    hide Layout.Fanout;
    Product(l.Fanout(), l.prefix);
  }

  /**
   A split undone by a merge restores the items, their keys and disk pointers, and the free space. The
   in-memory pointers are as before exactly if the upper half had none.
   */
  method SplitAndUndo(left: Twig, right: Twig)
    requires left.Valid() && right.Valid() && right.items == 0 && left.Apart(right)
    modifies left, left.data, left.nodes, right, right.data, right.nodes
    ensures left.Valid() && left.items == old(left.items) && left.free == old(left.free)
    ensures left.Keys()[..left.items] == old(left.Keys()[..left.items])
    ensures left.Disk()[..left.items] == old(left.Disk()[..left.items])
    ensures left.nodes[..] == old(left.nodes[..]) <==>
      forall i :: left.items / 2 <= i < left.items ==> old(left.nodes[i]) == NULL
  {
    hide Row;
    ghost var was, m := left.nodes[..], left.items / 2;
    left.Split(right);
    left.Merge(right);
    Forgotten(was, left.nodes[..], m, left.items);
  }

  /** A row null behind `n` that is cleared from `m` on. */
  lemma Forgotten(s: seq<nat>, t: seq<nat>, m: nat, n: nat)
    requires m <= n <= |s| && t == s[..m] + seq(|s| - m, _ => NULL) && forall i :: n <= i < |s| ==> s[i] == NULL
    ensures t == s <==> forall i :: m <= i < n ==> s[i] == NULL
  {
    assert forall i :: m <= i < |s| ==> t[i] == NULL;
    if forall i :: m <= i < n ==> s[i] == NULL {
      assert forall i :: 0 <= i < |s| ==> t[i] == s[i];
    }
  }

  /** A page with room for two items, and two items without keys in it. */
  method TwoItems(layout: Layout) returns (page: Twig)
    requires layout == Layout(NODE_HEAD + 2 * DISK_REF, 0)
    ensures fresh(page) && fresh(page.data) && fresh(page.nodes)
    ensures page.Valid() && page.layout == layout && page.items == page.nodes.Length == 2
  {
    hide Row, Inserted;
    page := new Twig(layout);
    var pointer := seq(DISK_REF, _ => 0);
    page.Insert(0, [], pointer);
    page.Insert(1, [], pointer);
  }

  /** A page of two items with a node behind the second: the merge that undoes the split does not bring it back. */
  method PointerLost(node: nat) returns (left: Twig, before: seq<nat>)
    requires node != NULL
    ensures fresh(left) && fresh(left.nodes) && left.Valid() && left.items == 2
    ensures before == [NULL, node] && left.nodes[..] == [NULL, NULL]
  {
    hide Row;
    var layout := Layout(NODE_HEAD + 2 * DISK_REF, 0);
    var right := new Twig(layout);
    left := TwoItems(layout);
    left.nodes[0], left.nodes[1] := NULL, node;
    before := left.nodes[..];
    ghost var was := left.nodes[..];
    left.Split(right);
    left.Merge(right);
    assert left.nodes[..] == was[..1] + seq(1, _ => NULL);
  }
}
