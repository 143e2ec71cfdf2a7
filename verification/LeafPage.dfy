/**
 Leaf pages of the B-tree (btree/btree.c): slotted pages changed in place by
 memmove and memcpy.  `content` is the sequence of items that the bytes spell out.
 */
module LeafPage {
  import opened Bytes
  import opened PageBytes

  const LIMIT: int := 0x8000_0000

  // -------------------------------------------------------------------------
  // Single entries inside the bytes

  /** Offset and size words of entry `k`. */
  lemma WordsAt(p: seq<byte>, xs: seq<Item>, k: nat, top: int, s: seq<byte>, keySize: nat)
    requires k < |xs| && KeysOf(xs, keySize)
    ensures var d, at := p + Entries(xs, top) + s, |p| + k * (keySize + ITEM_HEAD);
      && at + keySize + ITEM_HEAD <= |d|
      && d[at..at + keySize] == xs[k].key
      && d[at + keySize..at + keySize + 4] == Le32(top - BodySize(xs[..k + 1]))
      && d[at + keySize + 4..at + keySize + 8] == Le32(|xs[k].value|)
  {
    hide Entries, BodySize, Le32, KeysOf;
    CutItems(xs, k, top, keySize);
    var e, f, g := Entries(xs[..k], top), Entry(xs[k], top - BodySize(xs[..k])),
      Entries(xs[k + 1..], top - BodySize(xs[..k + 1]));
    assert |xs[k].key| == keySize by {
      KeySizeAt(xs, k, keySize);
    }
    EntryIn(p, e, xs[k].key, Le32(top - BodySize(xs[..k + 1])), Le32(|xs[k].value|), g, s);
  }

  lemma KeySizeAt(xs: seq<Item>, k: nat, keySize: nat)
    requires k < |xs| && KeysOf(xs, keySize)
    ensures |xs[k].key| == keySize
  {
  }

  lemma EntryIn(p: seq<byte>, e: seq<byte>, key: seq<byte>, o: seq<byte>, z: seq<byte>, g: seq<byte>, s: seq<byte>)
    requires |o| == |z| == 4
    ensures var d, at, n := p + (e + (key + o + z) + g) + s, |p| + |e|, |key|;
      && at + n + 8 <= |d|
      && d[at..at + n] == key && d[at + n..at + n + 4] == o && d[at + n + 4..at + n + 8] == z
      && d == (p + e + key) + o + (z + g + s)
  {
    var d := p + (e + (key + o + z) + g) + s;
    assert d == (p + e + key) + o + (z + g + s);
  }

  /** One turn of the loop that adds `diff` to the offsets: the entries before `k` are done. */
  lemma EntryParts(c: Item, top: int)
    ensures Entry(c, top) == c.key + Le32(top - |c.value|) + Le32(|c.value|)
  {
  }

  lemma NextBody(xs: seq<Item>, k: nat, top: int, diff: int)
    requires k < |xs|
    ensures top + diff - BodySize(xs[..k + 1]) == top + diff - BodySize(xs[..k]) - |xs[k].value|
  {
    hide BodySize;
    OneMoreBody(xs, 0, k);
    assert xs[0..k + 1] == xs[..k + 1] && xs[0..k] == xs[..k];
  }

  /** One offset word replaced within the entries. */
  lemma OffsetBytes(p: seq<byte>, e: seq<byte>, key: seq<byte>, o: seq<byte>, o': seq<byte>, z: seq<byte>, g: seq<byte>,
                    s: seq<byte>)
    requires |o| == |o'| == |z| == 4
    ensures var d, at := p + e + ((key + o + z) + g) + s, |p| + |e| + |key|;
      && at + 4 <= |d| && d[at..at + 4] == o
      && Patch(d, at, o') == p + (e + (key + o' + z)) + g + s
  {
    hide Patch;
    EntryIn(p, e, key, o, z, g, s);
    EntryIn(p, e, key, o', z, g, s);
    PatchMid(p + e + key, o, z + g + s, o');
    Nest(p, e, key + o + z, g, s);
    Nest(p, e, key + o' + z, g, s);
  }

  lemma OffsetStep(p: seq<byte>, xs: seq<Item>, k: nat, top: int, diff: int, s: seq<byte>, keySize: nat)
    requires k < |xs| && KeysOf(xs, keySize)
    ensures var d, at := Half(p, xs, k, top, diff, s), |p| + k * (keySize + ITEM_HEAD) + keySize;
      && at + 4 <= |d|
      && Patch(d, at, Le32(FromLe32(d[at..at + 4]) + diff)) == Half(p, xs, k + 1, top, diff, s)
  {
    hide Entries, BodySize, Le32, FromLe32, KeysOf, Patch, Entry;
    var y := xs[..k];
    var t, t' := top - BodySize(y), top + diff - BodySize(y);
    var e, key, v := Entries(y, top + diff), xs[k].key, |xs[k].value|;
    var g := Entries(xs[k + 1..], top - BodySize(xs[..k + 1]));
    KeySizeAt(xs, k, keySize);
    CutTail(xs, k, top, diff, keySize);
    EntryParts(xs[k], t);
    EntryParts(xs[k], t');
    NextBody(xs, k, top, diff);
    Le32Add(t - v, diff);
    OffsetBytes(p, e, key, Le32(t - v), Le32(t' - v), Le32(v), g, s);
  }

  lemma Nest(p: seq<byte>, e: seq<byte>, m: seq<byte>, g: seq<byte>, s: seq<byte>)
    ensures p + (e + m + g) + s == p + e + (m + g) + s
    ensures p + (e + m + g) + s == p + (e + m) + g + s
  {
  }

  /** Entries before `k` with their offsets moved by `diff`, the others as they were. */
  ghost function Half(p: seq<byte>, xs: seq<Item>, k: nat, top: int, diff: int, s: seq<byte>): seq<byte>
    requires k <= |xs|
  {
    p + Entries(xs[..k], top + diff) + Entries(xs[k..], top - BodySize(xs[..k])) + s
  }

  lemma CutTail(xs: seq<Item>, k: nat, top: int, diff: int, keySize: nat)
    requires k < |xs| && KeysOf(xs, keySize)
    ensures Entries(xs[k..], top - BodySize(xs[..k])) ==
            Entry(xs[k], top - BodySize(xs[..k])) + Entries(xs[k + 1..], top - BodySize(xs[..k + 1]))
    ensures Entries(xs[..k + 1], top + diff) ==
            Entries(xs[..k], top + diff) + Entry(xs[k], top + diff - BodySize(xs[..k]))
    ensures |Entries(xs[..k], top + diff)| == k * (keySize + ITEM_HEAD)
  {
    hide Entries, BodySize;
    assert xs[k..] == [xs[k]] + xs[k + 1..] && xs[..k + 1] == xs[..k] + [xs[k]];
    EntriesConcat([xs[k]], xs[k + 1..], top - BodySize(xs[..k]));
    EntriesConcat(xs[..k], [xs[k]], top + diff);
    BodiesConcat(xs[..k], [xs[k]]);
    OneItem(xs[k], top - BodySize(xs[..k]));
    OneItem(xs[k], top + diff - BodySize(xs[..k]));
    EntriesSize(xs[..k], top + diff, keySize);
  }

  lemma HalfEnds(p: seq<byte>, xs: seq<Item>, top: int, diff: int, s: seq<byte>)
    ensures Half(p, xs, 0, top, diff, s) == p + Entries(xs, top) + s
    ensures Half(p, xs, |xs|, top, diff, s) == p + Entries(xs, top + diff) + s
  {
    assert xs[..0] == [] && xs[0..] == xs && xs[..|xs|] == xs && xs[|xs|..] == [];
    assert p + [] + Entries(xs, top) + s == p + Entries(xs, top) + s;
    assert p + Entries(xs, top + diff) + [] + s == p + Entries(xs, top + diff) + s;
  }

  /** `__leaf_move_offsets`: add `diff` to the offsets of the entries `xs` that start at byte `from`. */
  method MoveOffsets(data: array<byte>, from: nat, count: nat, diff: int, keySize: nat,
                     ghost p: seq<byte>, ghost xs: seq<Item>, ghost top: int, ghost s: seq<byte>)
    requires data[..] == p + Entries(xs, top) + s && |p| == from && |xs| == count && KeysOf(xs, keySize)
    modifies data
    ensures data[..] == p + Entries(xs, top + diff) + s
  {
    hide Entries, BodySize, Le32, FromLe32, Half, Patch;
    HalfEnds(p, xs, top, diff, s);
    var k, at := 0, from + keySize;
    while k < count
      invariant 0 <= k <= count && at == from + k * (keySize + ITEM_HEAD) + keySize
      invariant data[..] == Half(p, xs, k, top, diff, s)
    {
      OffsetStep(p, xs, k, top, diff, s, keySize);
      var offset := FromLe32(data[..][at..at + 4]);
      CopyIn(data, at, Le32(offset + diff));
      at := at + keySize + ITEM_HEAD;
      k := k + 1;
    }
  }

  // -------------------------------------------------------------------------
  // Pages as values

  /** Bytes that `n` entries take. */
  function EntrySpace(n: nat, keySize: nat): nat { n * (keySize + ITEM_HEAD) }

  lemma OneMoreEntry(n: nat, keySize: nat)
    ensures EntrySpace(n + 1, keySize) == EntrySpace(n, keySize) + keySize + ITEM_HEAD
  {
    assert (n + 1) * (keySize + ITEM_HEAD) == n * (keySize + ITEM_HEAD) + (keySize + ITEM_HEAD);
  }

  /** The first bytes of a block, which are not the page's. */
  ghost function HeadOf(d: seq<byte>): seq<byte> { if NODE_HEAD <= |d| then d[..NODE_HEAD] else [] }

  lemma HeadFirst(d: seq<byte>, h: seq<byte>, items: seq<Item>, gap: seq<byte>)
    requires |h| == NODE_HEAD && d == Page(h, items, gap, |d|)
    ensures HeadOf(d) == h
  {
    hide Entries, Bodies;
    var e, b := Entries(items, |d|), Bodies(items);
    assert h + e + gap + b == h + (e + gap + b);
  }

  /** The parts of a page and their sizes. */
  lemma Parts(d: seq<byte>, items: seq<Item>, keySize: nat) returns (h: seq<byte>, gap: seq<byte>)
    requires Laid(d, items, keySize)
    ensures |h| == NODE_HEAD && d == Page(h, items, gap, |d|) && h == HeadOf(d)
    ensures |d| == NODE_HEAD + EntrySpace(|items|, keySize) + |gap| + BodySize(items)
    ensures |Entries(items, |d|)| == EntrySpace(|items|, keySize) && |Bodies(items)| == BodySize(items)
  {
    h, gap :| |h| == NODE_HEAD && d == Page(h, items, gap, |d|);
    EntriesSize(items, |d|, keySize);
    BodiesSize(items);
    HeadFirst(d, h, items, gap);
  }

  /** A page with its items cut at `i`. */
  lemma PartsAt(d: seq<byte>, items: seq<Item>, i: nat, keySize: nat) returns (h: seq<byte>, gap: seq<byte>)
    requires Laid(d, items, keySize) && i <= |items|
    ensures var a, b := items[..i], items[i..];
      && |h| == NODE_HEAD && d == Page2(h, a, b, gap, |d|) && h == HeadOf(d)
      && |d| == NODE_HEAD + EntrySpace(|items|, keySize) + |gap| + BodySize(items)
      && BodySize(items) == BodySize(a) + BodySize(b)
      && |Entries(a, |d|)| == EntrySpace(i, keySize) && |Bodies(a)| == BodySize(a)
      && |Entries(b, |d| - BodySize(a))| == EntrySpace(|b|, keySize) && |Bodies(b)| == BodySize(b)
      && EntrySpace(|items|, keySize) == EntrySpace(i, keySize) + EntrySpace(|b|, keySize)
      && KeysOf(a, keySize) && KeysOf(b, keySize)
  {
    hide Entries, Bodies, BodySize, Page, Page2, Laid, EntrySpace, HeadOf;
    LaidKeys(d, items, keySize);
    h, gap := Parts(d, items, keySize);
    var a, b := items[..i], items[i..];
    assert items == a + b;
    PageOfTwo(h, a, b, gap, |d|);
    BodiesConcat(a, b);
    BodiesSize(a);
    BodiesSize(b);
    EntriesSpace(a, |d|, keySize);
    EntriesSpace(b, |d| - BodySize(a), keySize);
    EntrySpaceAdd(i, |b|, keySize);
  }

  lemma MakeLaid(d: seq<byte>, h: seq<byte>, items: seq<Item>, gap: seq<byte>, keySize: nat)
    requires KeysOf(items, keySize) && |h| == NODE_HEAD && d == Page(h, items, gap, |d|)
    ensures Laid(d, items, keySize) && HeadOf(d) == h
  {
    HeadFirst(d, h, items, gap);
  }

  /** Room for one entry and one body between the items `a` and `b`: the bytes `x` and `s`. */
  ghost function Opened(h: seq<byte>, a: seq<Item>, x: seq<byte>, b: seq<Item>, gap: seq<byte>, s: seq<byte>,
                        n: int): seq<byte> {
    h + Entries(a, n) + x + Entries(b, n - BodySize(a) - |s|) + gap + Bodies(b) + s + Bodies(a)
  }

  /** Bodies `bb` moved down by `size` into the gap. */
  lemma ShiftBodies(q: seq<byte>, g: seq<byte>, bb: seq<byte>, ba: seq<byte>, size: nat)
    requires size <= |g|
    ensures var d, low := q + g + bb + ba, |q| + |g|;
      && d[low..low + |bb|] == bb
      && Patch(d, low - size, bb) == q + (g[..|g| - size] + bb + (g[|g| - size..] + bb)[|bb|..] + ba)
  {
    hide Patch;
    var g0, g1 := g[..|g| - size], g[|g| - size..];
    assert g == g0 + g1;
    Assoc(q, g0, g1);
    MoveDown(q + g0, g1, bb, ba);
    Regroup4(q, g0, bb, (g1 + bb)[|bb|..], ba);
  }

  lemma Regroup4(q: seq<byte>, a: seq<byte>, b: seq<byte>, c: seq<byte>, d: seq<byte>)
    ensures q + (a + b + c + d) == q + a + b + c + d
  {
  }

  /** Entries `eb` moved up by `k` into the gap. */
  lemma ShiftEntries(q: seq<byte>, eb: seq<byte>, g: seq<byte>, t: seq<byte>, k: nat)
    requires k <= |g|
    ensures var d := q + eb + (g + t);
      && d[|q|..|q| + |eb|] == eb
      && Patch(d, |q| + k, eb) == q + (eb + g[..k])[..k] + eb + (g[k..] + t)
  {
    hide Patch;
    assert g == g[..k] + g[k..];
    Regroup5(q + eb, g[..k], g[k..], t);
    MoveUp(q, eb, g[..k], g[k..] + t);
  }

  lemma Regroup5(q: seq<byte>, a: seq<byte>, b: seq<byte>, c: seq<byte>)
    ensures q + ((a + b) + c) == q + a + (b + c)
  {
  }

  lemma OpenedShape(h: seq<byte>, ea: seq<byte>, x: seq<byte>, eb: seq<byte>, g: seq<byte>, bb: seq<byte>, s: seq<byte>,
                    ba: seq<byte>)
    ensures (h + ea) + x + eb + (g + (bb + s + ba)) == h + ea + x + eb + g + bb + s + ba
  {
    var q := h + ea + x + eb;
    Assoc(q, g, bb + s + ba);
    Regroup2(q + g, bb, s, ba);
  }

  lemma Regroup2(q: seq<byte>, a: seq<byte>, b: seq<byte>, c: seq<byte>)
    ensures q + (a + b + c) == q + a + b + c
  {
  }

  class Leaf {
    const data: array<byte>
    const keySize: nat
    var items: nat
    var free: nat
    ghost var content: seq<Item>

    /** The bytes hold `content`, and the header counts the items and the gap. */
    ghost predicate Valid()
      reads this, data
    {
      data.Length < LIMIT && Laid(data[..], content, keySize) && items == |content| &&
      free == data.Length - NODE_HEAD - EntrySpace(items, keySize) - BodySize(content)
    }

    function At(i: nat): nat { NODE_HEAD + EntrySpace(i, keySize) }

    constructor (size: nat, keySize: nat)
      requires NODE_HEAD <= size < LIMIT
      ensures Valid() && fresh(data) && data.Length == size && this.keySize == keySize && content == []
    {
      data := new byte[size];
      this.keySize := keySize;
      items, free, content := 0, size - NODE_HEAD, [];
      new;
      assert data[..] == data[..NODE_HEAD] + [] + data[NODE_HEAD..] + [];
      MakeLaid(data[..], data[..NODE_HEAD], [], data[NODE_HEAD..], keySize);
    }

    /** Key, offset and size of entry `i`. */
    lemma EntryAt(i: nat)
      requires Valid() && i < items
      ensures var d, at := data[..], At(i);
        && at + keySize + ITEM_HEAD <= |d|
        && d[at..at + keySize] == content[i].key
        && FromLe32(d[at + keySize..at + keySize + 4]) == |d| - BodySize(content[..i + 1])
        && FromLe32(d[at + keySize + 4..at + keySize + 8]) == |content[i].value|
        && BodySize(content[..i + 1]) <= BodySize(content) <= |d|
        && BodySize(content[..i + 1]) == BodySize(content[..i]) + |content[i].value|
    {
      hide Entries, Bodies, BodySize, Le32, FromLe32, Laid, KeysOf;
      var d := data[..];
      assert KeysOf(content, keySize) by {
        LaidKeys(d, content, keySize);
      }
      var h, gap := Parts(d, content, keySize);
      Assoc(h + Entries(content, |d|), gap, Bodies(content));
      WordsAt(h, content, i, |d|, gap + Bodies(content), keySize);
      CutItems(content, i, |d|, keySize);
      Le32RoundTrip(|d| - BodySize(content[..i + 1]));
      Le32RoundTrip(|content[i].value|);
    }

    /** `__leaf_body_size` */
    method BodyBytes(from: nat, to: nat) returns (size: nat)
      requires Valid() && from <= to <= items
      ensures size == BodySize(content[from..to])
    {
      hide Entries, Bodies, Le32, FromLe32, Laid, BodySize, EntrySpace;
      var k := from;
      size := 0;
      NoBodies(content, from);
      while k < to
        invariant from <= k <= to && size == BodySize(content[from..k])
      {
        EntryAt(k);
        var at := At(k) + keySize + 4;
        size := size + FromLe32(data[..][at..at + 4]);
        OneMoreBody(content, from, k);
        k := k + 1;
      }
    }

    /** Where the body of the last item starts, as its entry says. */
    method LowestBody() returns (offset: nat)
      requires Valid() && items > 0
      ensures offset == data.Length - BodySize(content)
    {
      hide Entries, Bodies, Le32, FromLe32, Laid, BodySize;
      EntryAt(items - 1);
      assert content[..items] == content;
      var at := At(items - 1) + keySize;
      offset := FromLe32(data[..][at..at + 4]);
    }

    /** First half of making room: the bodies from `index` on move down by `size`. */
    method LowerBodies(index: nat, size: nat)
      returns (offset: nat, ghost h: seq<byte>, ghost g: seq<byte>, ghost s: seq<byte>)
      requires Valid() && index < items && size <= free
      modifies data
      ensures var a, b, n := content[..index], content[index..], data.Length;
        && data[..] == (h + Entries(a, n)) + Entries(b, n - BodySize(a)) + (g + (Bodies(b) + s + Bodies(a)))
        && |h| == NODE_HEAD && |s| == size && offset == n - BodySize(a) - size && |g| == free - size
        && h == HeadOf(old(data[..]))
        && KeysOf(b, keySize)
        && |Entries(a, n)| == EntrySpace(index, keySize) && |Bodies(a)| == BodySize(a)
    {
      hide Entries, Bodies, BodySize, Laid, Patch, EntrySpace, Le32, FromLe32, KeysOf, HeadOf;
      h, g, s := LowerFacts(data[..], content, index, keySize, size);
      var bytes := BodyBytes(index, items);
      assert content[index..items] == content[index..];
      var low := LowestBody();
      Move(data, low - size, low, bytes);
      offset := low - size + bytes;
    }

    /** Second half of making room: the entries from `index` on get their new offsets and move up by one. */
    method RaiseEntries(index: nat, size: nat, ghost q: seq<byte>, ghost top: int, ghost g: seq<byte>,
                        ghost t: seq<byte>)
      returns (ghost x: seq<byte>)
      requires index < items == |content| && KeysOf(content[index..], keySize) && |q| == At(index)
      requires data[..] == q + Entries(content[index..], top) + (g + t) && keySize + ITEM_HEAD <= |g|
      modifies data
      ensures |x| == keySize + ITEM_HEAD
      ensures data[..] == q + x + Entries(content[index..], top - size) + (g[keySize + ITEM_HEAD..] + t)
    {
      hide Entries, Bodies, BodySize, Laid, Patch, EntrySpace, Le32, FromLe32, KeysOf;
      ghost var b, k := content[index..], keySize + ITEM_HEAD;
      MoveOffsets(data, At(index), items - index, -(size as int), keySize, q, b, top, g + t);
      ghost var eb := Entries(b, top - size);
      EntriesSpace(b, top - size, keySize);
      ShiftEntries(q, eb, g, t, k);
      OneMoreEntry(index, keySize);
      Move(data, At(index + 1), At(index), EntrySpace(items - index, keySize));
      x := (eb + g[..k])[..k];
    }

    /** Move the entries and bodies from `index` on aside, to make room for an entry and `size` bytes of body. */
    method MakeRoom(index: nat, size: nat)
      returns (offset: nat, ghost h: seq<byte>, ghost x: seq<byte>, ghost gap: seq<byte>, ghost s: seq<byte>)
      requires Valid() && index < items && keySize + ITEM_HEAD + size <= free
      modifies data
      ensures data[..] == Opened(h, content[..index], x, content[index..], gap, s, data.Length)
      ensures |h| == NODE_HEAD && |x| == keySize + ITEM_HEAD && |s| == size && h == HeadOf(old(data[..]))
      ensures offset == data.Length - BodySize(content[..index]) - size
      ensures |gap| == free - (keySize + ITEM_HEAD) - size
      ensures |Entries(content[..index], data.Length)| == EntrySpace(index, keySize)
      ensures |Bodies(content[..index])| == BodySize(content[..index])
    {
      hide Entries, Bodies, BodySize, Laid, Patch, EntrySpace, Le32, FromLe32, KeysOf, HeadOf;
      ghost var a, b, n := content[..index], content[index..], data.Length;
      ghost var g;
      offset, h, g, s := LowerBodies(index, size);
      ghost var t := Bodies(b) + s + Bodies(a);
      x := RaiseEntries(index, size, h + Entries(a, n), n - BodySize(a), g, t);
      gap := g[keySize + ITEM_HEAD..];
      OpenedShape(h, Entries(a, n), x, Entries(b, n - BodySize(a) - size), gap, Bodies(b), s, Bodies(a));
    }

    /** Write key, item head and body into the room made for them. */
    method Fill(index: nat, offset: nat, key: seq<byte>, value: seq<byte>,
                ghost h: seq<byte>, ghost x: seq<byte>, ghost gap: seq<byte>, ghost s: seq<byte>)
      requires index <= |content| && |key| == keySize && data.Length < LIMIT
      requires data[..] == Opened(h, content[..index], x, content[index..], gap, s, data.Length)
      requires |h| == NODE_HEAD && |x| == keySize + ITEM_HEAD && |s| == |value|
      requires offset == data.Length - BodySize(content[..index]) - |value|
      requires |Entries(content[..index], data.Length)| == EntrySpace(index, keySize)
      requires |Bodies(content[..index])| == BodySize(content[..index])
      modifies data
      ensures data[..] == Page3(h, content[..index], Item(key, value), content[index..], gap, data.Length)
    {
      hide Entries, Bodies, BodySize, Laid, Patch, EntrySpace, Le32, FromLe32;
      ghost var a, b, n := content[..index], content[index..], data.Length;
      ghost var ea, eb, bb, ba := Entries(a, n), Entries(b, n - BodySize(a) - |value|), Bodies(b), Bodies(a);
      var head := Le32(offset) + Le32(|value|);
      FilledShape(h, ea, x, eb, gap, bb, s, ba);
      FillEntry(h + ea, x, eb + gap + bb + s + ba, key, head);
      CopyIn(data, At(index), key);
      CopyIn(data, At(index) + keySize, head);
      FilledShape(h, ea, key + head, eb, gap, bb, s, ba);
      PatchMid(h + ea + (key + head) + eb + gap + bb, s, ba, value);
      CopyIn(data, offset, value);
      Assoc(key, Le32(offset), Le32(|value|));
    }

    /** `__leaf_insert`: a new item at `index`; every other item keeps its bytes. */
    method Insert(index: nat, key: seq<byte>, value: seq<byte>)
      requires Valid() && index <= items && |key| == keySize && keySize + ITEM_HEAD + |value| <= free
      modifies this, data
      ensures Valid() && content == old(content)[..index] + [Item(key, value)] + old(content)[index..]
      ensures free == old(free) - (keySize + ITEM_HEAD + |value|) && HeadOf(data[..]) == old(HeadOf(data[..]))
    {
      hide Entries, Bodies, BodySize, Laid, Patch, EntrySpace, Le32, FromLe32, KeysOf, HeadOf;
      ghost var a, b, n := content[..index], content[index..], data.Length;
      ghost var h, x, gap, s;
      LaidKeys(data[..], content, keySize);
      var offset := free - |value| + At(items);
      if index < items {
        offset, h, x, gap, s := MakeRoom(index, |value|);
      } else {
        h, x, gap, s := RoomAtEnd(data[..], content, keySize, |value|);
      }
      Fill(index, offset, key, value, h, x, gap, s);
      InsertedPage(data[..], h, content, index, Item(key, value), gap, keySize);
      free := free - (keySize + ITEM_HEAD + |value|);
      items := items + 1;
      content := a + [Item(key, value)] + b;
    }

    /** First half of closing the room of item `index`: the bodies behind it move up over its body. */
    method RaiseBodies(index: nat) returns (ghost h: seq<byte>, ghost g: seq<byte>)
      requires Valid() && index + 1 < items
      modifies data
      ensures var a, xs, b, n := content[..index], content[index..], content[index + 1..], data.Length;
        && data[..] == (h + Entries(a, n)) + Entries(xs, n - BodySize(a)) + (g + Bodies(b) + Bodies(a))
        && |h| == NODE_HEAD && KeysOf(xs, keySize) && |Entries(a, n)| == EntrySpace(index, keySize)
        && |g + Bodies(b) + Bodies(a)| == free + BodySize(content) && h == HeadOf(old(data[..]))
    {
      hide Entries, Bodies, BodySize, Laid, Patch, EntrySpace, Le32, FromLe32, KeysOf, HeadOf;
      h, g := RaiseFacts(data[..], content, index, keySize);
      EntryAt(index);
      var at := At(index) + keySize + 4;
      var size := FromLe32(data[..][at..at + 4]);
      var low := LowestBody();
      var bytes := BodyBytes(index + 1, items);
      assert content[index + 1..items] == content[index + 1..];
      Move(data, low + size, low, bytes);
    }

    /** Second half of closing the room: the entries get their new offsets and move down by one. */
    method LowerEntries(index: nat, size: nat, ghost q: seq<byte>, ghost top: int, ghost t: seq<byte>)
      requires index + 1 < items == |content| && |content[index].value| == size
      requires KeysOf(content[index..], keySize) && |q| == At(index)
      requires data[..] == q + Entries(content[index..], top) + t && keySize + ITEM_HEAD <= |t|
      modifies data
      ensures data[..] == q + Entries(content[index + 1..], top) + (t[..keySize + ITEM_HEAD] + t)
    {
      hide Entries, Bodies, BodySize, Laid, Patch, EntrySpace, Le32, FromLe32, KeysOf;
      ghost var xs, c, b, k := content[index..], content[index], content[index + 1..], keySize + ITEM_HEAD;
      MoveOffsets(data, At(index), items - index, size, keySize, q, xs, top, t);
      FirstEntry(xs, top + size, keySize);
      assert xs[1..] == b;
      ghost var e, eb := Entry(c, top + size), Entries(b, top);
      EntriesSpace(xs, top + size, keySize);
      OneMoreEntry(index, keySize);
      DropEntry(q, e, eb, t, k);
      Move(data, At(index), At(index + 1), EntrySpace(items - index, keySize));
    }

    /**
     `__leaf_remove`: the item at `index` goes; every other item keeps its bytes.  The source moves one
     entry more than there are behind the removed one, which must lie inside the page.
     */
    method Remove(index: nat)
      requires Valid() && index < items
      requires index + 1 < items ==> At(items + 1) <= data.Length
      modifies this, data
      ensures Valid() && content == old(content)[..index] + old(content)[index + 1..]
      ensures free == old(free) + keySize + ITEM_HEAD + |old(content)[index].value|
      ensures HeadOf(data[..]) == old(HeadOf(data[..]))
    {
      hide Entries, Bodies, BodySize, Laid, Patch, EntrySpace, Le32, FromLe32, KeysOf, HeadOf;
      ghost var a, c, b, n := content[..index], content[index], content[index + 1..], data.Length;
      LaidKeys(data[..], content, keySize);
      CutBodies(content, index);
      KeysWithout(content, index, keySize);
      OneMoreEntry(items, keySize);
      EntryAt(index);
      var at := At(index) + keySize + 4;
      var size := FromLe32(data[..][at..at + 4]);
      if index + 1 < items {
        ghost var h, g := RaiseBodies(index);
        ghost var t := g + Bodies(b) + Bodies(a);
        LowerEntries(index, size, h + Entries(a, n), n - BodySize(a), t);
        RemovedPage(data[..], h, a, b, g, t[..keySize + ITEM_HEAD], keySize);
      } else {
        LastRemoved(data[..], content, keySize);
        assert b == [] && a + b == content[..|content| - 1];
      }
      OneMoreEntry(items - 1, keySize);
      free := free + keySize + ITEM_HEAD + size;
      items := items - 1;
      content := a + b;
    }

    /** The bytes of body `i`, where its entry says they are. */
    lemma BodyAt(i: nat)
      requires Valid() && i < items
      ensures var at := data.Length - BodySize(content[..i + 1]);
        && 0 <= at && at + |content[i].value| <= data.Length
        && data[..][at..at + |content[i].value|] == content[i].value
    {
      hide Entries, Bodies, BodySize, Laid, Page, Page3;
      var d, a, c, b := data[..], content[..i], content[i], content[i + 1..];
      var h, gap := Parts(d, content, keySize);
      assert content == a + [c] + b;
      PageOfThree(h, a, c, b, gap, |d|);
      OneMoreBody(content, 0, i);
      assert content[0..i] == a && content[0..i + 1] == content[..i + 1];
      BodiesSize(a);
      BodyInPage(d, h, a, c, b, gap);
    }

    /** The copies of a split: entries and bodies from `half` on go to the other page as they are. */
    method CopyUpper(half: nat, right: Leaf)
      returns (entryBytes: nat, bytes: nat, ghost h: seq<byte>, ghost mid: seq<byte>)
      requires Valid() && half < items && right.data != data && right.data.Length == data.Length
      modifies right.data
      ensures var a, b, n := content[..half], content[half..], data.Length;
        && right.data[..] == h + Entries(b, n - BodySize(a)) + (mid + Bodies(b)) && |h| == NODE_HEAD
        && h == HeadOf(old(right.data[..]))
        && KeysOf(b, keySize) && entryBytes == EntrySpace(|b|, keySize) && bytes == BodySize(b)
        && BodySize(content) == BodySize(a) + BodySize(b)
        && EntrySpace(items, keySize) == EntrySpace(half, keySize) + entryBytes
    {
      hide Entries, Bodies, BodySize, Laid, Patch, EntrySpace, Le32, FromLe32, KeysOf, HeadOf;
      ghost var r := right.data[..];
      h, mid := UpperFacts(data[..], r, content, half, keySize);
      var low := LowestBody();
      bytes := BodyBytes(half, items);
      assert content[half..items] == content[half..];
      entryBytes := EntrySpace(items - half, keySize);
      CopyIn(right.data, NODE_HEAD, data[..][At(half)..At(half) + entryBytes]);
      CopyIn(right.data, data.Length - bytes, data[..][low..low + bytes]);
    }

    /** `__leaf_split`: the upper half of the items moves to an empty page. */
    method Split(right: Leaf)
      requires Valid() && items > 0
      requires right.Valid() && right.content == [] && right != this && right.data != data
      requires right.data.Length == data.Length && right.keySize == keySize
      modifies this, data, right, right.data
      ensures Valid() && right.Valid()
      ensures content == old(content)[..|old(content)| / 2] && right.content == old(content)[|old(content)| / 2..]
      ensures data[..] == old(data[..]) && HeadOf(right.data[..]) == old(HeadOf(right.data[..]))
    {
      hide Entries, Bodies, BodySize, Laid, Patch, EntrySpace, Le32, FromLe32, KeysOf, Page, HeadOf;
      var half := items / 2;
      var moved := items - half;
      ghost var a, b, n := content[..half], content[half..], data.Length;
      NoItems(n);
      NoSpace(keySize);
      var entryBytes, bytes;
      ghost var h, mid;
      entryBytes, bytes, h, mid := CopyUpper(half, right);
      LowerHalf(data[..], content, half, keySize);
      free, items, content := free + entryBytes + bytes, half, a;
      var kept := BodyBytes(0, half);
      assert a[0..half] == a;
      MoveOffsets(right.data, NODE_HEAD, moved, kept, keySize, h, b, n - BodySize(a), mid + Bodies(b));
      right.free, right.items, right.content := right.free - entryBytes - bytes, moved, b;
      Assoc(h + Entries(b, n), mid, Bodies(b));
      HalfPage(h, b, mid, n);
      MakeLaid(right.data[..], h, b, mid, keySize);
    }

    /** `__leaf_merge`: the items of `right` are inserted one by one behind those of this page. */
    method Merge(right: Leaf)
      requires Valid()
      requires right.Valid() && right != this && right.data != data && right.keySize == keySize
      requires EntrySpace(right.items, keySize) + BodySize(right.content) <= free
      modifies this, data, right`items, right`free, right`content
      ensures Valid() && content == old(content) + old(right.content)
      ensures free == old(free) - EntrySpace(old(right.items), keySize) - BodySize(old(right.content))
      ensures right.Valid() && right.content == [] && right.free == right.data.Length - NODE_HEAD
      ensures HeadOf(data[..]) == old(HeadOf(data[..]))
    {
      hide Entries, Bodies, BodySize, Laid, Patch, EntrySpace, Le32, FromLe32, KeysOf, HeadOf;
      var index := items;
      ghost var xs := right.content;
      LaidKeys(right.data[..], xs, keySize);
      NoBodies(xs, 0);
      NoSpace(keySize);
      assert content + xs[..0] == content;
      var i := 0;
      while i < right.items
        invariant 0 <= i <= right.items && right.Valid() && right.content == xs && Valid() && unchanged(right)
        invariant items == index + i && content == old(content) + xs[..i] && HeadOf(data[..]) == old(HeadOf(data[..]))
        invariant free == old(free) - EntrySpace(i, keySize) - BodySize(xs[0..i])
      {
        right.EntryAt(i);
        right.BodyAt(i);
        KeySizeAt(xs, i, keySize);
        FitsNext(xs, i, keySize);
        var at := right.At(i);
        var key := right.data[..][at..at + keySize];
        var offset := FromLe32(right.data[..][at + keySize..at + keySize + 4]);
        var size := FromLe32(right.data[..][at + keySize + 4..at + keySize + 8]);
        Insert(index + i, key, right.data[..][offset..offset + size]);
        assert xs[..i + 1] == xs[..i] + [xs[i]];
        assert content == old(content) + xs[..i + 1];
        i := i + 1;
      }
      assert xs[..i] == xs && xs[0..i] == xs;
      LowerHalf(right.data[..], xs, 0, keySize);
      assert xs[..0] == [];
      NoItems(0);
      right.free, right.items, right.content := right.data.Length - NODE_HEAD, 0, [];
    }

    /** The rollback of a split: merging the two halves restores the items and the free space. */
    method SplitAndUndo(right: Leaf)
      requires Valid() && items > 0
      requires right.Valid() && right.content == [] && right != this && right.data != data
      requires right.data.Length == data.Length && right.keySize == keySize
      modifies this, data, right, right.data
      ensures Valid() && content == old(content) && free == old(free)
      ensures right.Valid() && right.content == [] && right.free == old(right.free)
    {
      hide Entries, Bodies, Laid, Patch, Le32, FromLe32, KeysOf, BodySize, EntrySpace;
      ghost var xs, half := content, items / 2;
      assert xs == xs[..half] + xs[half..];
      NoItems(0);
      NoSpace(keySize);
      Split(right);
      BodiesConcat(xs[..half], xs[half..]);
      EntrySpaceAdd(half, |xs| - half, keySize);
      Merge(right);
    }
  }

  lemma NoBodies(items: seq<Item>, i: nat)
    requires i <= |items|
    ensures BodySize(items[i..i]) == 0
  {
  }

  lemma OneMoreBody(items: seq<Item>, i: nat, k: nat)
    requires i <= k < |items|
    ensures BodySize(items[i..k + 1]) == BodySize(items[i..k]) + |items[k].value|
  {
    assert items[i..k + 1] == items[i..k] + [items[k]];
    BodiesConcat(items[i..k], [items[k]]);
    OneItem(items[k], 0);
  }

  /** Key and item head written over the bytes `x`. */
  lemma FillEntry(q: seq<byte>, x: seq<byte>, t: seq<byte>, key: seq<byte>, head: seq<byte>)
    requires |x| == |key| + |head|
    ensures |q| + |x| <= |q + x + t|
    ensures Patch(Patch(q + x + t, |q|, key), |q| + |key|, head) == q + (key + head) + t
  {
    hide Patch;
    var y, z := x[..|key|], x[|key|..];
    assert x == y + z;
    Assoc(q, x, t);
    Regroup5(q, y, z, t);
    PatchMid(q, y, z + t, key);
    Assoc(q + key, z, t);
    PatchMid(q + key, z, t, head);
    Assoc(q, key, head);
  }

  /** The opened page with its room filled is the page with the new item. */
  lemma FilledShape(h: seq<byte>, ea: seq<byte>, x: seq<byte>, eb: seq<byte>, g: seq<byte>, bb: seq<byte>, s: seq<byte>,
                    ba: seq<byte>)
    ensures h + ea + x + eb + g + bb + s + ba == (h + ea) + x + (eb + g + bb + s + ba)
    ensures h + ea + x + eb + g + bb + s + ba == (h + ea + x + eb + g + bb) + s + ba
  {
    Regroup4(h + ea + x, eb, g, bb, s + ba);
    Assoc(h + ea + x + eb + g + bb, s, ba);
    assert eb + g + bb + (s + ba) == eb + g + bb + s + ba;
  }

  lemma LaidKeys(d: seq<byte>, items: seq<Item>, keySize: nat)
    requires Laid(d, items, keySize)
    ensures KeysOf(items, keySize)
  {
  }

  lemma RoomTail(q: seq<byte>, g: seq<byte>, bb: seq<byte>, s: seq<byte>, ba: seq<byte>)
    ensures q + (g + bb + s + ba) == q + (g + (bb + s + ba))
  {
    Regroup2(g, bb, s, ba);
  }

  lemma EntriesSpace(items: seq<Item>, top: int, keySize: nat)
    requires KeysOf(items, keySize)
    ensures |Entries(items, top)| == EntrySpace(|items|, keySize)
  {
    EntriesSize(items, top, keySize);
  }

  /** Behind the last item the gap itself is the room. */
  lemma RoomAtEnd(d: seq<byte>, items: seq<Item>, keySize: nat, size: nat)
    returns (h: seq<byte>, x: seq<byte>, gap: seq<byte>, s: seq<byte>)
    requires Laid(d, items, keySize)
    requires NODE_HEAD + EntrySpace(|items|, keySize) + keySize + ITEM_HEAD + size + BodySize(items) <= |d|
    ensures d == Opened(h, items[..|items|], x, items[|items|..], gap, s, |d|)
    ensures |h| == NODE_HEAD && |x| == keySize + ITEM_HEAD && |s| == size && h == HeadOf(d)
    ensures BodySize(items[..|items|]) == BodySize(items)
    ensures |Entries(items[..|items|], |d|)| == EntrySpace(|items|, keySize)
    ensures |Bodies(items[..|items|])| == BodySize(items[..|items|])
  {
    hide Entries, Bodies, BodySize, Laid, EntrySpace, KeysOf, HeadOf;
    assert items[..|items|] == items && items[|items|..] == [];
    var g;
    h, g := Parts(d, items, keySize);
    var k := keySize + ITEM_HEAD;
    x, gap, s := g[..k], g[k..|g| - size], g[|g| - size..];
    NoItems(|d| - BodySize(items) - size);
    var q, ba := h + Entries(items, |d|), Bodies(items);
    assert g == x + gap + s;
    Regroup2(q, x, gap, s);
    assert q + x + [] + gap + [] + s + ba == q + x + gap + s + ba;
  }

  lemma NoItems(top: int)
    ensures Entries([], top) == [] && Bodies([]) == [] && BodySize([]) == 0
  {
  }

  lemma InsertedPage(d: seq<byte>, h: seq<byte>, items: seq<Item>, index: nat, c: Item, gap: seq<byte>, keySize: nat)
    requires index <= |items| && |c.key| == keySize && KeysOf(items, keySize) && |h| == NODE_HEAD
    requires d == Page3(h, items[..index], c, items[index..], gap, |d|)
    ensures var items' := items[..index] + [c] + items[index..];
      && Laid(d, items', keySize) && BodySize(items') == BodySize(items) + |c.value|
      && EntrySpace(|items'|, keySize) == EntrySpace(|items|, keySize) + keySize + ITEM_HEAD
    ensures HeadOf(d) == h
  {
    hide Entries, Bodies, BodySize, EntrySpace, Page, Page3, HeadOf;
    var a, b := items[..index], items[index..];
    PageOfThree(h, a, c, b, gap, |d|);
    MakeLaid(d, h, a + [c] + b, gap, keySize);
    BodiesConcat(a + [c], b);
    BodiesConcat(a, [c]);
    BodiesConcat(a, b);
    assert items == a + b;
    OneItem(c, 0);
    OneMoreEntry(|items|, keySize);
  }

  /** What moving the bodies from `index` on down by `size` makes of a page. */
  lemma LowerFacts(d: seq<byte>, items: seq<Item>, index: nat, keySize: nat, size: nat)
    returns (h: seq<byte>, g: seq<byte>, s: seq<byte>)
    requires Laid(d, items, keySize) && index < |items|
    requires size + NODE_HEAD + EntrySpace(|items|, keySize) + BodySize(items) <= |d|
    ensures var a, b, n := items[..index], items[index..], |d|;
      var low := n - BodySize(items);
      && BodySize(items) == BodySize(a) + BodySize(b) && 0 <= low - size && low + BodySize(b) <= n
      && Patch(d, low - size, d[low..low + BodySize(b)]) ==
         (h + Entries(a, n)) + Entries(b, n - BodySize(a)) + (g + (Bodies(b) + s + Bodies(a)))
      && h == HeadOf(d)
      && |h| == NODE_HEAD && |s| == size && |g| == n - NODE_HEAD - EntrySpace(|items|, keySize) - BodySize(items) - size
      && KeysOf(b, keySize)
      && |Entries(a, n)| == EntrySpace(index, keySize) && |Bodies(a)| == BodySize(a)
  {
    hide Entries, Bodies, BodySize, Laid, Patch, EntrySpace, Le32, FromLe32, KeysOf, HeadOf;
    var a, b, n := items[..index], items[index..], |d|;
    var gap;
    h, gap := PartsAt(d, items, index, keySize);
    var q, bb, ba := h + Entries(a, n) + Entries(b, n - BodySize(a)), Bodies(b), Bodies(a);
    ShiftBodies(q, gap, bb, ba, size);
    g := gap[..|gap| - size];
    s := (gap[|gap| - size..] + bb)[|bb|..];
    RoomTail(q, g, bb, s, ba);
  }

  /** What moving the bodies behind item `index` up over its body makes of a page. */
  lemma RaiseFacts(d: seq<byte>, items: seq<Item>, index: nat, keySize: nat) returns (h: seq<byte>, g: seq<byte>)
    requires Laid(d, items, keySize) && index + 1 < |items|
    ensures var a, c, xs, b, n := items[..index], items[index], items[index..], items[index + 1..], |d|;
      var low := n - BodySize(items);
      && 0 <= low && low + |c.value| + BodySize(b) <= n
      && Patch(d, low + |c.value|, d[low..low + BodySize(b)]) ==
         (h + Entries(a, n)) + Entries(xs, n - BodySize(a)) + (g + Bodies(b) + Bodies(a))
      && h == HeadOf(d)
      && |h| == NODE_HEAD && KeysOf(xs, keySize) && |Entries(a, n)| == EntrySpace(index, keySize)
      && |g + Bodies(b) + Bodies(a)| == n - NODE_HEAD - EntrySpace(|items|, keySize)
  {
    hide Entries, Bodies, BodySize, Laid, Patch, EntrySpace, Le32, FromLe32, KeysOf, HeadOf;
    var a, c, b, n := items[..index], items[index], items[index + 1..], |d|;
    var xs, gap := items[index..], [];
    h, gap := PartsAt(d, items, index, keySize);
    CutBodies(items, index);
    BodiesSize(b);
    var q, bb, v, ba := (h + Entries(a, n)) + Entries(xs, n - BodySize(a)), Bodies(b), c.value, Bodies(a);
    assert d == q + gap + (bb + v) + ba;
    RaiseShape(d, q, gap, bb, v, ba);
    g := gap + (bb + v)[..|v|];
  }

  /** What copying the entries and bodies from `half` on makes of the other page `r`. */
  lemma UpperFacts(d: seq<byte>, r: seq<byte>, items: seq<Item>, half: nat, keySize: nat)
    returns (h: seq<byte>, mid: seq<byte>)
    requires Laid(d, items, keySize) && half < |items| && |r| == |d|
    ensures var a, b, n := items[..half], items[half..], |d|;
      var at, low, eb, bytes := NODE_HEAD + EntrySpace(half, keySize), n - BodySize(items), EntrySpace(|b|, keySize),
        BodySize(b);
      && BodySize(items) == BodySize(a) + BodySize(b)
      && EntrySpace(|items|, keySize) == EntrySpace(half, keySize) + EntrySpace(|b|, keySize)
      && 0 <= low && low + bytes <= n && at + eb <= n && NODE_HEAD + eb <= n - bytes
      && Patch(Patch(r, NODE_HEAD, d[at..at + eb]), n - bytes, d[low..low + bytes]) == h +
         Entries(b, n - BodySize(a)) + (mid + Bodies(b))
      && |h| == NODE_HEAD && KeysOf(b, keySize) && h == HeadOf(r)
  {
    hide Entries, Bodies, BodySize, Laid, Patch, EntrySpace, Le32, FromLe32, KeysOf;
    var a, b, n := items[..half], items[half..], |d|;
    var was, gap := PartsAt(d, items, half, keySize);
    var eb, bb := Entries(b, n - BodySize(a)), Bodies(b);
    UpperHalf(d, was, Entries(a, n), eb, gap, bb, Bodies(a));
    TwoPatches(r, NODE_HEAD, eb, n - |bb|, bb);
    h, mid := r[..NODE_HEAD], r[NODE_HEAD + |eb|..n - |bb|];
  }

  /** Item `i` cut out of the list, as bodies. */
  lemma CutBodies(items: seq<Item>, i: nat)
    requires i < |items|
    ensures var a, c, b := items[..i], items[i], items[i + 1..];
      && Bodies(items[i..]) == Bodies(b) + c.value
      && BodySize(items) == BodySize(a) + |c.value| + BodySize(b)
      && BodySize(items[i..]) == |c.value| + BodySize(b)
      && BodySize(a + b) == BodySize(a) + BodySize(b)
  {
    hide Bodies, BodySize;
    var a, c, b := items[..i], items[i], items[i + 1..];
    assert items[i..] == [c] + b && items == a + ([c] + b);
    BodiesConcat([c], b);
    BodiesConcat(a, [c] + b);
    BodiesConcat(a, b);
    OneItem(c, 0);
  }

  /** Bodies `bb` moved up over the body `v` before them. */
  lemma RaiseShape(d: seq<byte>, q: seq<byte>, gap: seq<byte>, bb: seq<byte>, v: seq<byte>, ba: seq<byte>)
    requires d == q + gap + (bb + v) + ba
    ensures var low := |q| + |gap|;
      && low + |bb| + |v| <= |d| && d[low..low + |bb|] == bb
      && Patch(d, low + |v|, bb) == q + ((gap + (bb + v)[..|v|]) + bb + ba)
  {
    hide Patch;
    Assoc(q + gap, bb, v);
    MoveUp(q + gap, bb, v, ba);
    Gather(q, gap, (bb + v)[..|v|], bb, ba);
  }

  lemma KeysWithout(items: seq<Item>, i: nat, keySize: nat)
    requires i < |items| && KeysOf(items, keySize)
    ensures KeysOf(items[..i] + items[i + 1..], keySize)
  {
  }

  lemma Gather(q: seq<byte>, gap: seq<byte>, junk: seq<byte>, bb: seq<byte>, ba: seq<byte>)
    ensures q + gap + junk + bb + ba == q + ((gap + junk) + bb + ba)
  {
    Regroup2(q, gap + junk, bb, ba);
    Assoc(q, gap, junk);
  }

  lemma FirstEntry(xs: seq<Item>, top: int, keySize: nat)
    requires xs != [] && KeysOf(xs, keySize)
    ensures Entries(xs, top) == Entry(xs[0], top) + Entries(xs[1..], top - |xs[0].value|)
    ensures |Entry(xs[0], top)| == keySize + ITEM_HEAD
  {
  }

  /** Entries moved down over the first one, together with `k` bytes of what follows. */
  lemma DropEntry(q: seq<byte>, e: seq<byte>, eb: seq<byte>, t: seq<byte>, k: nat)
    requires |e| == k <= |t|
    ensures var d := q + (e + eb) + t;
      && |q| + k + |eb| + k <= |d|
      && Patch(d, |q|, d[|q| + k..|q| + k + |eb| + k]) == q + eb + (t[..k] + t)
  {
    hide Patch;
    var x, t0, t1 := eb + t[..k], t[..k], t[k..];
    assert t == t0 + t1;
    assert q + (e + eb) + t == q + e + x + t1;
    MoveDown(q, e, x, t1);
    assert (e + x)[|x|..] == t0;
    assert q + x + t0 + t1 == q + eb + (t0 + t);
  }

  lemma RemovedPage(d: seq<byte>, h: seq<byte>, a: seq<Item>, b: seq<Item>, g: seq<byte>, t0: seq<byte>, keySize: nat)
    requires |h| == NODE_HEAD && KeysOf(a + b, keySize)
    requires d == (h + Entries(a, |d|)) + Entries(b, |d| - BodySize(a)) + (t0 + (g + Bodies(b) + Bodies(a)))
    ensures Laid(d, a + b, keySize) && HeadOf(d) == h
  {
    hide Entries, Bodies, BodySize, Page, KeysOf, Laid, HeadOf;
    var q := h + Entries(a, |d|) + Entries(b, |d| - BodySize(a));
    PageOfTwo(h, a, b, t0 + g, |d|);
    Gather2(q, t0, g, Bodies(b), Bodies(a));
    MakeLaid(d, h, a + b, t0 + g, keySize);
  }

  lemma Gather2(q: seq<byte>, t0: seq<byte>, g: seq<byte>, bb: seq<byte>, ba: seq<byte>)
    ensures q + (t0 + (g + bb + ba)) == q + (t0 + g) + bb + ba
  {
    assert t0 + (g + bb + ba) == (t0 + g) + bb + ba;
    Regroup2(q, t0 + g, bb, ba);
  }

  /** Forgetting the last item leaves its entry and its body in the gap. */
  lemma LastRemoved(d: seq<byte>, items: seq<Item>, keySize: nat)
    requires Laid(d, items, keySize) && items != []
    ensures Laid(d, items[..|items| - 1], keySize)
  {
    hide Entries, Bodies, BodySize, Page, Page3, Laid, Entry;
    LaidKeys(d, items, keySize);
    var n := |items| - 1;
    var h, gap := Parts(d, items, keySize);
    var a, c := items[..n], items[n];
    assert items == a + [c] + [];
    PageOfThree(h, a, c, [], gap, |d|);
    NoItems(|d| - BodySize(a) - |c.value|);
    var e := Entry(c, |d| - BodySize(a));
    LastShape(h, a, c, e, gap, |d|);
    MakeLaid(d, h, a, e + gap + c.value, keySize);
  }

  lemma LastShape(h: seq<byte>, a: seq<Item>, c: Item, e: seq<byte>, gap: seq<byte>, n: int)
    requires e == Entry(c, n - BodySize(a))
    ensures Page3(h, a, c, [], gap, n) == Page(h, a, e + gap + c.value, n)
  {
    hide Entries, Bodies, BodySize, Entry;
    NoItems(n - BodySize(a) - |c.value|);
    var q := h + Entries(a, n);
    assert q + e + [] + gap + [] + c.value == q + e + gap + c.value;
    Regroup2(q, e, gap, c.value);
  }

  lemma EntrySpaceAdd(m: nat, n: nat, keySize: nat)
    ensures EntrySpace(m + n, keySize) == EntrySpace(m, keySize) + EntrySpace(n, keySize)
  {
  }

  lemma NoSpace(keySize: nat)
    ensures EntrySpace(0, keySize) == 0
  {
  }

  lemma BodyInPage(d: seq<byte>, h: seq<byte>, a: seq<Item>, c: Item, b: seq<Item>, gap: seq<byte>)
    requires d == Page3(h, a, c, b, gap, |d|) && |Bodies(a)| == BodySize(a)
    ensures var at := |d| - BodySize(a) - |c.value|;
      && 0 <= at && at + |c.value| <= |d| && d[at..at + |c.value|] == c.value
  {
    hide Entries, Bodies, BodySize, Entry;
    var q := h + Entries(a, |d|) + Entry(c, |d| - BodySize(a)) + Entries(b, |d| - BodySize(a) - |c.value|) + gap +
      Bodies(b);
    assert d == q + c.value + Bodies(a);
  }

  /** Where the entries and bodies of the upper half lie. */
  lemma UpperHalf(d: seq<byte>, h: seq<byte>, ea: seq<byte>, eb: seq<byte>, gap: seq<byte>, bb: seq<byte>,
                  ba: seq<byte>)
    requires d == h + ea + eb + gap + bb + ba
    ensures var at, low := |h| + |ea|, |d| - |ba| - |bb|;
      && 0 <= at && at + |eb| <= |d| && 0 <= low && d[at..at + |eb|] == eb && d[low..low + |bb|] == bb
  {
    assert d == (h + ea) + eb + (gap + bb + ba);
  }

  lemma TwoPatches(r: seq<byte>, at: nat, x: seq<byte>, to: nat, y: seq<byte>)
    requires at + |x| <= to && to + |y| == |r|
    ensures Patch(Patch(r, at, x), to, y) == r[..at] + x + (r[at + |x|..to] + y)
  {
  }

  /** A page that forgets the items from `i` on. */
  lemma LowerHalf(d: seq<byte>, items: seq<Item>, i: nat, keySize: nat)
    requires Laid(d, items, keySize) && i <= |items|
    ensures Laid(d, items[..i], keySize)
  {
    hide Entries, Bodies, BodySize, Laid, EntrySpace, Page, KeysOf;
    var a, b := items[..i], items[i..];
    var h, gap := PartsAt(d, items, i, keySize);
    var eb, bb := Entries(b, |d| - BodySize(a)), Bodies(b);
    Regroup2(h + Entries(a, |d|), eb, gap, bb);
    HalfPage(h, a, eb + gap + bb, |d|);
    MakeLaid(d, h, a, eb + gap + bb, keySize);
  }

  lemma HalfPage(h: seq<byte>, a: seq<Item>, gap: seq<byte>, n: int)
    ensures Page(h, a, gap, n) == h + Entries(a, n) + gap + Bodies(a)
  {
  }

  /** Inserting the items one by one, the next one still fits. */
  lemma FitsNext(xs: seq<Item>, i: nat, keySize: nat)
    requires i < |xs|
    ensures EntrySpace(i + 1, keySize) == EntrySpace(i, keySize) + keySize + ITEM_HEAD
    ensures EntrySpace(i + 1, keySize) <= EntrySpace(|xs|, keySize)
    ensures BodySize(xs[0..i + 1]) == BodySize(xs[0..i]) + |xs[i].value| <= BodySize(xs)
  {
    hide BodySize, EntrySpace;
    OneMoreEntry(i, keySize);
    OneMoreBody(xs, 0, i);
    assert xs == xs[0..i + 1] + xs[i + 1..];
    BodiesConcat(xs[0..i + 1], xs[i + 1..]);
    EntrySpaceAdd(i + 1, |xs| - (i + 1), keySize);
  }
}
