/**
 The bytes of a leaf page of the B-tree (btree/btree.c).

 After a 16-byte node header come the entries, one per item in key order: the key, then
 the offset and the size of the body as 32-bit little-endian words.  Bodies fill the
 page from its end downwards, so the body of the first item comes last.
 */
module PageBytes {
  import opened Bytes

  const NODE_HEAD: nat := 16
  const ITEM_HEAD: nat := 8

  datatype Item = Item(key: seq<byte>, value: seq<byte>)

  // -------------------------------------------------------------------------
  // 32-bit words

  function Le32(n: int): (b: seq<byte>)
    ensures |b| == 4
  {
    var x := n % 0x1_0000_0000;
    [x % 256, x / 0x100 % 256, x / 0x1_0000 % 256, x / 0x100_0000]
  }

  function FromLe32(b: seq<byte>): int
    requires |b| == 4
  {
    (b[0] as int) + 0x100 * (b[1] as int) + 0x1_0000 * (b[2] as int) + 0x100_0000 * (b[3] as int)
  }

  lemma Le32RoundTrip(n: int)
    ensures FromLe32(Le32(n)) == n % 0x1_0000_0000
  {
    var x := n % 0x1_0000_0000;
    var a := x / 0x100;
    var c := x / 0x1_0000;
    assert c == a / 256 && x / 0x100_0000 == c / 256;
  }

  /** `word += diff` on an unsigned 32-bit word. */
  lemma Le32Add(n: int, diff: int)
    ensures Le32(FromLe32(Le32(n)) + diff) == Le32(n + diff)
  {
    hide FromLe32, Le32;
    Le32RoundTrip(n);
    Le32Mod(n % 0x1_0000_0000 + diff, n + diff);
  }

  lemma Le32Mod(n: int, m: int)
    requires n % 0x1_0000_0000 == m % 0x1_0000_0000
    ensures Le32(n) == Le32(m)
  {
  }

  // -------------------------------------------------------------------------
  // Layout

  function BodySize(items: seq<Item>): nat {
    if items == [] then 0 else |items[0].value| + BodySize(items[1..])
  }

  /** The entry of an item whose body ends where `top` says. */
  function Entry(item: Item, top: int): seq<byte> {
    item.key + Le32(top - |item.value|) + Le32(|item.value|)
  }

  /** The entries of items whose bodies lie below `top`. */
  function Entries(items: seq<Item>, top: int): seq<byte> {
    if items == [] then [] else Entry(items[0], top) + Entries(items[1..], top - |items[0].value|)
  }

  /** The bodies, last item first. */
  function Bodies(items: seq<Item>): seq<byte> {
    if items == [] then [] else Bodies(items[1..]) + items[0].value
  }

  predicate KeysOf(items: seq<Item>, keySize: nat) {
    forall i :: 0 <= i < |items| ==> |items[i].key| == keySize
  }

  lemma {:induction false} EntriesSize(items: seq<Item>, top: int, keySize: nat)
    requires KeysOf(items, keySize)
    ensures |Entries(items, top)| == |items| * (keySize + ITEM_HEAD)
  {
    if items != [] {
      EntriesSize(items[1..], top - |items[0].value|, keySize);
      var n, k := |items|, keySize + ITEM_HEAD;
      assert n * k == (n - 1) * k + k;
    }
  }

  lemma Assoc(a: seq<byte>, b: seq<byte>, c: seq<byte>)
    ensures a + (b + c) == a + b + c
  {
  }

  lemma {:induction false} EntriesConcat(a: seq<Item>, b: seq<Item>, top: int)
    ensures Entries(a + b, top) == Entries(a, top) + Entries(b, top - BodySize(a))
  {
    hide Entries, Entry, BodySize;
    if a == [] {
      assert a + b == b;
      NoEntries(top);
      assert [] + Entries(b, top) == Entries(b, top);
    } else {
      var c, t, next := a[0], a[1..], top - |a[0].value|;
      EntriesConcat(t, b, next);
      assert a == [c] + t && a + b == [c] + (t + b);
      EntriesCons(c, t, top);
      EntriesCons(c, t + b, top);
      Assoc(Entry(c, top), Entries(t, next), Entries(b, top - BodySize(a)));
    }
  }

  lemma NoEntries(top: int)
    ensures Entries([], top) == [] && BodySize([]) == 0
  {
  }

  lemma EntriesCons(c: Item, t: seq<Item>, top: int)
    ensures Entries([c] + t, top) == Entry(c, top) + Entries(t, top - |c.value|)
    ensures BodySize([c] + t) == |c.value| + BodySize(t)
  {
    assert ([c] + t)[1..] == t;
  }

  lemma {:induction false} BodiesConcat(a: seq<Item>, b: seq<Item>)
    ensures Bodies(a + b) == Bodies(b) + Bodies(a)
    ensures BodySize(a + b) == BodySize(a) + BodySize(b)
  {
    if a == [] {
      assert a + b == b;
    } else {
      assert (a + b)[1..] == a[1..] + b;
      BodiesConcat(a[1..], b);
      assert Bodies(b) + Bodies(a[1..]) + a[0].value == Bodies(b) + Bodies(a);
    }
  }

  lemma {:induction false} BodiesSize(items: seq<Item>)
    ensures |Bodies(items)| == BodySize(items)
  {
    if items != [] {
      BodiesSize(items[1..]);
    }
  }

  lemma OneItem(item: Item, top: int)
    ensures Entries([item], top) == Entry(item, top)
    ensures Bodies([item]) == item.value && BodySize([item]) == |item.value|
  {
    assert [item][1..] == [];
    assert Entries([item], top) == Entry(item, top) + [];
    assert Bodies([item]) == [] + item.value;
  }

  /** The list cut around item `i`. */
  lemma CutItems(items: seq<Item>, i: nat, top: int, keySize: nat)
    requires i < |items| && KeysOf(items, keySize)
    ensures Entries(items, top) ==
            Entries(items[..i], top) + Entry(items[i], top - BodySize(items[..i])) +
            Entries(items[i + 1..], top - BodySize(items[..i + 1]))
    ensures |Entries(items[..i], top)| == i * (keySize + ITEM_HEAD)
    ensures BodySize(items[..i + 1]) == BodySize(items[..i]) + |items[i].value|
    ensures BodySize(items) == BodySize(items[..i + 1]) + BodySize(items[i + 1..])
  {
    hide Entries, Bodies, BodySize;
    var a, c, b := items[..i], items[i], items[i + 1..];
    assert items[..i + 1] == a + [c] && items == (a + [c]) + b;
    EntriesConcat(a + [c], b, top);
    EntriesConcat(a, [c], top);
    BodiesConcat(a + [c], b);
    BodiesConcat(a, [c]);
    OneItem(c, top - BodySize(a));
    EntriesSize(a, top, keySize);
  }

  /** The page of `n` bytes that holds `items`: header, entries, a gap, bodies. */
  ghost function Page(h: seq<byte>, items: seq<Item>, gap: seq<byte>, n: int): seq<byte> {
    h + Entries(items, n) + gap + Bodies(items)
  }

  /** The same page seen as items `a` and then `b`. */
  ghost function Page2(h: seq<byte>, a: seq<Item>, b: seq<Item>, gap: seq<byte>, n: int): seq<byte> {
    h + Entries(a, n) + Entries(b, n - BodySize(a)) + gap + Bodies(b) + Bodies(a)
  }

  /** The same page seen as items `a`, one item and items `b`. */
  ghost function Page3(h: seq<byte>, a: seq<Item>, c: Item, b: seq<Item>, gap: seq<byte>, n: int): seq<byte> {
    h + Entries(a, n) + Entry(c, n - BodySize(a)) + Entries(b, n - BodySize(a) - |c.value|) +
    gap + Bodies(b) + c.value + Bodies(a)
  }

  lemma PageOfTwo(h: seq<byte>, a: seq<Item>, b: seq<Item>, gap: seq<byte>, n: int)
    ensures Page(h, a + b, gap, n) == Page2(h, a, b, gap, n)
  {
    hide Entries, Bodies, BodySize;
    EntriesConcat(a, b, n);
    BodiesConcat(a, b);
    Regroup(h, Entries(a, n), Entries(b, n - BodySize(a)), gap, Bodies(b), Bodies(a));
  }

  lemma Regroup(h: seq<byte>, e: seq<byte>, f: seq<byte>, g: seq<byte>, x: seq<byte>, y: seq<byte>)
    ensures h + (e + f) + g + (x + y) == h + e + f + g + x + y
  {
  }

  lemma PageOfThree(h: seq<byte>, a: seq<Item>, c: Item, b: seq<Item>, gap: seq<byte>, n: int)
    ensures Page(h, a + [c] + b, gap, n) == Page3(h, a, c, b, gap, n)
  {
    hide Entries, Bodies, BodySize, Entry;
    PageOfTwo(h, a + [c], b, gap, n);
    EntriesConcat(a, [c], n);
    BodiesConcat(a, [c]);
    OneItem(c, n - BodySize(a));
    Regroup3(h, Entries(a, n), Entry(c, n - BodySize(a)), Entries(b, n - BodySize(a) - |c.value|),
             gap, Bodies(b), c.value, Bodies(a));
  }

  lemma Regroup3(h: seq<byte>, e: seq<byte>, f: seq<byte>, t: seq<byte>, g: seq<byte>, x: seq<byte>, v: seq<byte>,
                 y: seq<byte>)
    ensures h + (e + f) + t + g + x + (v + y) == h + e + f + t + g + x + v + y
  {
    Assoc(h, e, f);
    Assoc(h + e + f + t + g + x, v, y);
  }

  /** `d` is a page that holds `items`. */
  ghost predicate Laid(d: seq<byte>, items: seq<Item>, keySize: nat) {
    KeysOf(items, keySize) && exists h, gap :: |h| == NODE_HEAD && d == Page(h, items, gap, |d|)
  }

  // -------------------------------------------------------------------------
  // Copying

  /** `bytes` written over `s` at `at`. */
  function Patch(s: seq<byte>, at: nat, bytes: seq<byte>): (r: seq<byte>)
    requires at + |bytes| <= |s|
    ensures |r| == |s|
  {
    s[..at] + bytes + s[at + |bytes|..]
  }

  /** A patched sequence, byte by byte. */
  lemma PatchIs(s: seq<byte>, at: nat, bytes: seq<byte>, r: seq<byte>)
    requires at + |bytes| <= |s| == |r|
    requires forall w :: 0 <= w < |s| ==> r[w] == if at <= w < at + |bytes| then bytes[w - at] else s[w]
    ensures r == Patch(s, at, bytes)
  {
  }

  lemma PatchMid(p: seq<byte>, m: seq<byte>, s: seq<byte>, m': seq<byte>)
    requires |m| == |m'|
    ensures Patch(p + m + s, |p|, m') == p + m' + s
  {
  }

  /** Moving `x` up over the gap behind it. */
  lemma MoveUp(p: seq<byte>, x: seq<byte>, gap: seq<byte>, s: seq<byte>)
    ensures var d := p + x + gap + s;
      && d[|p|..|p| + |x|] == x
      && Patch(d, |p| + |gap|, x) == p + (x + gap)[..|gap|] + x + s
  {
    var d, y := p + x + gap + s, x + gap;
    assert d == (p + y[..|gap|]) + y[|gap|..] + s;
    PatchMid(p + y[..|gap|], y[|gap|..], s, x);
  }

  /** Moving `x` down over the gap before it. */
  lemma MoveDown(p: seq<byte>, gap: seq<byte>, x: seq<byte>, s: seq<byte>)
    ensures var d := p + gap + x + s;
      && d[|p| + |gap|..|p| + |gap| + |x|] == x
      && Patch(d, |p|, x) == p + x + (gap + x)[|x|..] + s
  {
    var d, y := p + gap + x + s, gap + x;
    assert d == p + y[..|x|] + (y[|x|..] + s);
    PatchMid(p, y[..|x|], y[|x|..] + s, x);
    assert p + x + (y[|x|..] + s) == p + x + y[|x|..] + s;
  }

  /** memcpy from another buffer. */
  method CopyIn(data: array<byte>, at: nat, bytes: seq<byte>)
    requires at + |bytes| <= data.Length
    modifies data
    ensures data[..] == Patch(old(data[..]), at, bytes)
  {
    hide Patch;
    for k := 0 to |bytes|
      invariant forall w :: 0 <= w < data.Length ==>
        data[w] == if at <= w < at + k then bytes[w - at] else old(data[w])
    {
      data[at + k] := bytes[k];
    }
    PatchIs(old(data[..]), at, bytes, data[..]);
  }

  /** memmove inside one buffer: the bytes that were at `src` end up at `dst`, even when they overlap. */
  method Move(data: array<byte>, dst: nat, src: nat, n: nat)
    requires dst + n <= data.Length && src + n <= data.Length
    modifies data
    ensures data[..] == Patch(old(data[..]), dst, old(data[..])[src..src + n])
  {
    hide Patch;
    if dst <= src {
      for k := 0 to n
        invariant forall w :: 0 <= w < data.Length ==>
          data[w] == if dst <= w < dst + k then old(data[w - dst + src]) else old(data[w])
      {
        data[dst + k] := data[src + k];
      }
    } else {
      for k := n downto 0
        invariant forall w :: 0 <= w < data.Length ==>
          data[w] == if dst + k <= w < dst + n then old(data[w - dst + src]) else old(data[w])
      {
        data[dst + k] := data[src + k];
      }
    }
    PatchIs(old(data[..]), dst, old(data[..])[src..src + n], data[..]);
  }
}
