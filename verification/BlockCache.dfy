/**
 The block cache of the B-tree in memory (btree/btree.c): a circular doubly linked
 list of nodes and a hash table of chains through them.  Each field of a node is a map
 from addresses.  Every method is proved to do what CacheSpec says.
 */
module BlockCache {
  import opened Options
  import opened Links
  import opened Ring
  import opened CacheSpec

  /** The nodes `s` hold the entries `es`, in order. */
  ghost predicate Mapped(entry: map<Addr, Entry>, s: seq<Addr>, es: seq<Entry>) {
    |s| == |es| && forall i :: 0 <= i < |s| ==> s[i] in entry && entry[s[i]] == es[i]
  }

  ghost predicate Injective(entry: map<Addr, Entry>) {
    forall a, b :: a in entry && b in entry && entry[a] == entry[b] ==> a == b
  }

  lemma {:induction false} WithoutSkip(s: seq<Addr>, k: nat)
    requires Distinct(s) && k < |s|
    ensures Without(s, s[k]) == Skip(s, k)
  {
    if k > 0 {
      assert s[0] != s[k];
      WithoutSkip(s[1..], k - 1);
      assert [s[0]] + Skip(s[1..], k - 1) == Skip(s, k);
    }
  }

  lemma {:induction false} MappedWithout(entry: map<Addr, Entry>, s: seq<Addr>, es: seq<Entry>, a: Addr)
    requires Mapped(entry, s, es) && Injective(entry) && a in entry
    ensures Mapped(entry, Without(s, a), Without(es, entry[a]))
    ensures forall x :: x in Without(s, a) ==> x in s
  {
    hide Mapped, Injective, Without;
    if s == [] {
      MappedFacts(entry, s, es);
      NoneWithout(a);
      NoneWithout(entry[a]);
    } else {
      MappedFacts(entry, s, es);
      WithoutFirst(s, a);
      WithoutFirst(es, entry[a]);
      MappedFirst(entry, s[0], a);
      if s[0] != a {
        MappedWithout(entry, s[1..], es[1..], a);
        MappedCons(entry, s[0], es[0], Without(s[1..], a), Without(es[1..], entry[a]));
      }
    }
  }

  lemma NoneWithout<T>(e: T)
    ensures Without([], e) == []
  {
  }

  lemma WithoutFirst<T>(s: seq<T>, e: T)
    requires s != []
    ensures Without(s, e) == if s[0] == e then s[1..] else [s[0]] + Without(s[1..], e)
  {
  }

  lemma MappedFacts(entry: map<Addr, Entry>, s: seq<Addr>, es: seq<Entry>)
    requires Mapped(entry, s, es)
    ensures |s| == |es| && Mapped(entry, [], [])
    ensures s != [] ==> s[0] in entry && entry[s[0]] == es[0] && Mapped(entry, s[1..], es[1..])
  {
  }

  lemma MappedFirst(entry: map<Addr, Entry>, x: Addr, a: Addr)
    requires Injective(entry) && x in entry && a in entry
    ensures x == a <==> entry[x] == entry[a]
  {
  }

  lemma MappedCons(entry: map<Addr, Entry>, x: Addr, e: Entry, s: seq<Addr>, es: seq<Entry>)
    requires Mapped(entry, s, es) && x in entry && entry[x] == e
    ensures Mapped(entry, [x] + s, [e] + es)
  {
    var t, et := [x] + s, [e] + es;
    assert forall i :: 1 <= i < |t| ==> t[i] == s[i - 1] && et[i] == es[i - 1];
  }

  /** Taking a node out of a chain is taking its entry out of the chain of entries. */
  lemma MappedCut(entry: map<Addr, Entry>, s: seq<Addr>, es: seq<Entry>, a: Addr)
    requires Mapped(entry, s, es) && Injective(entry) && a in entry
    ensures Mapped(entry, Cut(s, a), Cut(es, entry[a]))
    ensures forall x :: x in Cut(s, a) ==> x in s
  {
    hide Without;
    MappedWithout(entry, s, es, a);
    if s != [] {
      assert s[0] in entry && entry[s[0]] == es[0];
    }
  }

  lemma {:induction false} GoneFromWithout(s: seq<Addr>, a: Addr)
    requires Distinct(s)
    ensures a !in Without(s, a)
  {
    if s != [] && s[0] != a {
      GoneFromWithout(s[1..], a);
    } else if s != [] {
      assert forall i :: 0 <= i < |s| - 1 ==> s[1..][i] == s[i + 1];
    }
  }

  /** Held blocks come first in the ring, empty nodes after them. */
  ghost predicate HeldOk(ring: seq<Addr>, entry: map<Addr, Entry>, held: seq<Entry>, empty: nat,
                         blocknr: map<Addr, nat>, block: map<Addr, Option<Block>>)
  {
    |ring| == |held| + empty &&
    (forall i :: 0 <= i < |held| ==> Holds(entry, blocknr, block, ring[i], held[i])) &&
    (forall i :: |held| <= i < |ring| ==> ring[i] !in entry && ring[i] in block && block[ring[i]] == None) &&
    (forall a :: a in entry ==> a in ring)
  }

  ghost predicate Holds(entry: map<Addr, Entry>, blocknr: map<Addr, nat>, block: map<Addr, Option<Block>>, a: Addr,
                        e: Entry) {
    a in entry && entry[a] == e && a in blocknr && blocknr[a] == e.blocknr && a in block && block[a] == Some(e.block)
  }

  /** The position of a node that holds a block. */
  lemma HeldAt(ring: seq<Addr>, entry: map<Addr, Entry>, held: seq<Entry>, empty: nat,
               blocknr: map<Addr, nat>, block: map<Addr, Option<Block>>, a: Addr) returns (i: nat)
    requires HeldOk(ring, entry, held, empty, blocknr, block) && a in entry
    ensures i < |held| <= |ring| && ring[i] == a && Holds(entry, blocknr, block, a, held[i])
  {
    var k :| 0 <= k < |ring| && ring[k] == a;
    i := k;
  }

  lemma HeldInjective(ring: seq<Addr>, entry: map<Addr, Entry>, held: seq<Entry>, empty: nat,
                      blocknr: map<Addr, nat>, block: map<Addr, Option<Block>>)
    requires HeldOk(ring, entry, held, empty, blocknr, block) && Newest(held)
    ensures Injective(entry)
  {
    forall a, b | a in entry && b in entry && entry[a] == entry[b]
      ensures a == b
    {
      var i := HeldAt(ring, entry, held, empty, blocknr, block, a);
      var j := HeldAt(ring, entry, held, empty, blocknr, block, b);
      assert i < j ==> held[i].stamp > held[j].stamp;
      assert j < i ==> held[j].stamp > held[i].stamp;
    }
  }

  /** The node at position `i` gives up its block and moves to the end of the ring. */
  lemma HeldEject(ring: seq<Addr>, entry: map<Addr, Entry>, held: seq<Entry>, empty: nat,
                  blocknr: map<Addr, nat>, block: map<Addr, Option<Block>>, i: nat)
    requires HeldOk(ring, entry, held, empty, blocknr, block) && Distinct(ring) && Newest(held) && i < |held|
    ensures i < |ring|
    ensures HeldOk(Skip(ring, i) + [ring[i]], entry - {ring[i]}, Without(held, held[i]), empty + 1,
                   blocknr, block[ring[i] := None])
  {
    hide Without, Skip, Distinct, Newest, Holds, HeldOk;
    assert i < |ring| by {
      HeldSize(ring, entry, held, empty, blocknr, block);
    }
    var a := ring[i];
    var r := Skip(ring, i) + [a];
    SkipIs(ring, i);
    EntrySkip(held, i);
    var entry', held', block' := entry - {a}, Without(held, held[i]), block[a := None];
    EjectAll(ring, entry, held, empty, blocknr, block, i, r, entry', held', block');
    EjectMembers(ring, entry, held, empty, blocknr, block, i);
    HeldFromAt(r, entry', held', empty + 1, blocknr, block');
  }

  lemma HeldSize(ring: seq<Addr>, entry: map<Addr, Entry>, held: seq<Entry>, empty: nat,
                 blocknr: map<Addr, nat>, block: map<Addr, Option<Block>>)
    requires HeldOk(ring, entry, held, empty, blocknr, block)
    ensures |ring| == |held| + empty
  {
  }

  lemma EjectMembers(ring: seq<Addr>, entry: map<Addr, Entry>, held: seq<Entry>, empty: nat,
                     blocknr: map<Addr, nat>, block: map<Addr, Option<Block>>, i: nat)
    requires HeldOk(ring, entry, held, empty, blocknr, block) && i < |held|
    ensures |ring| == |held| + empty
    ensures var r := Skip(ring, i) + [ring[i]]; forall b :: b in entry - {ring[i]} ==> b in r
  {
    hide Skip, Holds;
    SkipIs(ring, i);
    var r := Skip(ring, i) + [ring[i]];
    forall b | b in entry - {ring[i]}
      ensures b in r
    {
      var y := HeldAt(ring, entry, held, empty, blocknr, block, b);
      assert r[if y < i then y else y - 1] == b;
    }
  }

  lemma EjectAll(ring: seq<Addr>, entry: map<Addr, Entry>, held: seq<Entry>, empty: nat,
                 blocknr: map<Addr, nat>, block: map<Addr, Option<Block>>, i: nat,
                 r: seq<Addr>, entry': map<Addr, Entry>, held': seq<Entry>, block': map<Addr, Option<Block>>)
    requires HeldOk(ring, entry, held, empty, blocknr, block) && Distinct(ring) && Newest(held) && i < |held|
    requires r == Skip(ring, i) + [ring[i]] && entry' == entry - {ring[i]}
    requires held' == Without(held, held[i]) && block' == block[ring[i] := None]
    ensures forall x :: 0 <= x < |r| ==> EjectedAt(r, entry', held', blocknr, block', x)
  {
    hide Without, Distinct, Newest, Holds, Skip;
    SkipIs(ring, i);
    forall x | 0 <= x < |r|
      ensures EjectedAt(r, entry', held', blocknr, block', x)
    {
      EjectAt(ring, entry, held, empty, blocknr, block, i, x);
    }
  }

  ghost predicate EjectedAt(r: seq<Addr>, entry: map<Addr, Entry>, h: seq<Entry>,
                            blocknr: map<Addr, nat>, block: map<Addr, Option<Block>>, x: nat)
    requires x < |r|
  {
    if x < |h| then Holds(entry, blocknr, block, r[x], h[x])
    else r[x] !in entry && r[x] in block && block[r[x]] == None
  }

  lemma HeldFromAt(r: seq<Addr>, entry: map<Addr, Entry>, h: seq<Entry>, empty: nat,
                   blocknr: map<Addr, nat>, block: map<Addr, Option<Block>>)
    requires |r| == |h| + empty
    requires forall x :: 0 <= x < |r| ==> EjectedAt(r, entry, h, blocknr, block, x)
    requires forall b :: b in entry ==> b in r
    ensures HeldOk(r, entry, h, empty, blocknr, block)
  {
    hide Holds;
    forall i | 0 <= i < |r|
      ensures i < |h| ==> Holds(entry, blocknr, block, r[i], h[i])
      ensures i >= |h| ==> r[i] !in entry && r[i] in block && block[r[i]] == None
    {
      assert EjectedAt(r, entry, h, blocknr, block, i);
    }
  }

  lemma EjectAt(ring: seq<Addr>, entry: map<Addr, Entry>, held: seq<Entry>, empty: nat,
                blocknr: map<Addr, nat>, block: map<Addr, Option<Block>>, i: nat, x: nat)
    requires HeldOk(ring, entry, held, empty, blocknr, block) && Distinct(ring) && Newest(held)
    requires i < |held| && x < |ring|
    ensures EjectedAt(Skip(ring, i) + [ring[i]], entry - {ring[i]}, Without(held, held[i]), blocknr,
                      block[ring[i] := None], x)
  {
    hide Without, Skip, Newest, Distinct;
    SkipIs(ring, i);
    EntrySkip(held, i);
    if x < |ring| - 1 {
      var y := if x < i then x else x + 1;
      Apart(ring, y, i);
      if x < |held| - 1 {
        assert Holds(entry, blocknr, block, ring[y], held[y]);
      }
    }
  }

  lemma {:induction false} EntrySkip(s: seq<Entry>, k: nat)
    requires Newest(s) && k < |s|
    ensures |Without(s, s[k])| == |s| - 1
    ensures forall x :: 0 <= x < |s| - 1 ==> Without(s, s[k])[x] == s[if x < k then x else x + 1]
  {
    if k > 0 {
      assert s[0].stamp > s[k].stamp;
      EntrySkip(s[1..], k - 1);
      assert s[1..][k - 1] == s[k];
      var w := Without(s[1..], s[k]);
      forall x | 0 <= x < |s| - 1
        ensures Without(s, s[k])[x] == s[if x < k then x else x + 1]
      {
        if x > 0 {
          assert Without(s, s[k])[x] == w[x - 1];
        }
      }
    }
  }

  /** A node outside the held part takes a new block and leads the ring. */
  lemma HeldAdd(ring: seq<Addr>, ring': seq<Addr>, entry: map<Addr, Entry>, held: seq<Entry>, empty: nat, empty': nat,
                blocknr: map<Addr, nat>, block: map<Addr, Option<Block>>, a: Addr, e: Entry)
    requires HeldOk(ring, entry, held, empty, blocknr, block) && Distinct(ring') && a !in entry
    requires (empty' == empty && ring' == [a] + ring) ||
             (empty' + 1 == empty && a == ring[|ring| - 1] && ring' == [a] + ring[..|ring| - 1])
    ensures HeldOk(ring', entry[a := e], [e] + held, empty', blocknr[a := e.blocknr], block[a := Some(e.block)])
  {
    var h, entry', blocknr', block' := [e] + held, entry[a := e], blocknr[a := e.blocknr], block[a := Some(e.block)];
    assert ring'[0] == a;
    assert forall x :: 0 < x < |ring'| ==> ring'[x] == ring[x - 1];
    forall x | 0 <= x < |ring'|
      ensures EjectedAt(ring', entry', h, blocknr', block', x)
    {
      if x > 0 {
        Apart(ring', x, 0);
        if x < |h| {
          assert Holds(entry, blocknr, block, ring[x - 1], held[x - 1]);
        }
      }
    }
    forall b | b in entry'
      ensures b in ring'
    {
      if b != a {
        var y := HeldAt(ring, entry, held, empty, blocknr, block, b);
        assert ring'[y + 1] == b;
      }
    }
    hide HeldOk;
    HeldFromAt(ring', entry', h, empty', blocknr', block');
  }

  ghost predicate AllMapped(entry: map<Addr, Entry>, chains: seq<seq<Addr>>, es: seq<seq<Entry>>) {
    |chains| == |es| && forall b :: 0 <= b < |chains| ==> Mapped(entry, chains[b], es[b])
  }

  /** The chains with `node` cut out of chain `k`. */
  ghost function CutChain(chains: seq<seq<Addr>>, k: nat, node: Addr): seq<seq<Addr>> {
    if k < |chains| then chains[k := Cut(chains[k], node)] else chains
  }

  /** Unhashing one node, as entries: it is in no chain any more. */
  lemma UnhashMapped(entry: map<Addr, Entry>, chains: seq<seq<Addr>>, c: Cache, node: Addr, k: nat)
    requires 0 < c.size == |c.chains| == |c.cleared| && node in entry && k == entry[node].blocknr % c.size
    requires AllMapped(entry, chains, c.chains) && Injective(entry)
    requires forall b :: 0 <= b < |chains| ==> Distinct(chains[b]) && (b != k ==> node !in chains[b])
    ensures AllMapped(entry - {node}, CutChain(chains, k, node), CacheSpec.Unhash(c, entry[node]).chains)
  {
    hide Without;
    MappedCut(entry, chains[k], c.chains[k], node);
    GoneFromWithout(chains[k], node);
    forall b | 0 <= b < |chains|
      ensures Mapped(entry - {node}, CutChain(chains, k, node)[b], CacheSpec.Unhash(c, entry[node]).chains[b])
    {
      assert Mapped(entry, chains[b], c.chains[b]);
    }
  }

  /** The hash chains as linked lists, each in the bucket of its block numbers. */
  ghost predicate ChainsOk(size: nat, table: seq<Option<Addr>>, chains: seq<seq<Addr>>,
                           hash: map<Addr, Option<Addr>>, blocknr: map<Addr, nat>)
  {
    0 < size == |table| == |chains| &&
    (forall i :: 0 <= i < size ==> IsChain(hash, table[i], chains[i])) &&
    (forall i, a :: 0 <= i < size && a in chains[i] ==> a in blocknr && blocknr[a] % size == i)
  }

  ghost predicate RingOk(next: map<Addr, Addr>, prev: map<Addr, Addr>, ring: seq<Addr>, head: Addr, used: nat) {
    IsRing(next, prev, ring) && head == ring[0] && used == |ring|
  }

  /** Every node of the ring has all its fields. */
  ghost predicate Allocated(ring: seq<Addr>, hash: map<Addr, Option<Addr>>, blocknr: map<Addr, nat>,
                            block: map<Addr, Option<Block>>) {
    forall a :: a in ring ==> a in hash && a in blocknr && a in block
  }

  lemma ClearedChains(size: nat, table: seq<Option<Addr>>, chains: seq<seq<Addr>>,
                      hash: map<Addr, Option<Addr>>, blocknr: map<Addr, nat>, index: nat)
    requires ChainsOk(size, table, chains, hash, blocknr) && index < size
    ensures ChainsOk(size, table[index := None], chains[index := []], hash, blocknr)
    ensures |table| == |chains| == size
  {
    assert IsChain(hash, None, []);
  }

  function BlocksOf(es: seq<Entry>): (r: seq<Block>)
    ensures |r| == |es| && forall i :: 0 <= i < |r| ==> r[i] == es[i].block
  {
    seq(|es|, i requires 0 <= i < |es| => es[i].block)
  }

  /** What the node at place `j` of the ring holds. */
  ghost function HeldBlock(held: seq<Entry>, j: nat): Option<Block> {
    if j < |held| then Some(held[j].block) else None
  }

  /** In the middle of a close: the first `i` nodes of the ring are gone, the others as they were. */
  ghost predicate Closing(ring: seq<Addr>, next0: map<Addr, Addr>,
                          next: map<Addr, Addr>, block: map<Addr, Option<Block>>, held: seq<Entry>, i: nat,
                          nodes: seq<Addr>, blocks: seq<Block>)
  {
    && i <= |ring| && nodes == ring[..i] && blocks == BlocksOf(if i <= |held| then held[..i] else held)
    && (forall j :: i <= j < |ring| ==> ring[j] in next && ring[j] in next0 && next[ring[j]] == next0[ring[j]])
    && (forall j :: i <= j < |ring| ==> ring[j] in block && block[ring[j]] == HeldBlock(held, j))
    && (forall j :: 0 <= j < i ==> ring[j] !in next && ring[j] !in block)
  }

  lemma NoBlocks(held: seq<Entry>)
    ensures BlocksOf(held[..0]) == []
  {
  }

  /** One node more. */
  lemma NextClosing(ring: seq<Addr>, next0: map<Addr, Addr>, prev0: map<Addr, Addr>,
                    next: map<Addr, Addr>, block: map<Addr, Option<Block>>, held: seq<Entry>, i: nat,
                    nodes: seq<Addr>, blocks: seq<Block>)
    requires IsRing(next0, prev0, ring) && Closing(ring, next0, next, block, held, i, nodes, blocks) && i < |ring|
    ensures ring[i] in next && ring[i] in block && next[ring[i]] == ring[if i + 1 == |ring| then 0 else i + 1]
    ensures (next[ring[i]] == ring[0] <==> i + 1 == |ring|)
    ensures var p := ring[i];
      Closing(ring, next0, next - {p}, block - {p}, held, i + 1, nodes + [p],
              if block[p].Some? then blocks + [block[p].value] else blocks)
  {
    hide IsRing;
    RingAt(next0, prev0, ring, i);
    RingDistinct(next0, prev0, ring);
    if i + 1 < |ring| {
      Apart(ring, 0, i + 1);
    }
    forall j | 0 <= j < |ring| && j != i
      ensures ring[j] != ring[i]
    {
      Apart(ring, i, j);
    }
    MoreBlocks(held, i);
    assert ring[..i + 1] == ring[..i] + [ring[i]];
  }

  lemma MoreBlocks(held: seq<Entry>, i: nat)
    ensures i < |held| ==> BlocksOf(held[..i + 1]) == BlocksOf(held[..i]) + [held[i].block]
    ensures i == |held| ==> held[..i] == held
  {
  }

  lemma DoneClosing(ring: seq<Addr>, next0: map<Addr, Addr>,
                    next: map<Addr, Addr>, block: map<Addr, Option<Block>>, held: seq<Entry>,
                    nodes: seq<Addr>, blocks: seq<Block>)
    requires Closing(ring, next0, next, block, held, |ring|, nodes, blocks) && |held| <= |ring|
    ensures nodes == ring && blocks == BlocksOf(held) && forall a :: a in nodes ==> a !in next && a !in block
  {
    assert ring[..|ring|] == ring;
    assert |held| == |ring| ==> held[..|ring|] == held;
  }

  class BtCache {
    var next: map<Addr, Addr>
    var prev: map<Addr, Addr>
    var hash: map<Addr, Option<Addr>>
    var blocknr: map<Addr, nat>
    var block: map<Addr, Option<Block>>
    const table: array<Option<Addr>>
    const size: nat
    var head: Addr
    var used: nat
    ghost var ring: seq<Addr>
    ghost var chains: seq<seq<Addr>>
    ghost var entry: map<Addr, Entry>
    ghost var spec: Cache

    ghost predicate ChainsValid()
      reads this, table
    {
      ChainsOk(size, table[..], chains, hash, blocknr)
    }

    ghost predicate RingValid()
      reads this
    {
      RingOk(next, prev, ring, head, used)
    }

    ghost predicate Valid()
      reads this, table
    {
      ChainsValid() && RingValid() && Allocated(ring, hash, blocknr, block) && Inv(spec) && Timely(spec) &&
        spec.size == size &&
      HeldOk(ring, entry, spec.held, spec.empty, blocknr, block) && AllMapped(entry, chains, spec.chains)
    }

    /** `__btcache_open` with a table of `size` buckets and one empty node. */
    constructor (size: nat, node: Addr)
      requires size > 0
      ensures Valid() && spec == Opened(size) && fresh(table) && this.size == size
    {
      this.size := size;
      table := new Option<Addr>[size](_ => None);
      next, prev := map[node := node], map[node := node];
      hash, blocknr, block := map[node := None], map[node := 0], map[node := None];
      head, used := node, 1;
      ring, chains, entry, spec := [node], seq(size, _ => []), map[], Opened(size);
      new;
      OpenedInv(size);
    }

    /** Clear a bucket. */
    method ClearBucket(index: nat)
      requires ChainsValid() && index < size
      modifies this`chains, table
      ensures ChainsValid() && chains == old(chains)[index := []]
    {
      hide ChainsOk;
      ClearedChains(size, table[..], chains, hash, blocknr, index);
      table[index] := None;
      chains := chains[index := []];
    }

    /** `__btcache_unhash` */
    method Unhash(node: Addr)
      requires ChainsValid() && node in blocknr && node in hash
      modifies this`hash, this`chains, table
      ensures ChainsValid() && hash.Keys == old(hash.Keys)
      ensures chains == CutChain(old(chains), blocknr[node] % size, node)
    {
      hide Without, Distinct, IsChain, ChainsOk, Cut;
      Sized();
      var index := blocknr[node] % size;
      ghost var chain := chains[index];
      ChainOf(index);
      ChainStart(hash, table[index], chain);
      if table[index] == Some(node) {
        ClearBucket(index);
        CutHead(chain, node);
        return;
      }
      var p;
      ghost var j;
      p, j := Predecessor(node, index);
      if p.Some? {
        Bypass(p.value, node, index, j);
      } else {
        WithoutAbsent(chain, node);
        CutAbsent(chain, node);
        assert chains == chains[index := chain];
      }
    }

    lemma Sized()
      requires ChainsValid()
      ensures 0 < size == |chains| == table.Length
    {
      hide IsChain;
    }

    lemma ChainOf(index: nat)
      requires ChainsValid() && index < size
      ensures |chains| == size == table.Length && IsChain(hash, table[index], chains[index])
    {
      hide IsChain;
    }

    /** The node whose link leads to `node`, at place `j` of the chain, if the chain has it. */
    method Predecessor(node: Addr, index: nat) returns (p: Option<Addr>, ghost j: int)
      requires ChainsValid() && index < size && table[index] != Some(node)
      ensures |chains| == size
      ensures p.Some? ==>
        0 <= j && j + 1 < |chains[index]| && chains[index][j] == p.value && chains[index][j + 1] == node &&
        chains[index][0] != node
      ensures p.None? ==> node !in chains[index]
    {
      hide ChainsOk, IsChain, Distinct;
      ChainOf(index);
      ghost var chain := chains[index];
      ChainStart(hash, table[index], chain);
      p, j := table[index], 0;
      while p.Some?
        invariant 0 <= j <= |chain| && p == Following(chain, j - 1)
        invariant forall x :: 0 <= x <= j && x < |chain| ==> chain[x] != node
        decreases |chain| - j
      {
        ChainAt(hash, table[index], chain, j);
        if hash[p.value] == Some(node) {
          return;
        }
        p, j := hash[p.value], j + 1;
      }
    }

    method Bypass(p: Addr, node: Addr, index: nat, ghost j: nat)
      requires ChainsValid() && index < size && j + 1 < |chains[index]|
      requires chains[index][j] == p && chains[index][j + 1] == node && chains[index][0] != node
      modifies this`hash, this`chains
      ensures ChainsValid() && hash.Keys == old(hash.Keys)
      ensures chains == CutChain(old(chains), index, node)
    {
      hide IsChain, Skip, Without, Distinct;
      ghost var chain, was := chains[index], hash;
      ChainAt(hash, table[index], chain, j);
      ChainAt(hash, table[index], chain, j + 1);
      ChainBypass(hash, table[index], chain, j);
      WithoutSkip(chain, j + 1);
      SkipIs(chain, j + 1);
      assert p in chain;
      assert blocknr[p] % size == index;
      hash := hash[p := hash[node]];
      chains := chains[index := Cut(chain, node)];
      forall i | 0 <= i < size
        ensures IsChain(hash, table[i], chains[i])
      {
        if i != index {
          assert p !in old(chains)[i];
          ChainUpdate(was, table[i], chains[i], p, was[node]);
        }
      }
    }

    /** Unlink a node from the ring and link it in again as the last one. */
    method MoveToEnd(node: Addr, ghost i: nat)
      requires RingValid() && i < |ring| && ring[i] == node
      modifies this`next, this`prev, this`head, this`ring
      ensures RingValid() && ring == Skip(old(ring), i) + [node]
      ensures forall a :: a in ring ==> a in old(ring)
    {
      ghost var r := Skip(ring, i);
      RingAt(next, prev, ring, 0);
      RingAt(next, prev, ring, i);
      SkipIs(ring, i);
      if prev[head] != node {
        Unlink(next, prev, ring, i);
        assert node !in r by {
          NotInSkip(ring, i);
        }
        hide IsRing;
        next, prev := next[prev[node] := next[node]], prev[next[node] := prev[node]];
        if head == node {
          head := next[node];
        }
        assert head == r[0];
        RingAt(next, prev, r, 0);
        var tail := prev[head];
        LinkLast(next, prev, r, node);
        next := next[tail := node][node := head];
        prev := prev[node := tail][head := node];
      } else {
        assert Distinct(ring) && ring[|ring| - 1] == ring[i];
        assert ring == r + [node];
      }
      ring := r + [node];
    }

    /** `__btcache_eject`: the node gives up its block and becomes the last, empty one. */
    method Eject(node: Addr)
      requires Valid() && node in entry
      modifies this, table
      ensures Valid() && Fits(old(spec)) && spec == HandOut(old(spec), old(entry[node]))
    {
      hide Without, IsRing, IsChain, Inv, Timely, HeldOk, Mapped, AllMapped, HandOut, Cut, CutChain, Skip, RingOk;
      ghost var i := EjectFacts(node);
      ghost var d := HandOut(spec, entry[node]);
      assert ring[i] in ring;
      Unhash(node);
      MoveToEnd(node, i);
      entry, spec := entry - {node}, d;
      block := block[node := None];
    }

    /** Everything that an ejection changes in the abstract state, before any field changes. */
    lemma EjectFacts(node: Addr) returns (i: nat)
      requires Valid() && node in entry
      ensures Fits(spec) && i < |ring| && ring[i] == node && node in blocknr
      ensures var d := HandOut(spec, entry[node]);
        && Inv(d) && Timely(d) && d.size == size
        && HeldOk(Skip(ring, i) + [node], entry - {node}, d.held, d.empty, blocknr, block[node := None])
        && AllMapped(entry - {node}, CutChain(chains, blocknr[node] % size, node), d.chains)
    {
      hide Without, IsRing, IsChain, HeldOk, Mapped, Inv, Timely, Injective, Newest, Distinct, CutChain, AllMapped;
      HeldFacts();
      i := HeldAt(ring, entry, spec.held, spec.empty, blocknr, block, node);
      var e := entry[node];
      EjectSpec(spec, e);
      HeldEject(ring, entry, spec.held, spec.empty, blocknr, block, i);
      UnhashMapped(entry, chains, spec, node, e.blocknr % size);
    }

    /** `__btcache_lookup` */
    method Lookup(nr: nat) returns (r: Option<Block>)
      requires Valid()
      modifies this, table
      ensures Valid() && Fits(old(spec)) && (spec, r) == CacheSpec.Lookup(old(spec), nr)
    {
      hide Without, IsRing, Inv, Timely, HeldOk, HandOut, RingOk, Injective, IsChain;
      SpecFits();
      if size == 0 {
        return None;
      }
      var k := nr % size;
      ghost var chain, es := chains[k], spec.chains[k];
      assert Mapped(entry, chain, es);
      var p := table[k];
      ghost var j := 0;
      ChainStart(hash, table[k], chain);
      assert es[0..] == es;
      while p.Some?
        invariant unchanged(this) && unchanged(table)
        invariant 0 <= j <= |chain| == |es| && p == Following(chain, j - 1)
        invariant FirstWith(es[j..], nr) == FirstWith(es, nr)
        decreases |chain| - j
      {
        assert chain[j] in chains[k] && entry[chain[j]] == es[j];
        ChainAt(hash, table[k], chain, j);
        ghost var at := HeldAt(ring, entry, spec.held, spec.empty, blocknr, block, p.value);
        if blocknr[p.value] == nr {
          r := block[p.value];
          Eject(p.value);
          return;
        }
        assert es[j..][1..] == es[j + 1..];
        p := hash[p.value];
        j := j + 1;
      }
      return None;
    }

    lemma SpecFits()
      requires Valid()
      ensures Fits(spec) && size == spec.size == |chains| == table.Length && head in prev && head in block
      ensures ring != [] && prev[head] == ring[|ring| - 1] && head == ring[0]
      ensures |ring| == |spec.held| + spec.empty == used
    {
      RingAt(next, prev, ring, 0);
      assert ring[0] in ring;
    }

    /** The last node of the ring becomes its head and gives up its block, if it has one. */
    method TakeOver() returns (node: Addr)
      requires Valid()
      modifies this, table
      ensures node == old(ring)[|old(ring)| - 1] && ring == [node] + old(ring)[..|old(ring)| - 1]
      ensures ChainsValid() && RingValid() && Allocated(ring, hash, blocknr, block)
      ensures Fits(old(spec)) && spec == Recycle(old(spec)) && node !in entry && blocknr == old(blocknr)
      ensures AllMapped(entry, chains, spec.chains)
      ensures HeldOk(old(ring), entry, spec.held, spec.empty + 1, blocknr, block[node := None])
    {
      hide Without, IsRing, IsChain, Inv, Timely, HeldOk, Mapped, AllMapped, Cut, CutChain, Skip, ChainsOk, Injective,
           Recycle, CacheSpec.Unhash;
      SpecFits();
      Rotate(next, prev, ring);
      node := prev[head];
      assert node in ring;
      var held := block[node] != None;
      TakeOverFacts(node);
      head := node;
      if held {
        Unhash(node);
        entry := entry - {node};
      } else {
        assert block[node := None] == block;
      }
      spec := Recycle(spec);
      ring := [node] + ring[..|ring| - 1];
    }

    lemma TakeOverFacts(node: Addr)
      requires Valid() && node == ring[|ring| - 1]
      ensures Fits(spec) && node in block && node in blocknr && node in hash
      ensures block[node] == None ==>
                node !in entry && AllMapped(entry, chains, Recycle(spec).chains) &&
                HeldOk(ring, entry, Recycle(spec).held, Recycle(spec).empty + 1, blocknr, block)
      ensures block[node] != None ==>
                AllMapped(entry - {node}, CutChain(chains, blocknr[node] % size, node), Recycle(spec).chains) &&
                HeldOk(ring, entry - {node}, Recycle(spec).held, Recycle(spec).empty + 1, blocknr, block[node := None])
    {
      hide Without, IsRing, IsChain, Inv, Timely, Mapped, CutChain, AllMapped, Injective, Skip, HeldOk, ChainsOk,
           Recycle;
      SpecFits();
      LastNode(ring, entry, spec.held, spec.empty, blocknr, block, hash);
      if spec.empty == 0 {
        TakeHeld(node);
      } else {
        RecycleEmpty(spec);
      }
    }

    /** The last node holds the oldest block. */
    lemma TakeHeld(node: Addr)
      requires Valid() && ring != [] && node == ring[|ring| - 1] && spec.empty == 0 && node in blocknr && node in block
      ensures Fits(spec)
      ensures AllMapped(entry - {node}, CutChain(chains, blocknr[node] % size, node), Recycle(spec).chains)
      ensures HeldOk(ring, entry - {node}, Recycle(spec).held, Recycle(spec).empty + 1, blocknr, block[node := None])
    {
      hide Without, IsRing, IsChain, Inv, Timely, Mapped, CutChain, AllMapped, Injective, Skip, HeldOk, ChainsOk,
           Recycle, HandOut;
      SpecFits();
      HeldFacts();
      LastNode(ring, entry, spec.held, spec.empty, blocknr, block, hash);
      var n := |spec.held|;
      var i := EjectFacts(node);
      HeldEject(ring, entry, spec.held, spec.empty, blocknr, block, n - 1);
      WithoutLast(spec.held);
      SkipLast(ring);
      RecycleHeld(spec);
    }

    /** `__btcache_add_node`: a new node leads the ring. */
    method AddNode(node: Addr)
      requires RingValid() && Allocated(ring, hash, blocknr, block) && node !in ring
      modifies this`next, this`prev, this`hash, this`block, this`blocknr, this`head, this`used, this`ring
      ensures RingValid() && ring == [node] + old(ring)
      ensures hash == old(hash)[node := None] && block == old(block)[node := None] && blocknr == old(blocknr)[node := 0]
    {
      hide IsRing;
      hash, block, blocknr := hash[node := None], block[node := None], blocknr[node := 0];
      RingSome(next, prev, ring);
      RingAt(next, prev, ring, 0);
      var tail := prev[head];
      LinkLast(next, prev, ring, node);
      Rotate(next[tail := node][node := head], prev[node := tail][head := node], ring + [node]);
      assert [node] + (ring + [node])[..|ring|] == [node] + ring;
      assert tail in ring;
      assert next[node := head][tail := node] == next[tail := node][node := head];
      next := next[node := head][tail := node];
      prev := prev[node := tail][head := node];
      head, used := node, used + 1;
      ring := [node] + ring;
    }

    /** Set up a node that leads the ring and hash it. */
    method StoreNode(node: Addr, nr: nat, blk: Block)
      requires ChainsValid() && RingValid() && Allocated(ring, hash, blocknr, block) && node in ring && node !in entry
      requires AllMapped(entry, chains, spec.chains) && spec.size == size == |spec.chains|
      requires var c, e := spec, Entry(|spec.accepted|, nr, blk);
        && Inv(Store(c, nr, blk)) && Timely(Store(c, nr, blk))
        && HeldOk(ring, entry[node := e], [e] + c.held, c.empty, blocknr[node := nr], block[node := Some(blk)])
      modifies this, table
      ensures Valid() && old(spec).size == |old(spec).chains| && spec == Store(old(spec), nr, blk)
    {
      hide IsRing, IsChain, Inv, Timely, HeldOk, Mapped, AllMapped, RingOk;
      var index := nr % size;
      ghost var e := Entry(|spec.accepted|, nr, blk);
      StoredChains(size, table[..], chains, hash, blocknr, entry, spec.chains, node, e);
      hide ChainsOk;
      blocknr, block := blocknr[node := nr], block[node := Some(blk)];
      hash := hash[node := table[index]];
      table[index] := Some(node);
      chains := chains[index := [node] + chains[index]];
      entry, spec := entry[node := e], Store(spec, nr, blk);
    }

    /** `__btcache_add`; `mm` is the node that malloc has, if any. */
    method Add(nr: nat, blk: Block, mm: Option<Addr>) returns (ok: bool)
      requires Valid() && (mm.Some? ==> mm.value !in ring && mm.value !in entry)
      modifies this, table
      ensures Valid() && Fits(old(spec)) && (spec, ok) == CacheSpec.Add(old(spec), nr, blk, mm.Some?)
    {
      hide IsRing, IsChain, Inv, Timely, Mapped, AllMapped, Recycle, HeldOk, Holds, ChainsOk;
      SpecFits();
      AddFacts(nr, blk);
      HeadEmpty();
      ghost var was, c := ring, spec;
      var node;
      if block[head] == None || used >= size {
        node := TakeOver();
        assert block[node := None][node := Some(blk)] == block[node := Some(blk)];
        RingDistinct(next, prev, ring);
        HeldAdd(was, ring, entry, spec.held, spec.empty + 1, spec.empty, blocknr, block[node := None], node,
                Entry(|spec.accepted|, nr, blk));
        RecycleKeeps(c);
      } else {
        if mm.None? {
          return false;
        }
        node := mm.value;
        NewNodeChains(size, table[..], chains, hash, blocknr, entry, spec.chains, node);
        NewNodeHeld(ring, entry, spec.held, spec.empty, blocknr, block, node);
        AddNode(node);
        assert block[node := Some(blk)] == old(block)[node := None][node := Some(blk)];
        RingDistinct(next, prev, ring);
        HeldAdd(was, ring, entry, spec.held, spec.empty, spec.empty, blocknr, block, node,
                Entry(|spec.accepted|, nr, blk));
      }
      StoreNode(node, nr, blk);
      ok := true;
    }

    /**
     `__btcache_close`: once around the ring, which frees every node of it, once, and every block that is
     still held, once, the newest first.
     */
    method Close() returns (nodes: seq<Addr>, blocks: seq<Block>)
      requires Valid()
      modifies this`next, this`prev, this`hash, this`blocknr, this`block, this`spec
      ensures nodes == ring && Distinct(nodes) && forall a :: a in nodes ==> a !in next && a !in block
      ensures spec == Closed(old(spec)) && blocks == BlocksOf(old(spec.held))
    {
      hide IsRing, Distinct, Inv, Timely, HeldOk, AllMapped, ChainsOk, BlocksOf, Closing, Closed;
      SpecFits();
      RingDistinct(next, prev, ring);
      nodes, blocks := [], [];
      var p, more := head, true;
      ghost var i := 0;
      StartClosing();
      while more
        invariant i <= |ring| && (more <==> i < |ring|) && (more ==> p == ring[i]) && head == ring[0]
        invariant Closing(ring, old(next), next, block, spec.held, i, nodes, blocks) && spec == old(spec)
        decreases |ring| - i
      {
        NextClosing(ring, old(next), old(prev), next, block, spec.held, i, nodes, blocks);
        var after := next[p];
        if block[p].Some? {
          blocks := blocks + [block[p].value];
        }
        next, prev, hash := next - {p}, prev - {p}, hash - {p};
        blocknr, block := blocknr - {p}, block - {p};
        nodes := nodes + [p];
        i := i + 1;
        p := after;
        more := p != head;
      }
      DoneClosing(ring, old(next), next, block, spec.held, nodes, blocks);
      spec := Closed(spec);
    }

    lemma StartClosing()
      requires Valid()
      ensures Closing(ring, next, next, block, spec.held, 0, [], [])
    {
      hide Inv, Timely, AllMapped, ChainsOk, BlocksOf;
      NoBlocks(spec.held);
      forall j | 0 <= j < |ring|
        ensures ring[j] in next && ring[j] in block
      {
        RingAt(next, prev, ring, j);
        assert ring[j] in ring;
      }
      forall j | 0 <= j < |ring|
        ensures block[ring[j]] == HeldBlock(spec.held, j)
      {
        if j < |spec.held| {
          assert Holds(entry, blocknr, block, ring[j], spec.held[j]);
        }
      }
    }

    lemma AddFacts(nr: nat, blk: Block)
      requires Valid()
      ensures Fits(spec)
      ensures Recycles(spec) ==>
        0 < Recycle(spec).size == |Recycle(spec).chains| && Inv(Store(Recycle(spec), nr, blk)) &&
          Timely(Store(Recycle(spec), nr, blk))
      ensures !Recycles(spec) ==> Inv(Store(spec, nr, blk)) && Timely(Store(spec, nr, blk))
    {
      hide Select, Without, Hashed, Stamped, Conserved, HeldOk, ChainsOk, RingOk, AllMapped, Store;
      RecycleKeeps(spec);
      AddKeeps(spec, nr, blk, true);
    }

    lemma HeadEmpty()
      requires Valid()
      ensures head in block && (block[head] == None <==> spec.held == [])
    {
      hide IsRing, IsChain, Inv, Timely, Mapped, AllMapped, ChainsOk;
      SpecFits();
      if spec.held != [] {
        assert Holds(entry, blocknr, block, ring[0], spec.held[0]);
      }
    }

    lemma HeldFacts()
      requires Valid()
      ensures Injective(entry) && Distinct(ring) && Newest(spec.held)
      ensures forall b :: 0 <= b < size ==> Distinct(chains[b])
      ensures forall a :: a in entry ==> a in hash && a in blocknr && a in block
      ensures |spec.chains| == |spec.cleared| == size
    {
      HeldInjective(ring, entry, spec.held, spec.empty, blocknr, block);
      forall b | 0 <= b < size
        ensures Distinct(chains[b])
      {
        assert IsChain(hash, table[b], chains[b]);
      }
    }
  }

  lemma NotInSkip(s: seq<Addr>, i: nat)
    requires Distinct(s) && i < |s|
    ensures s[i] !in Skip(s, i)
  {
    SkipIs(s, i);
  }

  /** Handing a held entry to the caller keeps the invariant. */
  lemma EjectSpec(c: Cache, e: Entry)
    requires Inv(c) && Timely(c) && e in c.held
    ensures var d := HandOut(c, e); Inv(d) && Timely(d) && d.size == c.size
  {
    hide Select, Without;
    DropKeeps(c, e);
    assert multiset(c.returned + [e]) == multiset(c.returned) + multiset{e};
  }

  /** What the last node of the ring holds. */
  lemma LastNode(ring: seq<Addr>, entry: map<Addr, Entry>, held: seq<Entry>, empty: nat, blocknr: map<Addr, nat>,
                 block: map<Addr, Option<Block>>, hash: map<Addr, Option<Addr>>)
    requires HeldOk(ring, entry, held, empty, blocknr, block) && Allocated(ring, hash, blocknr, block) && ring != []
    ensures var a := ring[|ring| - 1];
      && a in block && a in blocknr && a in hash && |ring| == |held| + empty
      && (empty == 0 ==> held != [] && a in entry && entry[a] == held[|held| - 1] && block[a] != None)
      && (empty > 0 ==> a !in entry && block[a] == None)
  {
    var a := ring[|ring| - 1];
    assert a in ring;
    if empty == 0 {
      assert Holds(entry, blocknr, block, ring[|held| - 1], held[|held| - 1]);
    }
  }

  lemma RecycleEmpty(c: Cache)
    requires Fits(c) && c.empty > 0
    ensures Recycle(c) == c.(empty := c.empty - 1)
  {
  }

  /** Taking over a node that holds a block is handing out its entry, to nobody. */
  lemma RecycleHeld(c: Cache)
    requires Fits(c) && c.empty == 0 && Without(c.held, c.held[|c.held| - 1]) == c.held[..|c.held| - 1]
    ensures var d := HandOut(c, c.held[|c.held| - 1]);
      Recycle(c).chains == d.chains && Recycle(c).held == c.held[..|c.held| - 1] && Recycle(c).empty == 0
  {
    hide Without;
  }

  lemma CutHead(chain: seq<Addr>, node: Addr)
    requires chain != [] && chain[0] == node
    ensures Cut(chain, node) == []
  {
  }

  lemma CutAbsent(chain: seq<Addr>, node: Addr)
    requires node !in chain && Without(chain, node) == chain
    ensures Cut(chain, node) == chain
  {
  }

  lemma SkipLast(s: seq<Addr>)
    requires s != []
    ensures Skip(s, |s| - 1) + [s[|s| - 1]] == s
  {
  }

  lemma RingDistinct(next: map<Addr, Addr>, prev: map<Addr, Addr>, ring: seq<Addr>)
    requires IsRing(next, prev, ring)
    ensures Distinct(ring)
  {
  }

  /** Pushing a node that is in no chain on the chain of its bucket. */
  lemma StoredChains(size: nat, table: seq<Option<Addr>>, chains: seq<seq<Addr>>, hash: map<Addr, Option<Addr>>,
                     blocknr: map<Addr, nat>, entry: map<Addr, Entry>, es: seq<seq<Entry>>, node: Addr, e: Entry)
    requires ChainsOk(size, table, chains, hash, blocknr) && AllMapped(entry, chains, es) && node !in entry
    ensures var k := e.blocknr % size;
      && k < |table| && k < |chains| && k < |es|
      && ChainsOk(size, table[k := Some(node)], chains[k := [node] + chains[k]], hash[node := table[k]],
                  blocknr[node := e.blocknr])
      && AllMapped(entry[node := e], chains[k := [node] + chains[k]], es[k := [e] + es[k]])
  {
    hide IsChain;
    var k := e.blocknr % size;
    forall b | 0 <= b < size
      ensures node !in chains[b]
    {
      assert Mapped(entry, chains[b], es[b]);
    }
    var table', chains', es' := table[k := Some(node)], chains[k := [node] + chains[k]], es[k := [e] + es[k]];
    var hash', entry' := hash[node := table[k]], entry[node := e];
    forall b | 0 <= b < size
      ensures IsChain(hash', table'[b], chains'[b])
      ensures Mapped(entry', chains'[b], es'[b])
    {
      assert Mapped(entry, chains[b], es[b]);
      if b == k {
        ChainPush(hash, table[k], chains[k], node);
      } else {
        ChainUpdate(hash, table[b], chains[b], node, table[k]);
      }
    }
  }

  /** A fresh node disturbs no chain. */
  lemma NewNodeChains(size: nat, table: seq<Option<Addr>>, chains: seq<seq<Addr>>, hash: map<Addr, Option<Addr>>,
                      blocknr: map<Addr, nat>, entry: map<Addr, Entry>, es: seq<seq<Entry>>, node: Addr)
    requires ChainsOk(size, table, chains, hash, blocknr) && AllMapped(entry, chains, es) && node !in entry
    ensures ChainsOk(size, table, chains, hash[node := None], blocknr[node := 0])
  {
    hide IsChain;
    forall b | 0 <= b < size
      ensures node !in chains[b] && IsChain(hash[node := None], table[b], chains[b])
    {
      assert Mapped(entry, chains[b], es[b]);
      ChainUpdate(hash, table[b], chains[b], node, None);
    }
  }

  lemma NewNodeHeld(ring: seq<Addr>, entry: map<Addr, Entry>, held: seq<Entry>, empty: nat,
                    blocknr: map<Addr, nat>, block: map<Addr, Option<Block>>, node: Addr)
    requires HeldOk(ring, entry, held, empty, blocknr, block) && node !in ring
    ensures HeldOk(ring, entry, held, empty, blocknr[node := 0], block[node := None])
  {
    assert forall i :: 0 <= i < |ring| ==> ring[i] in ring;
    forall i | 0 <= i < |held|
      ensures Holds(entry, blocknr[node := 0], block[node := None], ring[i], held[i])
    {
      assert Holds(entry, blocknr, block, ring[i], held[i]);
    }
  }

  /**
   `__btcache_open`. `table` and `node` are what the allocator answers. Without a first node the answer
   is 0 as well, and there is no ring to work with.
   */
  method Open(size: nat, table: bool, node: Option<Addr>) returns (code: int, cache: Option<BtCache>)
    ensures code == if size == 0 then 1 else if !table then 2 else 0
    ensures cache.Some? <==> code == 0 && node.Some?
    ensures cache.Some? ==>
      fresh(cache.value) && fresh(cache.value.table) && cache.value.Valid() && cache.value.spec == Opened(size)
  {
    hide Opened;
    if size == 0 {
      return 1, None;
    }
    if !table {
      return 2, None;
    }
    if node.None? {
      return 0, None;
    }
    var c := new BtCache(size, node.value);
    return 0, Some(c);
  }
}
