/** The bucket table under the hash table and the bag: node pool, lookup, rehashing, sizing. */
module Tables {
  import opened Options
  import opened Bits
  import opened Sizing
  import opened Links
  import opened Chains
  import opened LinkedChains

  const POOL_SIZE: nat := 32

  // -------------------------------------------------------------------------
  // Sizes

  /** What reaches the allocator, which takes 32 bits, when `n` bucket pointers are asked for. */
  function BucketBytes(n: nat): nat { (8 * n) % 0x1_0000_0000 }

  /** The allocator delivers, and delivers as much as is needed. */
  predicate Granted(n: nat, memory: bool) { memory && n > 0 && BucketBytes(n) == 8 * n }

  ghost predicate SizeOk(size: nat) { IsPow2(size) && 8 <= size < 0x2000_0000 }

  lemma Pow2Values()
    ensures Pow2(3) == 8 && Pow2(29) == 0x2000_0000 && Pow2(30) == 0x4000_0000 && Pow2(30) <= Pow2(63) < Pow2(64)
  {
    Pow2Step(0); Pow2Step(5); Pow2Step(10); Pow2Step(15); Pow2Step(20); Pow2Step(25);
    Pow2Mono(30, 63);
    Doubles(63);
  }

  lemma Pow2Step(k: nat)
    ensures Pow2(k + 1) == 2 * Pow2(k) && Pow2(k + 2) == 4 * Pow2(k) && Pow2(k + 3) == 8 * Pow2(k)
    ensures Pow2(k + 4) == 16 * Pow2(k) && Pow2(k + 5) == 32 * Pow2(k)
  {
    Doubles(k); Doubles(k + 1); Doubles(k + 2); Doubles(k + 3); Doubles(k + 4);
  }

  lemma LeastIsOne(r: nat, s: nat, n: nat)
    requires LeastPow2(r, n) && LeastPow2(s, n)
    ensures r == s
  {
  }

  /** Above 8, rounding up stays between the power below and the power above. */
  lemma RoundUpTo(k: nat, n: nat)
    requires 2 <= k <= 29 && Pow2(k) < n <= Pow2(k + 1)
    ensures n < Pow2(WORD) && RoundUp(n) == if n < 8 then 8 else Pow2(k + 1)
  {
    hide Pow2, RoundUp, LeastPow2;
    Pow2Values();
    Pow2Mono(k + 1, 30);
    if n < 8 {
      SmallRoundUp(n);
    } else {
      RoundUpIsLeast(n);
      Between(k, n);
      LeastIsOne(RoundUp(n), Pow2(k + 1), n);
    }
  }

  lemma ExponentOf(size: nat) returns (k: nat)
    requires SizeOk(size)
    ensures 3 <= k <= 28 && size == Pow2(k) && size == 2 * Pow2(k - 1)
  {
    hide Pow2;
    k :| size == Pow2(k);
    Pow2Values();
    if k < 3 {
      Pow2Mono(k, 2);
      Doubles(2);
    } else if k > 28 {
      Pow2Mono(29, k);
    }
    Doubles(k - 1);
  }

  /** Growing doubles the number of buckets. */
  lemma GrowSize(size: nat)
    requires SizeOk(size)
    ensures var n := size + if size < 64 then size / 2 else size;
      n < Pow2(WORD) && RoundUp(n) == 2 * size && IsPow2(2 * size)
  {
    hide Pow2, RoundUp;
    var k := ExponentOf(size);
    Doubles(k);
    RoundUpTo(k, size + if size < 64 then size / 2 else size);
  }

  /** Shrinking halves it, down to 8. */
  lemma ShrinkSize(size: nat)
    requires SizeOk(size)
    ensures size / 2 < Pow2(WORD) && RoundUp(size / 2) == (if size == 8 then 8 else size / 2)
    ensures SizeOk(RoundUp(size / 2))
  {
    hide Pow2, RoundUp;
    var k := ExponentOf(size);
    Pow2Values();
    Pow2Mono(k, 63);
    if k == 3 {
      SmallRoundUp(size / 2);
    } else {
      Pow2Mono(3, k - 1);
      Doubles(k - 2);
      RoundUpTo(k - 2, size / 2);
    }
  }

  /** Clearing a large table divides it by eight. */
  lemma ClearSize(size: nat)
    requires SizeOk(size) && size > 1024
    ensures size / 8 < Pow2(WORD) && RoundUp(size / 8) == size / 8 && SizeOk(size / 8)
  {
    hide Pow2, RoundUp;
    var k := ExponentOf(size);
    Pow2Values();
    if k <= 7 {
      Pow2Mono(k, 7);
      Pow2Step(3);
    }
    Pow2Step(k - 4);
    RoundUpTo(k - 4, size / 8);
  }

  // -------------------------------------------------------------------------
  // Lookup

  /** `hash & (size - 1)` */
  function Slot(h: hash64, size: nat): nat
    requires size > 0
  {
    Val(And(ToBits(h, WORD), ToBits(size - 1, WORD)))
  }

  lemma SlotIsMod(h: hash64, size: nat)
    requires SizeOk(size)
    ensures Slot(h, size) == h % size
  {
    hide Pow2, Val, And, ToBits;
    var k := ExponentOf(size);
    MaskIsMod(h, k, WORD);
  }

  /** The fields of all nodes. */
  datatype Memory<K, P> = Memory(next: map<Addr, Option<Addr>>, key: map<Addr, K>, load: map<Addr, P>)

  /** The chains of `mem` from `heads` are `bs`. */
  ghost predicate Lists<K, P>(mem: Memory<K, P>, heads: seq<Option<Addr>>, bs: seq<seq<Node<K, P>>>) {
    AllLinked(mem.next, mem.key, mem.load, heads, bs)
  }

  /**
   `__hashnode_lookup`, `__bagnode_lookup`: the link to the node with this key, or the link that ends the
   chain of its bucket.  `b` and `i` say where that is.
   */
  method Seek<K(!new), P, C(!new)>(bucket: seq<Option<Addr>>, mem: Memory<K, P>, hash: K -> hash64,
                                   same: (K, K) -> bool, key: K,
                                   ghost keys: Classes<K, C>, ghost bs: seq<seq<Node<K, P>>>)
    returns (link: Link, node: Option<Addr>, ghost b: nat, ghost i: nat)
    requires SizeOk(|bucket|) && Agree(keys, hash, same) && Lists(mem, bucket, bs)
    ensures |bs| == |bucket| && b == keys.code(keys.of(key)) % |bs| && b < |bs| && i <= |bs[b]|
    ensures link == LinkAt(bs, b, i) && node == Following(Sites(bs[b]), i - 1) && Leads(mem.next, bucket, bs, b, i)
    ensures Get(keys, bs, keys.of(key)) == if i < |bs[b]| then Some(bs[b][i].load) else None
    ensures i < |bs[b]| ==> keys.of(bs[b][i].key) == keys.of(key)
    ensures match link
      case Head(s) => s < |bucket| && bucket[s] == node
      case Next(a) => a in mem.next && mem.next[a] == node
    ensures node.Some? ==>
      node.value in mem.key && node.value in mem.load && keys.of(mem.key[node.value]) == keys.of(key)
    ensures Get(keys, bs, keys.of(key)) == if node.Some? then Some(mem.load[node.value]) else None
  {
    hide Slot, AllLinked, Passed, ChainGet, IsPow2, At, Get, Agree;
    SlotIsMod(hash(key), |bucket|);
    SameLength(mem, bucket, bs);
    AgreeAt(keys, hash, same, key, key);
    var slot := Slot(hash(key), |bucket|);
    b, i := slot, 0;
    link, node := Head(slot), bucket[slot];
    AtStart(mem, bucket, bs, b);
    NonePassed(keys, bs[b], keys.of(key));
    while node.Some?
      invariant b < |bs| && At(mem, bucket, bs, b, i, link, node) && i <= |bs[b]|
      invariant Passed(keys, bs[b], keys.of(key), i)
      invariant node.Some? <==> i < |bs[b]|
      decreases |bs[b]| - i
    {
      AtNode(mem, bucket, bs, b, i, link, node);
      AgreeAt(keys, hash, same, mem.key[node.value], key);
      if same(mem.key[node.value], key) {
        break;
      }
      PassedOn(keys, bs[b], keys.of(key), i);
      link, node, i := Next(node.value), mem.next[node.value], i + 1;
      AtNode(mem, bucket, bs, b, i, link, node);
    }
    AtNode(mem, bucket, bs, b, i, link, node);
    GetHere(keys, bs, keys.of(key), b, i);
  }

  lemma GetHere<K, P, C(!new)>(keys: Classes<K, C>, bs: seq<seq<Node<K, P>>>, c: C, b: nat, i: nat)
    requires b < |bs| && b == keys.code(c) % |bs| && Passed(keys, bs[b], c, i)
    requires (i < |bs[b]| ==> keys.of(bs[b][i].key) == c)
    ensures Get(keys, bs, c) == if i < |bs[b]| then Some(bs[b][i].load) else None
  {
    GetAt(keys, bs[b], c, i);
  }

  lemma AgreeAt<K(!new), C>(keys: Classes<K, C>, hash: K -> hash64, same: (K, K) -> bool, k: K, l: K)
    requires Agree(keys, hash, same)
    ensures (same(k, l) <==> keys.of(k) == keys.of(l)) && hash(k) == keys.code(keys.of(k))
  {
  }

  /** `link` is the link to place `i` of chain `b`, and `node` is what it holds. */
  ghost predicate At<K, P>(mem: Memory<K, P>, heads: seq<Option<Addr>>, bs: seq<seq<Node<K, P>>>, b: nat, i: nat,
                           link: Link, node: Option<Addr>)
    requires b < |bs|
  {
    i <= |bs[b]| && link == LinkAt(bs, b, i) && node == Following(Sites(bs[b]), i - 1) &&
      Leads(mem.next, heads, bs, b, i)
  }

  lemma AtStart<K, P>(mem: Memory<K, P>, heads: seq<Option<Addr>>, bs: seq<seq<Node<K, P>>>, b: nat)
    requires Lists(mem, heads, bs) && b < |bs| == |heads|
    ensures At(mem, heads, bs, b, 0, Head(b), heads[b]) && (heads[b].Some? <==> 0 < |bs[b]|)
  {
    LinkLeads(mem.next, mem.key, mem.load, heads, bs, b, 0);
  }

  /** The node there, and the link behind it. */
  lemma AtNode<K, P>(mem: Memory<K, P>, heads: seq<Option<Addr>>, bs: seq<seq<Node<K, P>>>, b: nat, i: nat, link: Link,
                     node: Option<Addr>)
    requires Lists(mem, heads, bs) && b < |bs| && At(mem, heads, bs, b, i, link, node)
    ensures i <= |bs[b]| && link == LinkAt(bs, b, i) && node == Following(Sites(bs[b]), i - 1)
    ensures Leads(mem.next, heads, bs, b, i)
    ensures node.Some? <==> i < |bs[b]|
    ensures node.Some? ==>
      var a := node.value;
      a == bs[b][i].addr && a in mem.next && a in mem.key && a in mem.load && mem.key[a] == bs[b][i].key &&
        mem.load[a] == bs[b][i].load &&
      At(mem, heads, bs, b, i + 1, Next(a), mem.next[a]) && (mem.next[a].Some? <==> i + 1 < |bs[b]|)
  {
    hide AllLinked;
    if i < |bs[b]| {
      NodeFields(mem, heads, bs, b, i);
      LinkLeads(mem.next, mem.key, mem.load, heads, bs, b, i + 1);
    }
  }

  lemma SameLength<K, P>(mem: Memory<K, P>, heads: seq<Option<Addr>>, bs: seq<seq<Node<K, P>>>)
    requires Lists(mem, heads, bs)
    ensures |bs| == |heads|
  {
  }

  lemma NonePassed<K, P, C(!new)>(keys: Classes<K, C>, chain: seq<Node<K, P>>, c: C)
    ensures Passed(keys, chain, c, 0)
  {
  }

  lemma PassedOn<K, P, C(!new)>(keys: Classes<K, C>, chain: seq<Node<K, P>>, c: C, i: nat)
    requires Passed(keys, chain, c, i) && i < |chain| && keys.of(chain[i].key) != c
    ensures Passed(keys, chain, c, i + 1)
  {
  }

  lemma NodeFields<K, P>(mem: Memory<K, P>, heads: seq<Option<Addr>>, bs: seq<seq<Node<K, P>>>, b: nat, i: nat)
    requires Lists(mem, heads, bs) && b < |bs| && i < |bs[b]|
    ensures var a := bs[b][i].addr;
      a in mem.next && a in mem.key && a in mem.load && mem.key[a] == bs[b][i].key && mem.load[a] == bs[b][i].load
  {
    assert Linked(mem.next, mem.key, mem.load, heads[b], bs[b]);
    ChainAt(mem.next, heads[b], Sites(bs[b]), i);
  }

  // -------------------------------------------------------------------------
  // Rehashing

  /** In the middle of a rehash: `rest` still holds the part `left` of `m`, `made` the other part. */
  ghost predicate Moving<K, P, C(!new)>(keys: Classes<K, C>, made: seq<seq<Node<K, P>>>, rest: seq<seq<Node<K, P>>>,
                                        left: map<C, P>, m: map<C, P>, addrs: multiset<nat>)
  {
    && Holds(keys, rest, left) && Holds(keys, made, m - left.Keys)
    && (forall c :: c in left ==> c in m && left[c] == m[c])
    && AllAddrs(made) + AllAddrs(rest) == addrs
  }

  /** Move the first node of chain `k`. */
  lemma Moved<K, P, C(!new)>(keys: Classes<K, C>, made: seq<seq<Node<K, P>>>, rest: seq<seq<Node<K, P>>>,
                             left: map<C, P>, m: map<C, P>, addrs: multiset<nat>, k: nat, b: nat)
    requires Moving(keys, made, rest, left, m, addrs) && k < |rest| && rest[k] != []
    requires b == keys.code(keys.of(rest[k][0].key)) % |made|
    ensures var node := rest[k][0];
      && Get(keys, made, keys.of(node.key)) == None
      && Moving(keys, made[b := made[b] + [node]], rest[k := Drop(rest[k], 0)], left - {keys.of(node.key)}, m, addrs)
  {
    hide Holds, Get, AllAddrs, Drop;
    var node := rest[k][0];
    var c := keys.of(node.key);
    FoundAt(keys, rest, left, k, 0);
    Dropped(keys, rest, left, k, 0);
    Misses(keys, made, m - left.Keys, c);
    Appended(keys, made, m - left.Keys, b, node);
    assert (m - left.Keys)[c := node.load] == m - (left - {c}).Keys;
    Shifted(AllAddrs(made), AllAddrs(rest[k := Drop(rest[k], 0)]), node.addr);
  }

  lemma Shifted(x: multiset<nat>, y: multiset<nat>, a: nat)
    ensures x + multiset{a} + y == x + (y + multiset{a})
  {
  }

  lemma Misses<K, P, C(!new)>(keys: Classes<K, C>, bs: seq<seq<Node<K, P>>>, m: map<C, P>, c: C)
    requires Holds(keys, bs, m)
    ensures |bs| > 0 && Get(keys, bs, c) == Loaded(m, c)
  {
  }

  /** The links in the middle of a rehash: new and old chains share the memory, and no node is in two places. */
  ghost predicate Relinking<K, P>(mem: Memory<K, P>, heads: seq<Option<Addr>>, made: seq<seq<Node<K, P>>>,
                                  oldHeads: seq<Option<Addr>>, rest: seq<seq<Node<K, P>>>, addrs: multiset<nat>)
  {
    && Lists(mem, heads, made) && Lists(mem, oldHeads, rest)
    && AllAddrs(made) + AllAddrs(rest) == addrs && Once(addrs)
  }

  /** The links after the first node of chain `k` has gone to the end of chain `b`. */
  lemma Relinked<K, P>(mem: Memory<K, P>, heads: seq<Option<Addr>>, made: seq<seq<Node<K, P>>>,
                       oldHeads: seq<Option<Addr>>, rest: seq<seq<Node<K, P>>>, addrs: multiset<nat>, k: nat, b: nat)
    requires Relinking(mem, heads, made, oldHeads, rest, addrs) && k < |rest| && rest[k] != [] && b < |made|
    ensures |oldHeads| == |rest| && rest[k][0].addr in mem.next
    ensures var node := rest[k][0];
      var link := LinkAt(made, b, |made[b]|);
      Relinking(mem.(next := NextWith(mem.next, link, Some(node.addr))[node.addr := None]),
                HeadsWith(heads, link, Some(node.addr)), made[b := made[b] + [node]],
                oldHeads[k := mem.next[node.addr]], rest[k := Drop(rest[k], 0)], addrs)
  {
    hide AllLinked, AllAddrs, Drop, Once, Sites;
    var node := rest[k][0];
    var link, rest', made' := LinkAt(made, b, |made[b]|), rest[k := Drop(rest[k], 0)], made[b := made[b] + [node]];
    var next' := NextWith(mem.next, link, Some(node.addr))[node.addr := None];
    SameLength(mem, oldHeads, rest);
    SameLength(mem, heads, made);
    OnceApart(AllAddrs(made), AllAddrs(rest));
    AllLinkedDrop(mem.next, mem.key, mem.load, oldHeads, rest, k, 0);
    AddrsOut(rest, k);
    AddrsIn(made, b, node);
    NodeFields(mem, oldHeads, rest, k, 0);
    OnceMinus(AllAddrs(rest'), node.addr, AllAddrs(rest));
    OnceApartAt(AllAddrs(made), AllAddrs(rest), node.addr);
    AllLinkedSnoc(mem.next, mem.key, mem.load, heads, made, b, node);
    forall a | a in AllAddrs(rest')
      ensures Same(mem.next, mem.key, mem.load, next', mem.key, mem.load, a)
    {
      if link.Next? {
        LastSite(made[b]);
        InAll(made, b, link.a);
        OnceApartAt(AllAddrs(made), AllAddrs(rest), link.a);
      }
    }
    AllLinkedFrame(mem.next, mem.key, mem.load, next', mem.key, mem.load, oldHeads[k := mem.next[node.addr]], rest');
    Shifted(AllAddrs(made), AllAddrs(rest'), node.addr);
  }

  lemma AddrsOut<K, P>(bs: seq<seq<Node<K, P>>>, k: nat)
    requires k < |bs| && bs[k] != []
    ensures AllAddrs(bs) == AllAddrs(bs[k := Drop(bs[k], 0)]) + multiset{bs[k][0].addr}
  {
    hide AllAddrs, Addrs, Drop;
    AllAddrsUpdate(bs, k, Drop(bs[k], 0));
    AddrsDrop(bs[k], 0);
    Balance(AllAddrs(bs[k := Drop(bs[k], 0)]), Addrs(bs[k]), AllAddrs(bs), Addrs(Drop(bs[k], 0)),
            multiset{bs[k][0].addr});
  }

  lemma AddrsIn<K, P>(bs: seq<seq<Node<K, P>>>, b: nat, node: Node<K, P>)
    requires b < |bs|
    ensures AllAddrs(bs[b := bs[b] + [node]]) == AllAddrs(bs) + multiset{node.addr}
  {
    hide AllAddrs, Addrs;
    AllAddrsUpdate(bs, b, bs[b] + [node]);
    AddrsConcat(bs[b], [node]);
    OneAddr(node);
    Balance(AllAddrs(bs[b := bs[b] + [node]]), Addrs(bs[b]), AllAddrs(bs), Addrs(bs[b] + [node]), multiset{node.addr});
  }

  lemma OnceApart(x: multiset<nat>, y: multiset<nat>)
    requires Once(x + y)
    ensures Once(x) && Once(y)
  {
    assert forall a :: (x + y)[a] == x[a] + y[a];
  }

  lemma OnceApartAt(x: multiset<nat>, y: multiset<nat>, a: nat)
    requires Once(x + y)
    ensures !(a in x && a in y)
  {
    assert (x + y)[a] == x[a] + y[a];
  }

  lemma OnceMinus(x: multiset<nat>, a: nat, y: multiset<nat>)
    requires Once(y) && y == x + multiset{a}
    ensures Once(x) && a !in x && a in y
  {
    assert forall e :: (x + multiset{a})[e] == x[e] + multiset{a}[e];
  }

  /** The loops of `__hashtable_resize` and `__bag_resize` that fill `size` new buckets. */
  method Rehash<K(!new), P, C(!new)>(bucket: seq<Option<Addr>>, mem: Memory<K, P>, size: nat, hash: K -> hash64,
                                     same: (K, K) -> bool,
                                     ghost keys: Classes<K, C>, ghost bs: seq<seq<Node<K, P>>>, ghost m: map<C, P>)
    returns (bucket': seq<Option<Addr>>, mem': Memory<K, P>, ghost made: seq<seq<Node<K, P>>>)
    requires SizeOk(size) && Agree(keys, hash, same) && Holds(keys, bs, m) && Lists(mem, bucket, bs)
    requires Once(AllAddrs(bs))
    ensures |bucket'| == size == |made| && Holds(keys, made, m) && Lists(mem', bucket', made)
    ensures AllAddrs(made) == AllAddrs(bs)
    ensures SameBut(mem, mem', AllAddrs(bs))
  {
    hide Moving, Relinking, Holds, AllAddrs, Agree, IsPow2, AllLinked, Once, Drop, SameBut;
    bucket', mem' := seq(size, _ => None), mem;
    made := seq(size, _ => []);
    ghost var rest, heads, left := bs, bucket, m;
    StartMoving(keys, made, bs, m);
    StartRelinking(mem, bucket', made, bucket, bs);
    SameLength(mem, bucket, bs);
    var k := |bucket|;
    while k > 0
      invariant 0 <= k <= |bucket| == |rest| == |heads| == |bs| && |bucket'| == size == |made|
      invariant forall j :: 0 <= j < k ==> heads[j] == bucket[j]
      invariant forall j :: k <= j < |rest| ==> rest[j] == []
      invariant Moving(keys, made, rest, left, m, AllAddrs(bs))
      invariant Relinking(mem', bucket', made, heads, rest, AllAddrs(bs))
      invariant SameBut(mem, mem', AllAddrs(bs))
    {
      k := k - 1;
      var p := bucket[k];
      while p.Some?
        invariant |bucket| == |rest| == |heads| && |bucket'| == size == |made|
        invariant p == heads[k] && forall j :: 0 <= j < k ==> heads[j] == bucket[j]
        invariant forall j :: k < j < |rest| ==> rest[j] == []
        invariant Moving(keys, made, rest, left, m, AllAddrs(bs))
        invariant Relinking(mem', bucket', made, heads, rest, AllAddrs(bs))
        invariant SameBut(mem, mem', AllAddrs(bs))
        decreases |rest[k]|
      {
        FirstNode(mem', bucket', made, heads, rest, AllAddrs(bs), k);
        var nx := mem'.next[p.value];
        ghost var node, b := rest[k][0], 0;
        bucket', mem', made, b := MoveNode(bucket', mem', p.value, hash, same, keys, made, heads, rest, left, m,
                                           AllAddrs(bs), k, mem);
        heads, rest, left := heads[k := nx], rest[k := Drop(rest[k], 0)], left - {keys.of(node.key)};
        p := nx;
      }
      ChainEnds(mem', bucket', made, heads, rest, AllAddrs(bs), k);
    }
    DoneMoving(keys, made, rest, left, m, AllAddrs(bs));
    DoneRelinking(mem', bucket', made, heads, rest, AllAddrs(bs));
  }

  /** Memories that differ in the links of the nodes `addrs` at most. */
  ghost predicate SameBut<K, P>(mem: Memory<K, P>, mem': Memory<K, P>, addrs: multiset<nat>) {
    mem'.key == mem.key && mem'.load == mem.load && mem'.next.Keys == mem.next.Keys &&
    forall a :: a in mem.next && a !in addrs ==> mem'.next[a] == mem.next[a]
  }

  lemma FirstNode<K, P>(mem: Memory<K, P>, heads: seq<Option<Addr>>, made: seq<seq<Node<K, P>>>,
                        oldHeads: seq<Option<Addr>>, rest: seq<seq<Node<K, P>>>, addrs: multiset<nat>, k: nat)
    requires Relinking(mem, heads, made, oldHeads, rest, addrs) && k < |rest| == |oldHeads| && oldHeads[k].Some?
    ensures rest[k] != [] && oldHeads[k] == Some(rest[k][0].addr) && rest[k][0].addr in mem.next
    ensures rest[k][0].addr in mem.key && mem.key[rest[k][0].addr] == rest[k][0].key
  {
    hide AllAddrs, Once, Drop;
    assert Linked(mem.next, mem.key, mem.load, oldHeads[k], rest[k]);
    ChainHead(mem.next, oldHeads[k], Sites(rest[k]));
  }

  lemma ChainEnds<K, P>(mem: Memory<K, P>, heads: seq<Option<Addr>>, made: seq<seq<Node<K, P>>>,
                        oldHeads: seq<Option<Addr>>, rest: seq<seq<Node<K, P>>>, addrs: multiset<nat>, k: nat)
    requires Relinking(mem, heads, made, oldHeads, rest, addrs) && k < |rest| == |oldHeads| && oldHeads[k].None?
    ensures rest[k] == []
  {
    hide AllAddrs, Once;
    assert Linked(mem.next, mem.key, mem.load, oldHeads[k], rest[k]);
    ChainHead(mem.next, oldHeads[k], Sites(rest[k]));
  }

  /** Hang a node of the old table on the end of its chain in the new one. */
  method MoveNode<K(!new), P, C(!new)>(bucket: seq<Option<Addr>>, mem: Memory<K, P>, p: Addr, hash: K -> hash64,
                                       same: (K, K) -> bool,
                                       ghost keys: Classes<K, C>, ghost made: seq<seq<Node<K, P>>>,
                                       ghost heads: seq<Option<Addr>>,
                                       ghost rest: seq<seq<Node<K, P>>>, ghost left: map<C, P>, ghost m: map<C, P>,
                                       ghost addrs: multiset<nat>,
                                       ghost k: nat, ghost was: Memory<K, P>)
    returns (bucket': seq<Option<Addr>>, mem': Memory<K, P>, ghost made': seq<seq<Node<K, P>>>, ghost b: nat)
    requires SizeOk(|bucket|) && Agree(keys, hash, same) && Moving(keys, made, rest, left, m, addrs)
    requires Relinking(mem, bucket, made, heads, rest, addrs) && SameBut(was, mem, addrs)
    requires k < |rest| == |heads| && rest[k] != [] && rest[k][0].addr == p && p in mem.next && p in mem.key
    requires mem.key[p] == rest[k][0].key
    ensures |bucket'| == |bucket| == |made'| && SameBut(was, mem', addrs)
    ensures Moving(keys, made', rest[k := Drop(rest[k], 0)], left - {keys.of(rest[k][0].key)}, m, addrs)
    ensures Relinking(mem', bucket', made', heads[k := mem.next[p]], rest[k := Drop(rest[k], 0)], addrs)
  {
    hide Moving, Holds, AllAddrs, Agree, IsPow2, Get, AllLinked, Once, Drop, Sites, SameBut, Leads, Relinking;
    NewLists(mem, bucket, made, heads, rest, addrs);
    var link, node;
    ghost var i;
    link, node, b, i := Seek(bucket, mem, hash, same, mem.key[p], keys, made);
    Moved(keys, made, rest, left, m, addrs, k, b);
    Relinked(mem, bucket, made, heads, rest, addrs, k, b);
    MovedFrame(was, mem, bucket, made, heads, rest, addrs, k, b);
    bucket' := HeadsWith(bucket, link, Some(p));
    mem' := mem.(next := NextWith(mem.next, link, Some(p))[p := None]);
    made' := made[b := made[b] + [rest[k][0]]];
  }

  lemma NewLists<K, P>(mem: Memory<K, P>, heads: seq<Option<Addr>>, made: seq<seq<Node<K, P>>>,
                       oldHeads: seq<Option<Addr>>, rest: seq<seq<Node<K, P>>>, addrs: multiset<nat>)
    requires Relinking(mem, heads, made, oldHeads, rest, addrs)
    ensures Lists(mem, heads, made)
  {
  }

  lemma MovedFrame<K, P>(was: Memory<K, P>, mem: Memory<K, P>, heads: seq<Option<Addr>>, made: seq<seq<Node<K, P>>>,
                         oldHeads: seq<Option<Addr>>, rest: seq<seq<Node<K, P>>>, addrs: multiset<nat>, k: nat, b: nat)
    requires Relinking(mem, heads, made, oldHeads, rest, addrs) && k < |rest| && rest[k] != [] && b < |made|
    requires SameBut(was, mem, addrs)
    ensures var link, a := LinkAt(made, b, |made[b]|), rest[k][0].addr;
      SameBut(was, mem.(next := NextWith(mem.next, link, Some(a))[a := None]), addrs)
  {
    hide AllAddrs, Once, Sites, AllLinked;
    var link, a := LinkAt(made, b, |made[b]|), rest[k][0].addr;
    SiteAt(rest[k], 0);
    InAll(rest, k, a);
    NodeFields(mem, oldHeads, rest, k, 0);
    if link.Next? {
      LastSite(made[b]);
      InAll(made, b, link.a);
      NodeFields(mem, heads, made, b, |made[b]| - 1);
    }
  }

  lemma StartMoving<K, P, C(!new)>(keys: Classes<K, C>, made: seq<seq<Node<K, P>>>, rest: seq<seq<Node<K, P>>>,
                                   m: map<C, P>)
    requires Holds(keys, rest, m) && |made| > 0 && forall b :: 0 <= b < |made| ==> made[b] == []
    ensures Moving(keys, made, rest, m, m, AllAddrs(rest))
  {
    hide Holds, AllAddrs;
    HoldsNothing<K, P, C>(keys, made);
    assert m - m.Keys == map[];
    assert multiset{} + AllAddrs(rest) == AllAddrs(rest);
  }

  lemma StartRelinking<K, P>(mem: Memory<K, P>, heads: seq<Option<Addr>>, made: seq<seq<Node<K, P>>>,
                             oldHeads: seq<Option<Addr>>, rest: seq<seq<Node<K, P>>>)
    requires Lists(mem, oldHeads, rest) && Once(AllAddrs(rest)) && |heads| == |made|
    requires forall b :: 0 <= b < |made| ==> made[b] == [] && heads[b] == None
    ensures Relinking(mem, heads, made, oldHeads, rest, AllAddrs(rest)) && SameBut(mem, mem, AllAddrs(rest))
  {
    hide AllAddrs, AllLinked;
    NoneLinked(mem.next, mem.key, mem.load, heads, made);
    NoAddrs(made);
    assert multiset{} + AllAddrs(rest) == AllAddrs(rest);
  }

  lemma DoneMoving<K, P, C(!new)>(keys: Classes<K, C>, made: seq<seq<Node<K, P>>>, rest: seq<seq<Node<K, P>>>,
                                  left: map<C, P>, m: map<C, P>, addrs: multiset<nat>)
    requires Moving(keys, made, rest, left, m, addrs) && forall b :: 0 <= b < |rest| ==> rest[b] == []
    ensures Holds(keys, made, m) && AllAddrs(made) == addrs
  {
    hide AllAddrs, ChainOk, Get;
    assert |rest| > 0;
    HoldsNothing<K, P, C>(keys, rest);
    HoldsOne(keys, rest, left, map[]);
    assert m - {} == m;
    assert AllAddrs(made) + multiset{} == AllAddrs(made);
  }

  lemma DoneRelinking<K, P>(mem: Memory<K, P>, heads: seq<Option<Addr>>, made: seq<seq<Node<K, P>>>,
                            oldHeads: seq<Option<Addr>>, rest: seq<seq<Node<K, P>>>, addrs: multiset<nat>)
    requires Relinking(mem, heads, made, oldHeads, rest, addrs)
    ensures Lists(mem, heads, made)
  {
  }

  // -------------------------------------------------------------------------
  // Who has which node

  /** No node is lost, shared or freed too early: those in chains and in the pool are the allocated ones. */
  ghost predicate Accounted(chained: multiset<nat>, spare: seq<Addr>, heap: set<Addr>) {
    chained + multiset(spare) == multiset(heap)
  }

  ghost predicate Whole<K, P>(mem: Memory<K, P>) {
    mem.key.Keys == mem.load.Keys == mem.next.Keys
  }

  lemma AccountedOnce(chained: multiset<nat>, spare: seq<Addr>, heap: set<Addr>)
    requires Accounted(chained, spare, heap)
    ensures Once(chained) && forall a :: a in chained ==> a in heap && a !in spare
    ensures forall a :: a in spare ==> a in heap
  {
    forall a
      ensures chained[a] <= 1 && (a in chained ==> a in heap && a !in spare) && (a in spare ==> a in heap)
    {
      assert (chained + multiset(spare))[a] == chained[a] + multiset(spare)[a] == multiset(heap)[a] <= 1;
      assert a in spare <==> a in multiset(spare);
    }
  }

  /** The first spare node in hand. */
  lemma PoolToHand(chained: multiset<nat>, spare: seq<Addr>, heap: set<Addr>)
    requires Accounted(chained, spare, heap) && spare != []
    ensures Accounted(chained + multiset{spare[0]}, spare[1..], heap)
  {
    assert spare == [spare[0]] + spare[1..];
    assert multiset(spare) == multiset{spare[0]} + multiset(spare[1..]);
    assert chained + multiset{spare[0]} + multiset(spare[1..]) == chained + multiset(spare);
  }

  /** A new node in hand. */
  lemma HeapToHand(chained: multiset<nat>, spare: seq<Addr>, heap: set<Addr>, node: Addr)
    requires Accounted(chained, spare, heap) && node !in heap
    ensures Accounted(chained + multiset{node}, spare, heap + {node})
  {
    assert multiset(heap + {node}) == multiset(heap) + multiset{node};
    assert chained + multiset{node} + multiset(spare) == chained + multiset(spare) + multiset{node};
  }

  /** A node in hand can go into the pool or to the allocator. */
  lemma HandBack(chained: multiset<nat>, spare: seq<Addr>, heap: set<Addr>, node: Addr)
    requires Accounted(chained + multiset{node}, spare, heap)
    ensures Accounted(chained, [node] + spare, heap) && Accounted(chained, spare, heap - {node})
  {
    assert multiset([node] + spare) == multiset{node} + multiset(spare);
    assert chained + multiset{node} + multiset(spare) == chained + multiset([node] + spare);
    forall e: nat
      ensures (chained + multiset(spare))[e] == multiset(heap - {node})[e]
    {
      assert (chained + multiset{node} + multiset(spare))[e] == multiset(heap)[e];
      assert (chained + multiset{node} + multiset(spare))[e] == (chained + multiset(spare))[e] + multiset{node}[e];
    }
    assert chained + multiset(spare) == multiset(heap - {node});
  }

  lemma InHand(chained: multiset<nat>, spare: seq<Addr>, heap: set<Addr>, node: Addr)
    requires Accounted(chained + multiset{node}, spare, heap)
    ensures node in heap && node !in chained && node !in spare
  {
    hide Accounted;
    AccountedOnce(chained + multiset{node}, spare, heap);
    assert (chained + multiset{node})[node] == chained[node] + 1;
    assert node in chained + multiset{node};
  }

  /** Changing the fields of a node that is in no list changes no list. */
  lemma Outside<K, P>(mem: Memory<K, P>, mem': Memory<K, P>, heads: seq<Option<Addr>>, bs: seq<seq<Node<K, P>>>,
                      pool: Option<Addr>, spare: seq<Addr>, node: Addr)
    requires Lists(mem, heads, bs) && IsChain(mem.next, pool, spare) && node !in AllAddrs(bs) && node !in spare
    requires forall a :: a != node ==> Same(mem.next, mem.key, mem.load, mem'.next, mem'.key, mem'.load, a)
    ensures Lists(mem', heads, bs) && IsChain(mem'.next, pool, spare)
  {
    hide AllLinked, AllAddrs;
    AllLinkedFrame(mem.next, mem.key, mem.load, mem'.next, mem'.key, mem'.load, heads, bs);
    forall a | a in spare
      ensures a in mem'.next && mem'.next[a] == mem.next[a]
    {
      var i :| 0 <= i < |spare| && spare[i] == a;
      ChainAt(mem.next, pool, spare, i);
      assert Same(mem.next, mem.key, mem.load, mem'.next, mem'.key, mem'.load, a);
    }
    ChainFrame(mem.next, mem'.next, pool, spare);
  }

  ghost predicate Fill(size: nat, used: nat) { used <= size + size / 8 + 1 }

  /** Since the first `from` releases exactly the entries of `m` have been released, each once. */
  ghost predicate Handed<K, P, C(!new)>(keys: Classes<K, C>, released: seq<(K, P)>, from: nat, m: map<C, P>) {
    |released| == from + |m| &&
    forall c :: c in m ==> exists j :: from <= j < |released| && keys.of(released[j].0) == c && released[j].1 == m[c]
  }

  lemma HandedMore<K, P, C(!new)>(keys: Classes<K, C>, released: seq<(K, P)>, from: nat, m: map<C, P>, key: K, load: P)
    requires Handed(keys, released, from, m) && keys.of(key) !in m
    ensures Handed(keys, released + [(key, load)], from, m[keys.of(key) := load])
  {
    var r, m' := released + [(key, load)], m[keys.of(key) := load];
    forall c | c in m'
      ensures exists j :: from <= j < |r| && keys.of(r[j].0) == c && r[j].1 == m'[c]
    {
      if c == keys.of(key) {
        assert r[|released|] == (key, load);
      } else {
        var j :| from <= j < |released| && keys.of(released[j].0) == c && released[j].1 == m[c];
        assert r[j] == released[j];
      }
    }
  }

  /** What holds while chains are emptied: `rest` are the chains still to be freed. */
  ghost predicate Emptying<K, P, C(!new)>(keys: Classes<K, C>, mem: Memory<K, P>, pool: Option<Addr>, poolSize: nat,
                                          spare: seq<Addr>, released: seq<(K, P)>,
                                          heads: seq<Option<Addr>>, rest: seq<seq<Node<K, P>>>, left: map<C, P>,
                                          m: map<C, P>, from: nat)
  {
    && Lists(mem, heads, rest) && IsChain(mem.next, pool, spare) && poolSize == |spare| <= POOL_SIZE && Whole(mem)
    && Accounted(AllAddrs(rest), spare, mem.next.Keys)
    && Holds(keys, rest, left) && (forall c :: c in left ==> c in m && left[c] == m[c])
    && Handed(keys, released, from, m - left.Keys)
  }

  lemma StartHanded<K, P, C(!new)>(keys: Classes<K, C>, released: seq<(K, P)>, m: map<C, P>)
    ensures Handed(keys, released, |released|, m - m.Keys)
  {
    assert m - m.Keys == map[];
  }

  /** The first node of chain `n`, if it has one. */
  lemma EmptyingAt<K, P, C(!new)>(keys: Classes<K, C>, mem: Memory<K, P>, pool: Option<Addr>, poolSize: nat,
                                  spare: seq<Addr>, released: seq<(K, P)>,
                                  heads: seq<Option<Addr>>, rest: seq<seq<Node<K, P>>>, left: map<C, P>, m: map<C, P>,
                                  from: nat, n: nat)
    requires Emptying(keys, mem, pool, poolSize, spare, released, heads, rest, left, m, from) && n < |rest| == |heads|
    ensures heads[n].None? <==> rest[n] == []
    ensures heads[n].Some? ==> heads[n] == Some(rest[n][0].addr) && heads[n].value in mem.next
  {
    hide Holds, AllAddrs, Accounted, Handed;
    assert Linked(mem.next, mem.key, mem.load, heads[n], rest[n]);
    ChainHead(mem.next, heads[n], Sites(rest[n]));
  }

  lemma DoneEmptying<K, P, C(!new)>(keys: Classes<K, C>, mem: Memory<K, P>, pool: Option<Addr>, poolSize: nat,
                                    spare: seq<Addr>, released: seq<(K, P)>,
                                    heads: seq<Option<Addr>>, rest: seq<seq<Node<K, P>>>, left: map<C, P>,
                                    m: map<C, P>, from: nat, bucket: seq<Option<Addr>>)
    requires Emptying(keys, mem, pool, poolSize, spare, released, heads, rest, left, m, from) && |rest| == |bucket| > 0
    requires forall j :: 0 <= j < |rest| ==> rest[j] == [] && bucket[j] == None
    ensures AllAddrs(rest) == multiset{} && Holds(keys, rest, map[]) && Handed(keys, released, from, m)
    ensures Lists(mem, bucket, rest) && Accounted(AllAddrs(rest), spare, mem.next.Keys)
    ensures IsChain(mem.next, pool, spare) && poolSize == |spare| <= POOL_SIZE && Whole(mem)
  {
    hide AllAddrs, Accounted, Handed, Holds, IsChain, AllLinked;
    HoldsNothing<K, P, C>(keys, rest);
    HoldsOne(keys, rest, left, map[]);
    NoneLinked(mem.next, mem.key, mem.load, bucket, rest);
    assert m - left.Keys == m;
  }

  // -------------------------------------------------------------------------
  // The table

  class Table<K(!new), P, C(==, !new)> {
    const hash: K -> hash64
    const same: (K, K) -> bool
    ghost const keys: Classes<K, C>

    var mem: Memory<K, P>
    var bucket: seq<Option<Addr>>
    var size: nat
    var used: nat
    var pool: Option<Addr>
    var poolSize: nat
    /** Keys and loads that went to the free functions, in order. */
    var released: seq<(K, P)>

    /** The chains, and the spare nodes. */
    ghost var nodes: seq<seq<Node<K, P>>>
    ghost var spare: seq<Addr>
    /** The mapping that the chains stand for. */
    ghost var contents: map<C, P>

    ghost predicate Pooled()
      reads this
    {
      IsChain(mem.next, pool, spare) && poolSize == |spare| <= POOL_SIZE && Whole(mem)
    }

    ghost predicate Shaped()
      reads this
    {
      && Agree(keys, hash, same)
      && size == |bucket| && SizeOk(size)
      && Lists(mem, bucket, nodes) && Holds(keys, nodes, contents)
      && used == |contents|
    }

    ghost predicate Valid()
      reads this
    {
      Shaped() && Pooled() && Fill(size, used) && Accounted(AllAddrs(nodes), spare, mem.next.Keys)
    }

    /** `hashtable_alloc`, `bag_alloc`, once the bucket array has been allocated. */
    constructor (size: nat, hash: K -> hash64, same: (K, K) -> bool, ghost keys: Classes<K, C>)
      requires size < Pow2(WORD) && Granted(RoundUp(size), true) && Agree(keys, hash, same)
      ensures Valid() && contents == map[] && mem.next == map[] && this.size == RoundUp(size) && this.keys == keys
      ensures released == []
    {
      hide Holds, AllAddrs, Agree, RoundUp, Pow2, AllLinked, IsChain;
      StartSize(size);
      var n := RoundUp(size);
      var none: seq<Option<Addr>> := seq(n, _ => None);
      ghost var empty: seq<seq<Node<K, P>>> := seq(n, _ => []);
      HoldsNothing<K, P, C>(keys, empty);
      NoneLinked<K, P>(map[], map[], map[], none, empty);
      NoChain(map[]);
      this.hash, this.same, this.keys := hash, same, keys;
      this.mem := Memory(map[], map[], map[]);
      this.bucket, this.size, this.used := none, n, 0;
      this.pool, this.poolSize, this.released := None, 0, [];
      this.nodes, this.spare, this.contents := empty, [], map[];
    }

    /** The link that leads to the node of `key`, and the node; `b` and `i` are its chain and its place there. */
    method Lookup(key: K) returns (link: Link, node: Option<Addr>, ghost b: nat, ghost i: nat)
      requires Valid()
      ensures b == keys.code(keys.of(key)) % |nodes| && b < |nodes| && i <= |nodes[b]|
      ensures link == LinkAt(nodes, b, i) && (node.Some? <==> i < |nodes[b]|)
      ensures (node.Some? <==> keys.of(key) in contents)
      ensures node.Some? ==>
        && node.value == nodes[b][i].addr && keys.of(nodes[b][i].key) == keys.of(key)
        && node.value in mem.load && mem.load[node.value] == nodes[b][i].load == contents[keys.of(key)]
    {
      hide Holds, AllAddrs, Agree, IsPow2, Get, AllLinked, Accounted, IsChain, Leads;
      link, node, b, i := Seek(bucket, mem, hash, same, key, keys, nodes);
      Misses(keys, nodes, contents, keys.of(key));
      if i < |nodes[b]| {
        NodeFields(mem, bucket, nodes, b, i);
      }
    }

    /** `__hashtable_resize`, `__bag_resize`; `memory` says whether the allocator has room for the new buckets. */
    method Resize(newSize: nat, memory: bool) returns (code: int)
      requires Shaped() && Pooled() && Accounted(AllAddrs(nodes), spare, mem.next.Keys) && newSize <= Pow2(63)
      modifies this`bucket, this`size, this`mem, this`nodes
      ensures Shaped() && Pooled() && AllAddrs(nodes) == old(AllAddrs(nodes)) && mem.next.Keys == old(mem.next.Keys)
      ensures newSize < Pow2(WORD) && code == if Granted(RoundUp(newSize), memory) then 0 else -1
      ensures code == 0 ==> size == RoundUp(newSize)
      ensures code != 0 ==> bucket == old(bucket) && size == old(size) && mem == old(mem) && nodes == old(nodes)
    {
      hide Holds, AllAddrs, Agree, IsPow2, RoundUp, Pow2, AllLinked, IsChain, Once, Accounted, SameBut;
      Pow2Values();
      StartSize(newSize);
      var n := RoundUp(newSize);
      if !Granted(n, memory) {
        return -1;
      }
      AccountedOnce(AllAddrs(nodes), spare, mem.next.Keys);
      var bucket', mem';
      ghost var nodes';
      bucket', mem', nodes' := Rehash(bucket, mem, n, hash, same, keys, nodes, contents);
      SpareKept(mem, mem', AllAddrs(nodes), pool, spare);
      bucket, mem, nodes, size := bucket', mem', nodes', n;
      return 0;
    }

    /** `__hashnode_alloc`, `__bagnode_alloc`: a node from the pool, or the one that the allocator gives. */
    method NodeAlloc(given: Option<Addr>, k: K, v: P) returns (node: Option<Addr>)
      requires Lists(mem, bucket, nodes) && Pooled() && Accounted(AllAddrs(nodes), spare, mem.next.Keys)
      requires given.Some? ==> given.value !in mem.next
      modifies this`pool, this`poolSize, this`spare, this`mem
      ensures Lists(mem, bucket, nodes) && Pooled()
      ensures node == if old(spare) != [] then Some(old(spare)[0]) else given
      ensures node.None? ==> Accounted(AllAddrs(nodes), spare, mem.next.Keys) && mem == old(mem)
      ensures node.Some? ==>
        Accounted(AllAddrs(nodes) + multiset{node.value}, spare, mem.next.Keys) &&
        node.value in mem.next && mem.next[node.value] == None && mem.key[node.value] == k && mem.load[node.value] == v
    {
      hide AllAddrs, AllLinked, IsChain, Accounted, Once;
      AccountedOnce(AllAddrs(nodes), spare, mem.next.Keys);
      ChainHead(mem.next, pool, spare);
      if pool.Some? {
        node := pool;
        PoolToHand(AllAddrs(nodes), spare, mem.next.Keys);
        assert mem.next.Keys + {pool.value} == mem.next.Keys;
        pool, poolSize, spare := mem.next[pool.value], poolSize - 1, spare[1..];
      } else if given.None? {
        return None;
      } else {
        node := given;
        HeapToHand(AllAddrs(nodes), spare, mem.next.Keys, given.value);
      }
      var a := node.value;
      InHand(AllAddrs(nodes), spare, mem.next.Keys + {a}, a);
      var mem' := Memory(mem.next[a := None], mem.key[a := k], mem.load[a := v]);
      Outside(mem, mem', bucket, nodes, pool, spare, a);
      assert mem'.next.Keys == mem.next.Keys + {a};
      mem := mem';
    }

    /**
     `__hashnode_free`, `__bagnode_free`: key and load go to their free functions, the node into the pool,
     or back to the allocator if the pool is full.  `heads` and `bs` are the chains without it.
     */
    method NodeFree(node: Addr, ghost heads: seq<Option<Addr>>, ghost bs: seq<seq<Node<K, P>>>)
      requires Lists(mem, heads, bs) && Pooled() && Accounted(AllAddrs(bs) + multiset{node}, spare, mem.next.Keys)
      modifies this`pool, this`poolSize, this`spare, this`mem, this`released
      ensures Lists(mem, heads, bs) && Pooled() && Accounted(AllAddrs(bs), spare, mem.next.Keys)
      ensures mem.next.Keys == if old(poolSize) < POOL_SIZE then old(mem.next.Keys) else old(mem.next.Keys) - {node}
      ensures old(node in mem.key && node in mem.load)
      ensures released == old(released) + [(old(mem.key)[node], old(mem.load)[node])]
    {
      hide AllAddrs, AllLinked, IsChain, Accounted;
      InHand(AllAddrs(bs), spare, mem.next.Keys, node);
      HandBack(AllAddrs(bs), spare, mem.next.Keys, node);
      released := released + [(mem.key[node], mem.load[node])];
      if poolSize < POOL_SIZE {
        var mem' := mem.(next := mem.next[node := pool]);
        Outside(mem, mem', heads, bs, pool, spare, node);
        ChainPush(mem.next, pool, spare, node);
        mem := mem';
        pool, poolSize, spare := Some(node), poolSize + 1, [node] + spare;
      } else {
        var mem' := Memory(mem.next - {node}, mem.key - {node}, mem.load - {node});
        Outside(mem, mem', heads, bs, pool, spare, node);
        mem := mem';
      }
    }

    /** The growth that comes before a new entry: `key` is not in the table. */
    method MakeRoom(key: K, link: Link, memory: bool, ghost b: nat) returns (code: int, link': Link, ghost b': nat)
      requires Valid() && keys.of(key) !in contents && b == keys.code(keys.of(key)) % |nodes|
      requires b < |nodes| && link == LinkAt(nodes, b, |nodes[b]|)
      modifies this`bucket, this`size, this`mem, this`nodes
      ensures Valid() && mem.next.Keys == old(mem.next.Keys)
      ensures code == 0 || code == -1
      ensures code == -1 <==> used > old(size) + old(size) / 8 && !Granted(2 * old(size), memory)
      ensures code == 0 ==> used <= size + size / 8
      ensures code == 0 ==>
        b' < |nodes| && b' == keys.code(keys.of(key)) % |nodes| && link' == LinkAt(nodes, b', |nodes[b']|)
      ensures size == if code == 0 && used > old(size) + old(size) / 8 then 2 * old(size) else old(size)
      ensures code == -1 ==> bucket == old(bucket) && mem == old(mem)
    {
      hide Holds, AllAddrs, Agree, IsPow2, RoundUp, Pow2, Accounted, AllLinked, IsChain;
      code, link', b' := 0, link, b;
      if used > size + size / 8 {
        GrowSize(size);
        Pow2Values();
        code := Resize(size + if size < 64 then size / 2 else size, memory);
        if code == 0 {
          var node;
          ghost var i;
          link', node, b', i := Lookup(key);
        }
      }
    }

    /** A new node at the end of its chain: `*link = node`. */
    method AddNode(key: K, load: P, link: Link, given: Option<Addr>, ghost b: nat) returns (ok: bool)
      requires Valid() && used <= size + size / 8 && (given.Some? ==> given.value !in mem.next)
      requires keys.of(key) !in contents && b < |nodes| && b == keys.code(keys.of(key)) % |nodes|
      requires link == LinkAt(nodes, b, |nodes[b]|)
      modifies this`bucket, this`used, this`pool, this`poolSize, this`mem, this`contents, this`nodes, this`spare
      ensures Valid() && ok == (old(pool).Some? || given.Some?)
      ensures contents == if ok then old(contents)[keys.of(key) := load] else old(contents)
    {
      hide Holds, AllAddrs, Agree, IsPow2, Accounted, AllLinked, IsChain, Once, LinkAt;
      ChainHead(mem.next, pool, spare);
      var node := NodeAlloc(given, key, load);
      ok := node.Some?;
      if ok {
        Attach(node.value, key, load, link, b);
      }
    }

    /** `*link = node` for a node in hand. */
    method Attach(a: Addr, ghost key: K, ghost load: P, link: Link, ghost b: nat)
      requires Shaped() && Pooled() && used <= size + size / 8
      requires Accounted(AllAddrs(nodes) + multiset{a}, spare, mem.next.Keys)
      requires a in mem.next && mem.next[a] == None && mem.key[a] == key && mem.load[a] == load
      requires keys.of(key) !in contents && b < |nodes| && b == keys.code(keys.of(key)) % |nodes|
      requires link == LinkAt(nodes, b, |nodes[b]|)
      modifies this`bucket, this`used, this`mem, this`contents, this`nodes
      ensures Valid() && contents == old(contents)[keys.of(key) := load]
    {
      hide Holds, AllAddrs, Agree, IsPow2, Accounted, AllLinked, IsChain, HeadsWith, NextWith, LinkAt;
      ghost var n := Node(a, key, load);
      Attached(mem, bucket, nodes, b, n, pool, spare);
      Appended(keys, nodes, contents, b, n);
      bucket, mem := HeadsWith(bucket, link, Some(a)), mem.(next := NextWith(mem.next, link, Some(a)));
      nodes := nodes[b := nodes[b] + [n]];
      contents := contents[keys.of(key) := load];
      used := used + 1;
    }

    /** A new load for the node at place `i` of chain `b`. */
    method Replace(node: Addr, load: P, ghost b: nat, ghost i: nat)
      requires Valid() && b < |nodes| && i < |nodes[b]| && nodes[b][i].addr == node
      modifies this`mem, this`contents, this`nodes
      ensures Valid() && nodes == old(nodes)[b := old(nodes)[b][i := old(nodes)[b][i].(load := load)]]
      ensures old(keys.of(nodes[b][i].key)) in old(contents)
      ensures contents == old(contents)[old(keys.of(nodes[b][i].key)) := load]
      ensures mem == old(mem).(load := old(mem.load)[node := load])
    {
      hide Holds, AllAddrs, Agree, IsPow2, Accounted, AllLinked, IsChain, Once;
      AccountedOnce(AllAddrs(nodes), spare, mem.next.Keys);
      NodeFields(mem, bucket, nodes, b, i);
      AllLinkedLoad(mem.next, mem.key, mem.load, bucket, nodes, b, i, load);
      Replaced(keys, nodes, contents, b, i, load);
      contents := contents[keys.of(nodes[b][i].key) := load];
      mem := mem.(load := mem.load[node := load]);
      nodes := nodes[b := nodes[b][i := nodes[b][i].(load := load)]];
    }

    /** Take the node at place `i` of chain `b` out, and shrink a table that has become too large. */
    method Unlink(link: Link, node: Addr, memory: bool, ghost b: nat, ghost i: nat)
      requires Valid() && b < |nodes| && i < |nodes[b]| && link == LinkAt(nodes, b, i) && node == nodes[b][i].addr
      modifies this
      ensures Valid() && contents == old(contents) - {old(keys.of(nodes[b][i].key))}
      ensures |contents| == old(|contents|) - 1
      ensures size == if used < old(size) / 2 - old(size) / 4 && memory && old(size) > 8 then old(size) / 2
        else old(size)
      ensures mem.next.Keys == if old(poolSize) < POOL_SIZE then old(mem.next.Keys) else old(mem.next.Keys) - {node}
      ensures released == old(released) + [(old(nodes[b][i].key), old(nodes[b][i].load))]
    {
      hide Holds, AllAddrs, Agree, IsPow2, Accounted, AllLinked, IsChain;
      DropNode(link, node, b, i);
      if used < size / 2 - size / 4 {
        Smaller(memory);
      }
    }

    /** `*link = node->next`, and the node is given back. */
    method DropNode(link: Link, node: Addr, ghost b: nat, ghost i: nat)
      requires Valid() && b < |nodes| && i < |nodes[b]| && link == LinkAt(nodes, b, i) && node == nodes[b][i].addr
      modifies this
      ensures Valid() && contents == old(contents) - {old(keys.of(nodes[b][i].key))} && size == old(size)
      ensures |contents| == old(|contents|) - 1
      ensures mem.next.Keys == if old(poolSize) < POOL_SIZE then old(mem.next.Keys) else old(mem.next.Keys) - {node}
      ensures released == old(released) + [(old(nodes[b][i].key), old(nodes[b][i].load))]
    {
      hide Holds, AllAddrs, Agree, SizeOk, Accounted, Lists, Whole, Fill, IsChain, Drop, LinkAt;
      Detach(link, node, b, i);
      NodeFree(node, bucket, nodes);
    }

    /** `*link = node->next`: the node is in hand then. */
    method Detach(link: Link, node: Addr, ghost b: nat, ghost i: nat)
      requires Valid() && b < |nodes| && i < |nodes[b]| && link == LinkAt(nodes, b, i) && node == nodes[b][i].addr
      modifies this`bucket, this`used, this`mem, this`contents, this`nodes
      ensures Shaped() && Pooled() && Fill(size, used)
      ensures Accounted(AllAddrs(nodes) + multiset{node}, spare, mem.next.Keys)
      ensures contents == old(contents) - {old(keys.of(nodes[b][i].key))} && |contents| == old(|contents|) - 1
      ensures mem.next.Keys == old(mem.next.Keys) && node in mem.key && node in mem.load
      ensures mem.key[node] == old(nodes[b][i].key) && mem.load[node] == old(nodes[b][i].load)
    {
      hide Holds, AllAddrs, Agree, IsPow2, Accounted, AllLinked, IsChain, Passed, Drop, HeadsWith, NextWith, LinkAt;
      FoundAt(keys, nodes, contents, b, i);
      Dropped(keys, nodes, contents, b, i);
      Detached(mem, bucket, nodes, b, i, pool, spare);
      var after := mem.next[node];
      bucket, mem := HeadsWith(bucket, link, after), mem.(next := NextWith(mem.next, link, after));
      contents := contents - {keys.of(nodes[b][i].key)};
      nodes := nodes[b := Drop(nodes[b], i)];
      used := used - 1;
    }

    method Smaller(memory: bool)
      requires Valid() && used < size / 2 - size / 4
      modifies this`bucket, this`size, this`mem, this`nodes
      ensures Valid() && mem.next.Keys == old(mem.next.Keys)
      ensures size == if memory && old(size) > 8 then old(size) / 2 else old(size)
    {
      hide Holds, AllAddrs, Agree, IsPow2, Accounted, RoundUp, Pow2, AllLinked, IsChain;
      ShrinkSize(size);
      Pow2Values();
      var code := Resize(size / 2, memory);
    }

    /** `hashtable_clear`, `bag_clear` */
    method Clear(memory: bool)
      requires Valid()
      modifies this
      ensures Valid() && contents == map[] && used == 0
      ensures size == if old(size) > 1024 && memory then old(size) / 8 else old(size)
      ensures mem.next.Keys <= old(mem.next.Keys) && AllAddrs(nodes) == multiset{}
      ensures old(released) <= released && Handed(keys, released, old(|released|), old(contents))
    {
      hide Holds, AllAddrs, Agree, IsPow2, Accounted, RoundUp, Pow2, AllLinked, IsChain, Handed;
      FreeNodes();
      if size > 1024 {
        ClearSize(size);
        Pow2Values();
        var code := Resize(size / 8, memory);
      }
    }

    /** The loops that empty all chains, last bucket first. */
    method FreeNodes()
      requires Valid()
      modifies this
      ensures Valid() && contents == map[] && used == 0 && size == old(size)
      ensures mem.next.Keys <= old(mem.next.Keys) && AllAddrs(nodes) == multiset{}
      ensures old(released) <= released && Handed(keys, released, old(|released|), old(contents))
    {
      hide Holds, AllAddrs, Agree, IsPow2, AllLinked, Whole, IsChain, Accounted, Handed, Drop, Emptying;
      var n := size;
      ghost var heads, rest, left, m, from := bucket, nodes, contents, contents, |released|;
      SameLength(mem, bucket, nodes);
      StartHanded(keys, released, contents);
      StartEmptying(heads, rest, left, m, from);
      while n > 0
        invariant 0 <= n <= size == old(size) == |bucket| == |heads| == |rest|
        invariant Emptying(keys, mem, pool, poolSize, spare, released, heads, rest, left, m, from)
        invariant old(released) <= released && mem.next.Keys <= old(mem.next.Keys)
        invariant forall j :: 0 <= j < n ==> bucket[j] == heads[j]
        invariant forall j :: n <= j < size ==> bucket[j] == None && rest[j] == []
      {
        n := n - 1;
        var p := bucket[n];
        while p.Some?
          invariant n < size == old(size) == |bucket| == |heads| == |rest| && p == heads[n]
          invariant Emptying(keys, mem, pool, poolSize, spare, released, heads, rest, left, m, from)
          invariant old(released) <= released && mem.next.Keys <= old(mem.next.Keys)
          invariant forall j :: 0 <= j < n ==> bucket[j] == heads[j]
          invariant forall j :: n < j < size ==> bucket[j] == None && rest[j] == []
          decreases |rest[n]|
        {
          EmptyingAt(keys, mem, pool, poolSize, spare, released, heads, rest, left, m, from, n);
          var nx := mem.next[p.value];
          FreeOne(p.value, heads, rest, left, m, from, n);
          heads, rest, left := heads[n := nx], rest[n := Drop(rest[n], 0)], left - {keys.of(rest[n][0].key)};
          p := nx;
        }
        EmptyingAt(keys, mem, pool, poolSize, spare, released, heads, rest, left, m, from, n);
        bucket := bucket[n := None];
      }
      DoneEmptying(keys, mem, pool, poolSize, spare, released, heads, rest, left, m, from, bucket);
      nodes, contents := rest, map[];
      used := 0;
    }

    lemma StartEmptying(heads: seq<Option<Addr>>, rest: seq<seq<Node<K, P>>>, left: map<C, P>, m: map<C, P>, from: nat)
      requires Valid() && heads == bucket && rest == nodes && left == m == contents && from == |released|
      requires Handed(keys, released, from, m - m.Keys)
      ensures Emptying(keys, mem, pool, poolSize, spare, released, heads, rest, left, m, from)
    {
      hide Holds, AllAddrs, Agree, IsPow2, AllLinked, IsChain, Accounted, Handed;
    }

    /** Free the first node of chain `n`. */
    method FreeOne(p: Addr, ghost heads: seq<Option<Addr>>, ghost rest: seq<seq<Node<K, P>>>, ghost left: map<C, P>,
                   ghost m: map<C, P>, ghost from: nat, ghost n: nat)
      requires Emptying(keys, mem, pool, poolSize, spare, released, heads, rest, left, m, from)
      requires n < |rest| == |heads| && rest[n] != [] && rest[n][0].addr == p && p in mem.next
      modifies this`pool, this`poolSize, this`spare, this`mem, this`released
      ensures Emptying(keys, mem, pool, poolSize, spare, released, heads[n := old(mem.next)[p]],
                       rest[n := Drop(rest[n], 0)], left - {keys.of(rest[n][0].key)}, m, from)
      ensures old(released) <= released && mem.next.Keys <= old(mem.next.Keys)
    {
      hide Holds, AllAddrs, AllLinked, IsChain, Accounted, Once, Handed, Drop, Passed;
      ghost var node, c, rest' := rest[n][0], keys.of(rest[n][0].key), rest[n := Drop(rest[n], 0)];
      AccountedOnce(AllAddrs(rest), spare, mem.next.Keys);
      FoundAt(keys, rest, left, n, 0);
      Dropped(keys, rest, left, n, 0);
      NodeFields(mem, heads, rest, n, 0);
      AllLinkedDrop(mem.next, mem.key, mem.load, heads, rest, n, 0);
      HandedMore(keys, released, from, m - left.Keys, node.key, node.load);
      assert (m - left.Keys)[c := node.load] == m - (left - {c}).Keys;
      NodeFree(p, heads[n := mem.next[p]], rest');
    }

    /** `hashtable_free`, `bag_free`: every node goes back to the allocator. */
    method Free(memory: bool)
      requires Valid()
      modifies this
      ensures mem.next == map[] && Handed(keys, released, old(|released|), old(contents))
    {
      hide Holds, AllAddrs, Agree, IsPow2, AllLinked, IsChain, Handed;
      Clear(memory);
      assert Accounted(multiset{}, spare, mem.next.Keys);
      while pool.Some?
        invariant IsChain(mem.next, pool, spare) && Accounted(multiset{}, spare, mem.next.Keys)
        invariant Handed(keys, released, old(|released|), old(contents))
        decreases |spare|
      {
        FreeSpare(mem.next, pool, spare);
        var p := pool.value;
        pool := mem.next[p];
        mem := Memory(mem.next - {p}, mem.key - {p}, mem.load - {p});
        spare := spare[1..];
      }
      ChainHead(mem.next, pool, spare);
      assert multiset(mem.next.Keys) == multiset{};
      assert forall a :: a in mem.next.Keys <==> a in multiset(mem.next.Keys);
      assert mem.next.Keys == {};
    }
  }

  lemma StartSize(size: nat)
    requires size < Pow2(WORD)
    ensures Granted(RoundUp(size), true) ==> SizeOk(RoundUp(size))
  {
    hide Pow2, RoundUp;
    RoundUpIsLeast(size);
  }

  /** Rehashing does not touch the spare nodes. */
  lemma SpareKept<K, P>(mem: Memory<K, P>, mem': Memory<K, P>, chained: multiset<nat>, pool: Option<Addr>,
                        spare: seq<Addr>)
    requires SameBut(mem, mem', chained) && IsChain(mem.next, pool, spare) && Whole(mem)
    requires Accounted(chained, spare, mem.next.Keys)
    ensures IsChain(mem'.next, pool, spare) && Whole(mem') && mem'.next.Keys == mem.next.Keys
  {
    hide Accounted;
    AccountedOnce(chained, spare, mem.next.Keys);
    ChainFrame(mem.next, mem'.next, pool, spare);
  }

  /** The link at the end of a chain is in an allocated node, and not in a spare one. */
  lemma LinkInHeap<K, P>(mem: Memory<K, P>, heads: seq<Option<Addr>>, bs: seq<seq<Node<K, P>>>, b: nat)
    requires Lists(mem, heads, bs) && b < |bs|
    ensures var link := LinkAt(bs, b, |bs[b]|); link.Next? ==> link.a in mem.next && link.a in AllAddrs(bs)
  {
    hide AllAddrs, Sites, AllLinked;
    if bs[b] != [] {
      NodeFields(mem, heads, bs, b, |bs[b]| - 1);
      LastSite(bs[b]);
      InAll(bs, b, bs[b][|bs[b]| - 1].addr);
    }
  }

  /** The lists after `*link = node` for a node in hand. */
  lemma Attached<K, P>(mem: Memory<K, P>, heads: seq<Option<Addr>>, bs: seq<seq<Node<K, P>>>, b: nat, node: Node<K, P>,
                       pool: Option<Addr>, spare: seq<Addr>)
    requires Lists(mem, heads, bs) && b < |bs| && IsChain(mem.next, pool, spare) && Whole(mem)
    requires Accounted(AllAddrs(bs) + multiset{node.addr}, spare, mem.next.Keys)
    requires node.addr in mem.next && mem.next[node.addr] == None && mem.key[node.addr] == node.key
    requires mem.load[node.addr] == node.load
    ensures var link := LinkAt(bs, b, |bs[b]|);
      var mem' := mem.(next := NextWith(mem.next, link, Some(node.addr)));
      && Lists(mem', HeadsWith(heads, link, Some(node.addr)), bs[b := bs[b] + [node]])
      && IsChain(mem'.next, pool, spare) && Whole(mem') && mem'.next.Keys == mem.next.Keys
  {
    hide AllAddrs, AllLinked, IsChain, Accounted, Once, Sites;
    var a, link := node.addr, LinkAt(bs, b, |bs[b]|);
    InHand(AllAddrs(bs), spare, mem.next.Keys, a);
    AccountedOnce(AllAddrs(bs) + multiset{a}, spare, mem.next.Keys);
    OnceMinus(AllAddrs(bs), a, AllAddrs(bs) + multiset{a});
    AllLinkedSnoc(mem.next, mem.key, mem.load, heads, bs, b, node);
    LinkInHeap(mem, heads, bs, b);
    SpareFrame(mem.next, link, a, pool, spare, bs, b);
    assert NextWith(mem.next, link, Some(a))[a := None] == NextWith(mem.next, link, Some(a));
  }

  /** The lists after `*link = node->next`. */
  lemma Detached<K, P>(mem: Memory<K, P>, heads: seq<Option<Addr>>, bs: seq<seq<Node<K, P>>>, b: nat, i: nat,
                       pool: Option<Addr>, spare: seq<Addr>)
    requires Lists(mem, heads, bs) && b < |bs| && i < |bs[b]| && IsChain(mem.next, pool, spare) && Whole(mem)
    requires Accounted(AllAddrs(bs), spare, mem.next.Keys)
    ensures var a := bs[b][i].addr;
      a in mem.next && a in mem.key && mem.key[a] == bs[b][i].key && mem.load[a] == bs[b][i].load
    ensures var a, link := bs[b][i].addr, LinkAt(bs, b, i);
      var mem' := mem.(next := NextWith(mem.next, link, mem.next[a]));
      && Lists(mem', HeadsWith(heads, link, mem.next[a]), bs[b := Drop(bs[b], i)])
      && IsChain(mem'.next, pool, spare) && Whole(mem') && mem'.next.Keys == mem.next.Keys
  {
    hide AllAddrs, AllLinked, IsChain, Accounted, Once, Sites, Drop;
    AccountedOnce(AllAddrs(bs), spare, mem.next.Keys);
    NodeFields(mem, heads, bs, b, i);
    AllLinkedDrop(mem.next, mem.key, mem.load, heads, bs, b, i);
    DropInHeap(mem, heads, bs, b, i, pool, spare);
  }

  lemma SpareFrame<K, P>(next: map<Addr, Option<Addr>>, link: Link, a: Addr, pool: Option<Addr>, spare: seq<Addr>,
                         bs: seq<seq<Node<K, P>>>, b: nat)
    requires IsChain(next, pool, spare) && b < |bs| && link == LinkAt(bs, b, |bs[b]|)
    requires link.Next? ==> link.a !in spare
    ensures IsChain(NextWith(next, link, Some(a)), pool, spare)
  {
    hide IsChain;
    if link.Next? {
      ChainUpdate(next, pool, spare, link.a, Some(a));
    }
  }

  lemma DropInHeap<K, P>(mem: Memory<K, P>, heads: seq<Option<Addr>>, bs: seq<seq<Node<K, P>>>, b: nat, i: nat,
                         pool: Option<Addr>, spare: seq<Addr>)
    requires Lists(mem, heads, bs) && b < |bs| && i < |bs[b]| && bs[b][i].addr in mem.next
    requires IsChain(mem.next, pool, spare)
    requires forall a :: a in AllAddrs(bs) ==> a !in spare
    ensures var link, v := LinkAt(bs, b, i), mem.next[bs[b][i].addr];
      NextWith(mem.next, link, v).Keys == mem.next.Keys && IsChain(NextWith(mem.next, link, v), pool, spare)
  {
    hide AllAddrs, Sites, AllLinked, IsChain;
    var link, v := LinkAt(bs, b, i), mem.next[bs[b][i].addr];
    if i > 0 {
      NodeFields(mem, heads, bs, b, i - 1);
      SiteAt(bs[b], i - 1);
      InAll(bs, b, link.a);
      ChainUpdate(mem.next, pool, spare, link.a, v);
    }
  }

  /** The first spare node, freed. */
  lemma FreeSpare(next: map<Addr, Option<Addr>>, pool: Option<Addr>, spare: seq<Addr>)
    requires IsChain(next, pool, spare) && Accounted(multiset{}, spare, next.Keys) && pool.Some?
    ensures spare != [] && pool.value == spare[0] && spare[0] in next
    ensures IsChain(next - {spare[0]}, next[spare[0]], spare[1..])
    ensures Accounted(multiset{}, spare[1..], (next - {spare[0]}).Keys)
  {
    hide IsChain, Accounted;
    ChainHead(next, pool, spare);
    ChainStart(next, pool, spare);
    DistinctTail(spare);
    ChainDrop(next, next[spare[0]], spare[1..], spare[0]);
    PoolToHand(multiset{}, spare, next.Keys);
    HandBack(multiset{}, spare[1..], next.Keys, spare[0]);
    assert (next - {spare[0]}).Keys == next.Keys - {spare[0]};
  }
}
