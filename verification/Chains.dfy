/**
 Bucket chains with a node pool: the part that hashtable/hashtable.c and bag/bag.c have in common.
 A node carries a key and a load, which is the value in the hash table and the count in the bag.
 */
module Chains {
  import opened Options
  import opened Bits

  type hash64 = h: int | 0 <= h < Pow2(64) witness Zero()

  function Zero(): (z: nat)
    ensures z < Pow2(64)
  {
    0
  }

  datatype Node<K, P> = Node(addr: nat, key: K, load: P)

  /** What a key stands for: equal keys have the same class `of`, and the hash depends on the class alone. */
  datatype Classes<!K, !C> = Classes(of: K -> C, code: C -> hash64)

  ghost predicate Agree<K(!new), C>(keys: Classes<K, C>, hash: K -> hash64, same: (K, K) -> bool) {
    && (forall k, l :: same(k, l) <==> keys.of(k) == keys.of(l))
    && (forall k :: hash(k) == keys.code(keys.of(k)))
  }

  // -------------------------------------------------------------------------
  // One chain

  /** The load of the class `c` in a chain. */
  ghost function ChainGet<K, P, C(!new)>(keys: Classes<K, C>, chain: seq<Node<K, P>>, c: C): Option<P> {
    if chain == [] then None
    else if keys.of(chain[0].key) == c then Some(chain[0].load)
    else ChainGet(keys, chain[1..], c)
  }

  /** All keys of the chain belong to bucket `b` of `n`, and no two of them are the same. */
  ghost predicate ChainOk<K, P, C(!new)>(keys: Classes<K, C>, chain: seq<Node<K, P>>, b: nat, n: nat)
    requires n > 0
  {
    && (forall i :: 0 <= i < |chain| ==> keys.code(keys.of(chain[i].key)) % n == b)
    && (forall i, j :: 0 <= i < j < |chain| ==> keys.of(chain[i].key) != keys.of(chain[j].key))
  }

  /** The first `i` nodes of the chain have other classes than `c`. */
  ghost predicate Passed<K, P, C(!new)>(keys: Classes<K, C>, chain: seq<Node<K, P>>, c: C, i: nat) {
    i <= |chain| && forall j :: 0 <= j < i ==> keys.of(chain[j].key) != c
  }

  lemma {:induction false} GetAt<K, P, C(!new)>(keys: Classes<K, C>, chain: seq<Node<K, P>>, c: C, i: nat)
    requires Passed(keys, chain, c, i) && (i < |chain| ==> keys.of(chain[i].key) == c)
    ensures ChainGet(keys, chain, c) == if i < |chain| then Some(chain[i].load) else None
  {
    if i > 0 {
      GetAt(keys, chain[1..], c, i - 1);
    }
  }

  lemma {:induction false} GetAppend<K, P, C(!new)>(keys: Classes<K, C>, chain: seq<Node<K, P>>, node: Node<K, P>, d: C)
    requires ChainGet(keys, chain, keys.of(node.key)) == None
    ensures ChainGet(keys, chain + [node], d) ==
      if d == keys.of(node.key) then Some(node.load) else ChainGet(keys, chain, d)
  {
    if chain != [] {
      assert (chain + [node])[1..] == chain[1..] + [node];
      GetAppend(keys, chain[1..], node, d);
    }
  }

  lemma {:induction false} GetReplace<K, P, C(!new)>(keys: Classes<K, C>, chain: seq<Node<K, P>>, i: nat, load: P, d: C)
    requires i < |chain| && Passed(keys, chain, keys.of(chain[i].key), i)
    ensures ChainGet(keys, chain[i := chain[i].(load := load)], d) ==
      if d == keys.of(chain[i].key) then Some(load) else ChainGet(keys, chain, d)
  {
    if i > 0 {
      assert chain[i := chain[i].(load := load)][1..] == chain[1..][i - 1 := chain[i].(load := load)];
      GetReplace(keys, chain[1..], i - 1, load, d);
    }
  }

  /** The chain without its node `i`. */
  function Drop<T>(chain: seq<T>, i: nat): (r: seq<T>)
    requires i < |chain|
    ensures |r| == |chain| - 1
  {
    chain[..i] + chain[i + 1..]
  }

  lemma {:induction false} GetDrop<K, P, C(!new)>(keys: Classes<K, C>, chain: seq<Node<K, P>>, b: nat, n: nat, i: nat,
                                                  d: C)
    requires n > 0 && i < |chain| && ChainOk(keys, chain, b, n)
    ensures ChainGet(keys, Drop(chain, i), d) ==
      if d == keys.of(chain[i].key) then None else ChainGet(keys, chain, d)
  {
    if i > 0 {
      assert Drop(chain, i)[1..] == Drop(chain[1..], i - 1);
      GetDrop(keys, chain[1..], b, n, i - 1, d);
    } else {
      assert Drop(chain, 0) == chain[1..];
      if d == keys.of(chain[0].key) {
        GetAt(keys, chain[1..], d, |chain| - 1);
      }
    }
  }

  // -------------------------------------------------------------------------
  // All chains

  ghost function Get<K, P, C(!new)>(keys: Classes<K, C>, bs: seq<seq<Node<K, P>>>, c: C): Option<P>
    requires |bs| > 0
  {
    ChainGet(keys, bs[keys.code(c) % |bs|], c)
  }

  ghost function Loaded<P, C(!new)>(m: map<C, P>, c: C): Option<P> {
    if c in m then Some(m[c]) else None
  }

  /** The chains hold exactly the map `m`: every key in its bucket, none twice. */
  ghost predicate Holds<K, P, C(!new)>(keys: Classes<K, C>, bs: seq<seq<Node<K, P>>>, m: map<C, P>) {
    && |bs| > 0
    && (forall b :: 0 <= b < |bs| ==> ChainOk(keys, bs[b], b, |bs|))
    && (forall c :: Get(keys, bs, c) == Loaded(m, c))
  }

  /** The nodes of the chains. */
  ghost function Addrs<K, P>(chain: seq<Node<K, P>>): multiset<nat> {
    if chain == [] then multiset{} else multiset{chain[0].addr} + Addrs(chain[1..])
  }

  ghost function AllAddrs<K, P>(bs: seq<seq<Node<K, P>>>): multiset<nat> {
    if bs == [] then multiset{} else Addrs(bs[0]) + AllAddrs(bs[1..])
  }

  lemma {:induction false} AddrsConcat<K, P>(a: seq<Node<K, P>>, b: seq<Node<K, P>>)
    ensures Addrs(a + b) == Addrs(a) + Addrs(b)
  {
    if a == [] {
      assert a + b == b;
    } else {
      assert (a + b)[1..] == a[1..] + b;
      AddrsConcat(a[1..], b);
    }
  }

  lemma {:induction false} AllAddrsUpdate<K, P>(bs: seq<seq<Node<K, P>>>, b: nat, chain: seq<Node<K, P>>)
    requires b < |bs|
    ensures AllAddrs(bs[b := chain]) + Addrs(bs[b]) == AllAddrs(bs) + Addrs(chain)
  {
    hide Addrs;
    if b == 0 {
      assert bs[b := chain][1..] == bs[1..];
    } else {
      assert bs[b := chain][1..] == bs[1..][b - 1 := chain];
      AllAddrsUpdate(bs[1..], b - 1, chain);
      Swapped(AllAddrs(bs[1..][b - 1 := chain]), Addrs(bs[b]), AllAddrs(bs[1..]), Addrs(chain), Addrs(bs[0]));
    }
  }

  lemma Swapped(now: multiset<nat>, x: multiset<nat>, was: multiset<nat>, y: multiset<nat>, head: multiset<nat>)
    requires now + x == was + y
    ensures head + now + x == head + was + y
  {
    assert head + now + x == head + (now + x);
    assert head + was + y == head + (was + y);
  }

  lemma Balance(now: multiset<nat>, x: multiset<nat>, was: multiset<nat>, y: multiset<nat>, z: multiset<nat>)
    requires now + x == was + y
    ensures y == x + z ==> now == was + z
    ensures x == y + z ==> was == now + z
  {
    assert forall e :: (now + x)[e] == now[e] + x[e] == (was + y)[e] == was[e] + y[e];
    if y == x + z {
      assert forall e :: now[e] == (was + z)[e];
    }
    if x == y + z {
      assert forall e :: was[e] == (now + z)[e];
    }
  }

  lemma {:induction false} NoAddrs<K, P>(bs: seq<seq<Node<K, P>>>)
    requires forall b :: 0 <= b < |bs| ==> bs[b] == []
    ensures AllAddrs(bs) == multiset{}
  {
    if bs != [] {
      NoAddrs(bs[1..]);
    }
  }

  /** Change one chain: what it gives for its own classes becomes what the table gives. */
  lemma HoldsUpdate<K, P, C(!new)>(keys: Classes<K, C>, bs: seq<seq<Node<K, P>>>, m: map<C, P>, b: nat,
                                   chain: seq<Node<K, P>>, m': map<C, P>)
    requires Holds(keys, bs, m) && b < |bs| && ChainOk(keys, chain, b, |bs|)
    requires forall d :: keys.code(d) % |bs| == b ==> ChainGet(keys, chain, d) == Loaded(m', d)
    requires forall d :: keys.code(d) % |bs| != b ==> Loaded(m', d) == Loaded(m, d)
    ensures Holds(keys, bs[b := chain], m')
  {
    hide ChainOk, ChainGet;
    var bs' := bs[b := chain];
    forall d
      ensures Get(keys, bs', d) == Loaded(m', d)
    {
      assert Get(keys, bs, d) == Loaded(m, d);
    }
  }

  lemma Appended<K, P, C(!new)>(keys: Classes<K, C>, bs: seq<seq<Node<K, P>>>, m: map<C, P>, b: nat, node: Node<K, P>)
    requires Holds(keys, bs, m) && keys.of(node.key) !in m && b == keys.code(keys.of(node.key)) % |bs|
    ensures Holds(keys, bs[b := bs[b] + [node]], m[keys.of(node.key) := node.load])
    ensures AllAddrs(bs[b := bs[b] + [node]]) == AllAddrs(bs) + multiset{node.addr}
  {
    hide ChainGet, ChainOk, Addrs, AllAddrs;
    var c := keys.of(node.key);
    assert Get(keys, bs, c) == Loaded(m, c) == None;
    ChainOkAppend(keys, bs[b], node, b, |bs|);
    forall d | keys.code(d) % |bs| == b
      ensures ChainGet(keys, bs[b] + [node], d) == Loaded(m[c := node.load], d)
    {
      GetAppend(keys, bs[b], node, d);
      assert Get(keys, bs, d) == Loaded(m, d);
    }
    HoldsUpdate(keys, bs, m, b, bs[b] + [node], m[c := node.load]);
    AllAddrsUpdate(bs, b, bs[b] + [node]);
    AddrsConcat(bs[b], [node]);
    OneAddr(node);
    Balance(AllAddrs(bs[b := bs[b] + [node]]), Addrs(bs[b]), AllAddrs(bs), Addrs(bs[b] + [node]), multiset{node.addr});
  }

  lemma OneAddr<K, P>(node: Node<K, P>)
    ensures Addrs([node]) == multiset{node.addr}
  {
  }

  lemma ChainOkAppend<K, P, C(!new)>(keys: Classes<K, C>, chain: seq<Node<K, P>>, node: Node<K, P>, b: nat, n: nat)
    requires n > 0 && ChainOk(keys, chain, b, n) && keys.code(keys.of(node.key)) % n == b
    requires ChainGet(keys, chain, keys.of(node.key)) == None
    ensures ChainOk(keys, chain + [node], b, n)
  {
    var c := keys.of(node.key);
    if i :| 0 <= i < |chain| && keys.of(chain[i].key) == c {
      assert Passed(keys, chain, c, i);
      GetAt(keys, chain, c, i);
      assert false;
    }
  }

  lemma Replaced<K, P, C(!new)>(keys: Classes<K, C>, bs: seq<seq<Node<K, P>>>, m: map<C, P>, b: nat, i: nat, load: P)
    requires Holds(keys, bs, m) && b < |bs| && i < |bs[b]|
    ensures var node := bs[b][i];
      && keys.of(node.key) in m && m[keys.of(node.key)] == node.load
      && Holds(keys, bs[b := bs[b][i := node.(load := load)]], m[keys.of(node.key) := load])
      && AllAddrs(bs[b := bs[b][i := node.(load := load)]]) == AllAddrs(bs)
  {
    hide ChainGet, Addrs, AllAddrs;
    var node := bs[b][i];
    var c, chain := keys.of(node.key), bs[b][i := node.(load := load)];
    FoundAt(keys, bs, m, b, i);
    assert ChainOk(keys, chain, b, |bs|);
    forall d | keys.code(d) % |bs| == b
      ensures ChainGet(keys, chain, d) == Loaded(m[c := load], d)
    {
      GetReplace(keys, bs[b], i, load, d);
      assert Get(keys, bs, d) == Loaded(m, d);
    }
    HoldsUpdate(keys, bs, m, b, chain, m[c := load]);
    AllAddrsUpdate(bs, b, chain);
    AddrsReplace(bs[b], i, load);
    Balance(AllAddrs(bs[b := chain]), Addrs(bs[b]), AllAddrs(bs), Addrs(chain), multiset{});
  }

  lemma {:induction false} AddrsReplace<K, P>(chain: seq<Node<K, P>>, i: nat, load: P)
    requires i < |chain|
    ensures Addrs(chain[i := chain[i].(load := load)]) == Addrs(chain)
  {
    var chain' := chain[i := chain[i].(load := load)];
    if i == 0 {
      assert chain'[1..] == chain[1..];
    } else {
      assert chain'[1..] == chain[1..][i - 1 := chain[i].(load := load)];
      AddrsReplace(chain[1..], i - 1, load);
    }
  }

  /** A node that is in a chain is what the table gives for its key. */
  lemma FoundAt<K, P, C(!new)>(keys: Classes<K, C>, bs: seq<seq<Node<K, P>>>, m: map<C, P>, b: nat, i: nat)
    requires Holds(keys, bs, m) && b < |bs| && i < |bs[b]|
    ensures var node := bs[b][i];
      && keys.code(keys.of(node.key)) % |bs| == b && Passed(keys, bs[b], keys.of(node.key), i)
      && keys.of(node.key) in m && m[keys.of(node.key)] == node.load
  {
    hide ChainGet;
    var c := keys.of(bs[b][i].key);
    assert ChainOk(keys, bs[b], b, |bs|);
    GetAt(keys, bs[b], c, i);
    assert Get(keys, bs, c) == Loaded(m, c);
  }

  lemma Dropped<K, P, C(!new)>(keys: Classes<K, C>, bs: seq<seq<Node<K, P>>>, m: map<C, P>, b: nat, i: nat)
    requires Holds(keys, bs, m) && b < |bs| && i < |bs[b]|
    ensures Holds(keys, bs[b := Drop(bs[b], i)], m - {keys.of(bs[b][i].key)})
    ensures AllAddrs(bs) == AllAddrs(bs[b := Drop(bs[b], i)]) + multiset{bs[b][i].addr}
  {
    hide ChainGet, ChainOk, Addrs, AllAddrs, Drop;
    var c, chain := keys.of(bs[b][i].key), Drop(bs[b], i);
    FoundAt(keys, bs, m, b, i);
    ChainOkDrop(keys, bs[b], b, |bs|, i);
    forall d | keys.code(d) % |bs| == b
      ensures ChainGet(keys, chain, d) == Loaded(m - {c}, d)
    {
      GetDrop(keys, bs[b], b, |bs|, i, d);
      assert Get(keys, bs, d) == Loaded(m, d);
    }
    HoldsUpdate(keys, bs, m, b, chain, m - {c});
    AllAddrsUpdate(bs, b, chain);
    AddrsDrop(bs[b], i);
    Balance(AllAddrs(bs[b := chain]), Addrs(bs[b]), AllAddrs(bs), Addrs(chain), multiset{bs[b][i].addr});
  }

  lemma ChainOkDrop<K, P, C(!new)>(keys: Classes<K, C>, chain: seq<Node<K, P>>, b: nat, n: nat, i: nat)
    requires n > 0 && i < |chain| && ChainOk(keys, chain, b, n)
    ensures ChainOk(keys, Drop(chain, i), b, n)
  {
    var r := Drop(chain, i);
    assert forall j :: 0 <= j < |r| ==> r[j] == chain[if j < i then j else j + 1];
  }

  lemma AddrsDrop<K, P>(chain: seq<Node<K, P>>, i: nat)
    requires i < |chain|
    ensures Addrs(chain) == Addrs(Drop(chain, i)) + multiset{chain[i].addr}
  {
    hide Addrs;
    CutOut(chain, i);
    DropAddrs(chain[..i], chain[i], chain[i + 1..]);
  }

  lemma CutOut<T>(s: seq<T>, i: nat)
    requires i < |s|
    ensures s == s[..i] + ([s[i]] + s[i + 1..]) && Drop(s, i) == s[..i] + s[i + 1..]
  {
  }

  lemma DropAddrs<K, P>(l: seq<Node<K, P>>, x: Node<K, P>, r: seq<Node<K, P>>)
    ensures Addrs(l + ([x] + r)) == Addrs(l + r) + multiset{x.addr}
  {
    hide Addrs;
    AddrsConcat(l, [x] + r);
    AddrsConcat([x], r);
    AddrsConcat(l, r);
    OneAddr(x);
  }

  lemma HoldsNothing<K, P, C(!new)>(keys: Classes<K, C>, bs: seq<seq<Node<K, P>>>)
    requires |bs| > 0 && forall b :: 0 <= b < |bs| ==> bs[b] == []
    ensures Holds(keys, bs, map[]) && AllAddrs(bs) == multiset{}
  {
    NoAddrs(bs);
  }

  /** The chains determine the map. */
  lemma HoldsOne<K, P, C(!new)>(keys: Classes<K, C>, bs: seq<seq<Node<K, P>>>, m: map<C, P>, m': map<C, P>)
    requires Holds(keys, bs, m) && Holds(keys, bs, m')
    ensures m == m'
  {
    hide ChainOk, ChainGet;
    forall c
      ensures Loaded(m, c) == Loaded(m', c)
    {
      assert Get(keys, bs, c) == Loaded(m, c) == Loaded(m', c);
    }
    assert forall c :: c in m <==> Loaded(m, c).Some?;
    assert forall c :: c in m' <==> Loaded(m', c).Some?;
    assert m.Keys == m'.Keys;
    forall c | c in m
      ensures m[c] == m'[c]
    {
      assert Loaded(m, c) == Loaded(m', c);
    }
  }
}
