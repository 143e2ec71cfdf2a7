/** Bucket chains in memory: nodes with `next`, `key` and `load` fields, reached from an array of heads. */
module LinkedChains {
  import opened Options
  import opened Links
  import opened Chains

  /** The addresses along a chain. */
  ghost function Sites<K, P>(chain: seq<Node<K, P>>): (r: seq<Addr>)
    ensures |r| == |chain| && forall i :: 0 <= i < |r| ==> r[i] == chain[i].addr
  {
    seq(|chain|, i requires 0 <= i < |chain| => chain[i].addr)
  }

  /** The fields of the nodes of a chain. */
  ghost predicate Fields<K, P>(key: map<Addr, K>, load: map<Addr, P>, chain: seq<Node<K, P>>) {
    forall i :: 0 <= i < |chain| ==>
      chain[i].addr in key && chain[i].addr in load && key[chain[i].addr] == chain[i].key &&
        load[chain[i].addr] == chain[i].load
  }

  /** Following `next` from `head` visits the nodes of `chain`, and their fields are as it says. */
  ghost predicate Linked<K, P>(next: map<Addr, Option<Addr>>, key: map<Addr, K>, load: map<Addr, P>, head: Option<Addr>,
                               chain: seq<Node<K, P>>) {
    IsChain(next, head, Sites(chain)) && Fields(key, load, chain)
  }

  ghost predicate AllLinked<K, P>(next: map<Addr, Option<Addr>>, key: map<Addr, K>, load: map<Addr, P>,
                                  heads: seq<Option<Addr>>, bs: seq<seq<Node<K, P>>>)
  {
    |heads| == |bs| && forall b :: 0 <= b < |bs| ==> Linked(next, key, load, heads[b], bs[b])
  }

  /** No node is in two places. */
  ghost predicate Once(ms: multiset<nat>) {
    forall a :: ms[a] <= 1
  }

  // -------------------------------------------------------------------------
  // Which nodes are where

  lemma {:induction false} InAddrs<K, P>(chain: seq<Node<K, P>>, a: Addr)
    ensures a in Addrs(chain) <==> a in Sites(chain)
  {
    if chain != [] {
      InAddrs(chain[1..], a);
      assert Sites(chain) == [chain[0].addr] + Sites(chain[1..]);
    }
  }

  lemma InAll<K, P>(bs: seq<seq<Node<K, P>>>, b: nat, a: Addr)
    requires b < |bs| && a in Sites(bs[b])
    ensures a in AllAddrs(bs) && AllAddrs(bs)[a] >= 1
  {
    hide Addrs, AllAddrs, Sites;
    AllAddrsUpdate(bs, b, []);
    InAddrs(bs[b], a);
    EmptyAddrs<K, P>();
    assert AllAddrs(bs) == AllAddrs(bs) + Addrs<K, P>([]);
    assert (AllAddrs(bs[b := []]) + Addrs(bs[b]))[a] == AllAddrs(bs)[a];
  }

  lemma EmptyAddrs<K, P>()
    ensures Addrs<K, P>([]) == multiset{} && AllAddrs<K, P>([]) == multiset{}
  {
  }

  /** A node of one chain is in no other. */
  lemma Elsewhere<K, P>(bs: seq<seq<Node<K, P>>>, b: nat, c: nat, a: Addr)
    requires b < |bs| && c < |bs| && b != c && Once(AllAddrs(bs)) && a in Sites(bs[b])
    ensures a !in Sites(bs[c])
  {
    hide Addrs, AllAddrs, Sites;
    var bs' := bs[b := []];
    AllAddrsUpdate(bs, b, []);
    InAddrs(bs[b], a);
    EmptyAddrs<K, P>();
    assert (AllAddrs(bs') + Addrs(bs[b]))[a] == (AllAddrs(bs) + Addrs<K, P>([]))[a] == AllAddrs(bs)[a];
    assert AllAddrs(bs')[a] == 0;
    if a in Sites(bs[c]) {
      InAll(bs', c, a);
    }
  }

  // -------------------------------------------------------------------------
  // Frames

  /** The fields of `a` are the same in both memories. */
  ghost predicate Same<K, P>(next: map<Addr, Option<Addr>>, key: map<Addr, K>, load: map<Addr, P>,
                             next': map<Addr, Option<Addr>>, key': map<Addr, K>, load': map<Addr, P>, a: Addr)
  {
    && (a in next ==> a in next' && next'[a] == next[a])
    && (a in key ==> a in key' && key'[a] == key[a])
    && (a in load ==> a in load' && load'[a] == load[a])
  }

  lemma LinkedFrame<K, P>(next: map<Addr, Option<Addr>>, key: map<Addr, K>, load: map<Addr, P>,
                          next': map<Addr, Option<Addr>>, key': map<Addr, K>, load': map<Addr, P>, head: Option<Addr>,
                          chain: seq<Node<K, P>>)
    requires Linked(next, key, load, head, chain)
    requires forall a :: a in Sites(chain) ==> Same(next, key, load, next', key', load', a)
    ensures Linked(next', key', load', head, chain)
  {
    var s := Sites(chain);
    assert forall i :: 0 <= i < |s| ==> s[i] in s && s[i] == chain[i].addr;
    assert forall i :: 0 <= i < |s| ==> Same(next, key, load, next', key', load', s[i]);
    assert forall i :: 0 <= i < |s| ==> s[i] in next;
    ChainFrame(next, next', head, s);
  }

  /** Changes to nodes that are in none of the chains. */
  lemma AllLinkedFrame<K, P>(next: map<Addr, Option<Addr>>, key: map<Addr, K>, load: map<Addr, P>,
                             next': map<Addr, Option<Addr>>, key': map<Addr, K>, load': map<Addr, P>,
                             heads: seq<Option<Addr>>, bs: seq<seq<Node<K, P>>>)
    requires AllLinked(next, key, load, heads, bs)
    requires forall a :: a in AllAddrs(bs) ==> Same(next, key, load, next', key', load', a)
    ensures AllLinked(next', key', load', heads, bs)
  {
    hide Linked, Same, AllAddrs, Sites;
    forall b | 0 <= b < |bs|
      ensures Linked(next', key', load', heads[b], bs[b])
    {
      forall a | a in Sites(bs[b])
        ensures Same(next, key, load, next', key', load', a)
      {
        InAll(bs, b, a);
      }
      LinkedFrame(next, key, load, next', key', load', heads[b], bs[b]);
    }
  }

  /** One chain changes; the changed nodes are in no other chain. */
  lemma AllLinkedUpdate<K, P>(next: map<Addr, Option<Addr>>, key: map<Addr, K>, load: map<Addr, P>,
                              next': map<Addr, Option<Addr>>, key': map<Addr, K>, load': map<Addr, P>,
                              heads: seq<Option<Addr>>, bs: seq<seq<Node<K, P>>>, b: nat, head: Option<Addr>,
                              chain: seq<Node<K, P>>, touched: set<Addr>)
    requires AllLinked(next, key, load, heads, bs) && b < |bs| && Linked(next', key', load', head, chain)
    requires forall a :: a !in touched ==> Same(next, key, load, next', key', load', a)
    requires forall c, a :: 0 <= c < |bs| && c != b && a in Sites(bs[c]) ==> a !in touched
    ensures AllLinked(next', key', load', heads[b := head], bs[b := chain])
  {
    hide Linked, Same, Sites;
    var heads', bs' := heads[b := head], bs[b := chain];
    forall c | 0 <= c < |bs|
      ensures Linked(next', key', load', heads'[c], bs'[c])
    {
      if c != b {
        LinkedFrame(next, key, load, next', key', load', heads[c], bs[c]);
      }
    }
  }

  // -------------------------------------------------------------------------
  // Pointers to links

  /** Where a link is stored: in the array of heads, or in the `next` field of a node. */
  datatype Link = Head(b: nat) | Next(a: Addr)

  /** The link to place `i` of chain `b`. */
  ghost function LinkAt<K, P>(bs: seq<seq<Node<K, P>>>, b: nat, i: nat): Link
    requires b < |bs| && i <= |bs[b]|
  {
    if i == 0 then Head(b) else Next(bs[b][i - 1].addr)
  }

  /** What is stored there. */
  ghost predicate Leads<K, P>(next: map<Addr, Option<Addr>>, heads: seq<Option<Addr>>, bs: seq<seq<Node<K, P>>>, b: nat,
                              i: nat)
    requires b < |bs| && i <= |bs[b]|
  {
    match LinkAt(bs, b, i)
    case Head(c) => c < |heads| && heads[c] == Following(Sites(bs[b]), i - 1)
    case Next(a) => a in next && next[a] == Following(Sites(bs[b]), i - 1)
  }

  lemma LinkLeads<K, P>(next: map<Addr, Option<Addr>>, key: map<Addr, K>, load: map<Addr, P>,
                        heads: seq<Option<Addr>>, bs: seq<seq<Node<K, P>>>, b: nat, i: nat)
    requires AllLinked(next, key, load, heads, bs) && b < |bs| && i <= |bs[b]|
    ensures Leads(next, heads, bs, b, i)
  {
    assert Linked(next, key, load, heads[b], bs[b]);
    if i > 0 {
      ChainAt(next, heads[b], Sites(bs[b]), i - 1);
    }
  }

  /** The heads after `*link = v`. */
  function HeadsWith(heads: seq<Option<Addr>>, link: Link, v: Option<Addr>): (r: seq<Option<Addr>>)
    ensures |r| == |heads|
  {
    if link.Head? && link.b < |heads| then heads[link.b := v] else heads
  }

  /** The `next` fields after `*link = v`. */
  function NextWith(next: map<Addr, Option<Addr>>, link: Link, v: Option<Addr>): map<Addr, Option<Addr>> {
    if link.Next? then next[link.a := v] else next
  }

  // -------------------------------------------------------------------------
  // One chain

  lemma SitesSnoc<K, P>(chain: seq<Node<K, P>>, node: Node<K, P>)
    ensures Sites(chain + [node]) == Sites(chain) + [node.addr]
  {
  }

  lemma SitesDrop<K, P>(chain: seq<Node<K, P>>, i: nat)
    requires i < |chain|
    ensures Sites(Drop(chain, i)) == Skip(Sites(chain), i)
  {
  }

  lemma FieldsSnoc<K, P>(key: map<Addr, K>, load: map<Addr, P>, chain: seq<Node<K, P>>, node: Node<K, P>)
    requires Fields(key, load, chain) && node.addr in key && node.addr in load && key[node.addr] == node.key
    requires load[node.addr] == node.load
    ensures Fields(key, load, chain + [node])
  {
  }

  lemma FieldsDrop<K, P>(key: map<Addr, K>, load: map<Addr, P>, chain: seq<Node<K, P>>, i: nat)
    requires Fields(key, load, chain) && i < |chain|
    ensures Fields(key, load, Drop(chain, i))
  {
    var r := Drop(chain, i);
    assert forall j :: 0 <= j < |r| ==> r[j] == chain[if j < i then j else j + 1];
  }

  /** A node hung on the end of a chain, through the link that ends it. */
  lemma LinkedSnoc<K, P>(next: map<Addr, Option<Addr>>, key: map<Addr, K>, load: map<Addr, P>, head: Option<Addr>,
                         chain: seq<Node<K, P>>, node: Node<K, P>)
    requires Linked(next, key, load, head, chain) && node.addr !in Sites(chain)
    requires node.addr in key && node.addr in load && key[node.addr] == node.key && load[node.addr] == node.load
    ensures chain == [] ==> Linked(next[node.addr := None], key, load, Some(node.addr), [node])
    ensures chain != [] ==>
      Linked(next[chain[|chain| - 1].addr := Some(node.addr)][node.addr := None], key, load, head, chain + [node])
  {
    hide IsChain, Fields, Sites;
    ChainSnoc(next, head, Sites(chain), node.addr);
    SitesSnoc(chain, node);
    FieldsSnoc(key, load, chain, node);
    if chain == [] {
      assert chain + [node] == [node] && Sites(chain) + [node.addr] == [node.addr];
    }
  }

  /** A node cut out of a chain, through the link that leads to it. */
  lemma LinkedDrop<K, P>(next: map<Addr, Option<Addr>>, key: map<Addr, K>, load: map<Addr, P>, head: Option<Addr>,
                         chain: seq<Node<K, P>>, i: nat)
    requires Linked(next, key, load, head, chain) && i < |chain|
    ensures chain[i].addr in next
    ensures i == 0 ==> Linked(next, key, load, next[chain[0].addr], Drop(chain, 0))
    ensures i > 0 ==> Linked(next[chain[i - 1].addr := next[chain[i].addr]], key, load, head, Drop(chain, i))
  {
    hide IsChain, Fields, Drop, Skip;
    var s := Sites(chain);
    ChainAt(next, head, s, i);
    SitesDrop(chain, i);
    FieldsDrop(key, load, chain, i);
    if i == 0 {
      ChainHead(next, head, s);
      SkipFirst(s);
    } else {
      ChainBypass(next, head, s, i - 1);
    }
  }

  lemma SkipFirst(s: seq<Addr>)
    requires s != []
    ensures Skip(s, 0) == s[1..]
  {
  }

  // -------------------------------------------------------------------------
  // All chains

  /** Hang a node that is in no chain on the end of chain `b`: `*link = node; node->next = NULL`. */
  lemma AllLinkedSnoc<K, P>(next: map<Addr, Option<Addr>>, key: map<Addr, K>, load: map<Addr, P>,
                            heads: seq<Option<Addr>>, bs: seq<seq<Node<K, P>>>, b: nat, node: Node<K, P>)
    requires AllLinked(next, key, load, heads, bs) && b < |bs| && Once(AllAddrs(bs)) && node.addr !in AllAddrs(bs)
    requires node.addr in key && node.addr in load && key[node.addr] == node.key && load[node.addr] == node.load
    ensures var link := LinkAt(bs, b, |bs[b]|);
      AllLinked(NextWith(next, link, Some(node.addr))[node.addr := None], key, load,
                HeadsWith(heads, link, Some(node.addr)), bs[b := bs[b] + [node]])
  {
    hide Linked, AllAddrs, Sites, Once;
    var chain, a := bs[b], node.addr;
    var link := LinkAt(bs, b, |chain|);
    if a in Sites(chain) {
      InAll(bs, b, a);
    }
    LinkedSnoc(next, key, load, heads[b], chain, node);
    var touched := if chain == [] then {a} else {a, chain[|chain| - 1].addr};
    forall c, x | 0 <= c < |bs| && c != b && x in Sites(bs[c])
      ensures x !in touched
    {
      InAll(bs, c, x);
      if chain != [] {
        LastSite(chain);
        Elsewhere(bs, c, b, x);
      }
    }
    var next' := NextWith(next, link, Some(a))[a := None];
    assert chain == [] ==> chain + [node] == [node];
    AllLinkedUpdate(next, key, load, next', key, load, heads, bs, b, if chain == [] then Some(a) else heads[b],
                    chain + [node], touched);
    assert chain != [] ==> heads[b := heads[b]] == heads;
  }

  lemma LastSite<K, P>(chain: seq<Node<K, P>>)
    requires chain != []
    ensures chain[|chain| - 1].addr in Sites(chain)
  {
    assert Sites(chain)[|chain| - 1] == chain[|chain| - 1].addr;
  }

  lemma SiteAt<K, P>(chain: seq<Node<K, P>>, i: nat)
    requires i < |chain|
    ensures chain[i].addr in Sites(chain)
  {
    assert Sites(chain)[i] == chain[i].addr;
  }

  /** Cut node `i` out of chain `b`: `*link = node->next`. */
  lemma AllLinkedDrop<K, P>(next: map<Addr, Option<Addr>>, key: map<Addr, K>, load: map<Addr, P>,
                            heads: seq<Option<Addr>>, bs: seq<seq<Node<K, P>>>, b: nat, i: nat)
    requires AllLinked(next, key, load, heads, bs) && b < |bs| && i < |bs[b]| && Once(AllAddrs(bs))
    ensures bs[b][i].addr in next
    ensures var link, v := LinkAt(bs, b, i), next[bs[b][i].addr];
      AllLinked(NextWith(next, link, v), key, load, HeadsWith(heads, link, v), bs[b := Drop(bs[b], i)])
  {
    hide Linked, AllAddrs, Sites, Once, Drop;
    var chain := bs[b];
    LinkedDrop(next, key, load, heads[b], chain, i);
    var link, v := LinkAt(bs, b, i), next[chain[i].addr];
    var touched := if i == 0 then {} else {chain[i - 1].addr};
    forall c, x | 0 <= c < |bs| && c != b && x in Sites(bs[c])
      ensures x !in touched
    {
      if i > 0 {
        SiteAt(chain, i - 1);
        Elsewhere(bs, c, b, x);
      }
    }
    AllLinkedUpdate(next, key, load, NextWith(next, link, v), key, load, heads, bs, b, if i == 0 then v else heads[b],
                    Drop(chain, i), touched);
    assert i > 0 ==> heads[b := heads[b]] == heads;
  }

  /** A new load for one node. */
  lemma AllLinkedLoad<K, P>(next: map<Addr, Option<Addr>>, key: map<Addr, K>, load: map<Addr, P>,
                            heads: seq<Option<Addr>>, bs: seq<seq<Node<K, P>>>, b: nat, i: nat, v: P)
    requires AllLinked(next, key, load, heads, bs) && b < |bs| && i < |bs[b]| && Once(AllAddrs(bs))
    ensures var node := bs[b][i];
      AllLinked(next, key, load[node.addr := v], heads, bs[b := bs[b][i := node.(load := v)]])
  {
    hide AllAddrs, Once;
    var chain, node := bs[b], bs[b][i];
    var chain' := chain[i := node.(load := v)];
    assert Linked(next, key, load, heads[b], chain);
    assert Sites(chain') == Sites(chain);
    SiteAt(chain, i);
    assert Fields(key, load[node.addr := v], chain') by {
      FieldsLoad(next, key, load, heads[b], chain, i, v);
    }
    forall c, x | 0 <= c < |bs| && c != b && x in Sites(bs[c])
      ensures x !in {node.addr}
    {
      Elsewhere(bs, c, b, x);
    }
    AllLinkedUpdate(next, key, load, next, key, load[node.addr := v], heads, bs, b, heads[b], chain', {node.addr});
    assert heads[b := heads[b]] == heads;
  }

  lemma FieldsLoad<K, P>(next: map<Addr, Option<Addr>>, key: map<Addr, K>, load: map<Addr, P>, head: Option<Addr>,
                         chain: seq<Node<K, P>>, i: nat, v: P)
    requires Linked(next, key, load, head, chain) && i < |chain|
    ensures Fields(key, load[chain[i].addr := v], chain[i := chain[i].(load := v)])
  {
    hide IsChain;
    ChainStart(next, head, Sites(chain));
    forall j | 0 <= j < |chain| && j != i
      ensures chain[j].addr != chain[i].addr
    {
      Apart(Sites(chain), j, i);
    }
  }

  /** Empty heads. */
  lemma NoneLinked<K, P>(next: map<Addr, Option<Addr>>, key: map<Addr, K>, load: map<Addr, P>, heads: seq<Option<Addr>>,
                         bs: seq<seq<Node<K, P>>>)
    requires |heads| == |bs| && forall b :: 0 <= b < |bs| ==> heads[b] == None && bs[b] == []
    ensures AllLinked(next, key, load, heads, bs)
  {
    forall b | 0 <= b < |bs|
      ensures Linked(next, key, load, heads[b], bs[b])
    {
      NoChain(next);
      assert Sites(bs[b]) == [];
    }
  }
}
