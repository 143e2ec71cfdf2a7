/**
 The block cache of the B-tree (btree/btree.c), as a value.

 `held` lists the blocks in the ring, most recently added first; empty nodes are only
 counted.  Each bucket of the hash table chains some of them.  Removing the entry that
 heads its chain clears the whole bucket (btree/btree.c:1018-1019), so a held block may
 become unfindable; `cleared` remembers when that last happened to each bucket.
 `accepted`, `returned` and `freed` are history.
 */
module CacheSpec {
  import opened Options

  type Block = nat

  /** A block as it was added: the how-many-eth add, its block number, its buffer. */
  datatype Entry = Entry(stamp: nat, blocknr: nat, block: Block)

  datatype Cache = Cache(
    size: nat,
    held: seq<Entry>,
    empty: nat,
    chains: seq<seq<Entry>>,
    cleared: seq<nat>,
    accepted: seq<Entry>,
    returned: seq<Entry>,
    freed: seq<Entry>)

  function Opened(size: nat): Cache {
    Cache(size, [], 1, seq(size, _ => []), seq(size, _ => 0), [], [], [])
  }

  function Without<T(==)>(s: seq<T>, e: T): seq<T> {
    if s == [] then [] else if s[0] == e then s[1..] else [s[0]] + Without(s[1..], e)
  }

  /** What becomes of a chain when `e` is taken out of the hash table. */
  function Cut<T(==)>(chain: seq<T>, e: T): seq<T> {
    if chain != [] && chain[0] == e then [] else Without(chain, e)
  }

  function Unhash(c: Cache, e: Entry): Cache
    requires 0 < c.size == |c.chains| == |c.cleared|
  {
    var i := e.blocknr % c.size;
    c.(chains := c.chains[i := Cut(c.chains[i], e)],
       cleared := if c.chains[i] != [] && c.chains[i][0] == e then c.cleared[i := |c.accepted|] else c.cleared)
  }

  /** A node is taken over: an empty one, or else the one that holds the oldest block. */
  function Recycle(c: Cache): Cache
    requires 0 < c.size == |c.chains| == |c.cleared|
    requires c.empty > 0 || c.held != []
  {
    if c.empty > 0 then c.(empty := c.empty - 1)
    else
      var e := c.held[|c.held| - 1];
      Unhash(c, e).(held := c.held[..|c.held| - 1], freed := c.freed + [e])
  }

  predicate Recycles(c: Cache) { c.held == [] || |c.held| + c.empty >= c.size }

  function Store(c: Cache, blocknr: nat, block: Block): Cache
    requires 0 < c.size == |c.chains|
  {
    var e := Entry(|c.accepted|, blocknr, block);
    var i := blocknr % c.size;
    c.(held := [e] + c.held, chains := c.chains[i := [e] + c.chains[i]], accepted := c.accepted + [e])
  }

  /** `__btcache_add`; `mm` says whether malloc has a new node.  The second result: was the block taken? */
  function Add(c: Cache, blocknr: nat, block: Block, mm: bool): (Cache, bool)
    requires 0 < c.size == |c.chains| == |c.cleared|
    requires c.empty > 0 || c.held != []
  {
    if Recycles(c) then (Store(Recycle(c), blocknr, block), true)
    else if mm then (Store(c, blocknr, block), true)
    else (c, false)
  }

  function FirstWith(chain: seq<Entry>, blocknr: nat): Option<Entry> {
    if chain == [] then None
    else if chain[0].blocknr == blocknr then Some(chain[0])
    else FirstWith(chain[1..], blocknr)
  }

  /** The cache after one held entry was handed to a caller. */
  function HandOut(c: Cache, e: Entry): Cache
    requires 0 < c.size == |c.chains| == |c.cleared|
  {
    Unhash(c, e).(held := Without(c.held, e), empty := c.empty + 1, returned := c.returned + [e])
  }

  /** `__btcache_lookup`: a hit hands the block over to the caller. */
  function Lookup(c: Cache, blocknr: nat): (Cache, Option<Block>)
    requires 0 < c.size == |c.chains| == |c.cleared|
  {
    match FirstWith(c.chains[blocknr % c.size], blocknr)
    case None => (c, None)
    case Some(e) =>
      (HandOut(c, e), Some(e.block))
  }

  // -------------------------------------------------------------------------
  // Invariant

  /** Newest first. */
  ghost predicate Newest(s: seq<Entry>) {
    forall i, j :: 0 <= i < j < |s| ==> s[i].stamp > s[j].stamp
  }

  /** The entries of bucket `i` that were added since the bucket was last cleared. */
  function Select(held: seq<Entry>, i: nat, size: nat, from: nat): seq<Entry>
    requires size > 0
  {
    if held == [] then []
    else
      (if held[0].blocknr % size == i && held[0].stamp >= from then [held[0]] else []) +
      Select(held[1..], i, size, from)
  }

  ghost predicate Shape(c: Cache) {
    0 < c.size == |c.chains| == |c.cleared| && 0 < |c.held| + c.empty <= c.size
  }

  ghost predicate Stamped(c: Cache) {
    Newest(c.held) &&
    (forall k :: 0 <= k < |c.accepted| ==> c.accepted[k].stamp == k) &&
    (forall k :: 0 <= k < |c.held| ==> c.held[k].stamp < |c.accepted|)
  }

  /** A chain is exactly what is left of its bucket. */
  ghost predicate Hashed(c: Cache)
    requires Shape(c)
  {
    forall i :: 0 <= i < c.size ==> c.chains[i] == Select(c.held, i, c.size, c.cleared[i])
  }

  /** Every accepted block is held, was handed out or was freed: once in all. */
  ghost predicate Conserved(c: Cache) {
    multiset(c.accepted) == multiset(c.held) + multiset(c.returned) + multiset(c.freed)
  }

  ghost predicate Inv(c: Cache) {
    Shape(c) && Stamped(c) && Hashed(c) && Conserved(c)
  }

  // -------------------------------------------------------------------------
  // Lists

  lemma {:induction false} WithoutSize(s: seq<Entry>, e: Entry)
    ensures |Without(s, e)| == |s| - if e in s then 1 else 0
  {
    if s != [] && s[0] != e {
      assert e in s <==> e in s[1..];
      WithoutSize(s[1..], e);
    }
  }

  lemma {:induction false} WithoutBag(s: seq<Entry>, e: Entry)
    ensures multiset(Without(s, e)) == multiset(s) - multiset{e}
  {
    if s != [] {
      assert s == [s[0]] + s[1..];
      assert multiset(s) == multiset{s[0]} + multiset(s[1..]);
      if s[0] != e {
        WithoutBag(s[1..], e);
        var w := Without(s[1..], e);
        assert multiset([s[0]] + w) == multiset{s[0]} + multiset(w);
      }
    }
  }

  lemma Head(s: seq<Entry>)
    requires Newest(s) && s != []
    ensures Newest(s[1..]) && forall x :: x in s[1..] ==> x.stamp < s[0].stamp
    ensures forall x :: x in s <==> x == s[0] || x in s[1..]
  {
    assert s == [s[0]] + s[1..];
  }

  lemma {:induction false} WithoutIs(s: seq<Entry>, e: Entry)
    requires Newest(s)
    ensures Newest(Without(s, e))
    ensures forall x :: x in Without(s, e) <==> x in s && x != e
  {
    if s != [] {
      Head(s);
      if s[0] != e {
        WithoutIs(s[1..], e);
        var w := Without(s[1..], e);
        assert forall i :: 0 <= i < |w| ==> w[i] in w;
        hide Without;
        assert Newest([s[0]] + w);
      }
    }
  }

  lemma {:induction false} WithoutLast(s: seq<Entry>)
    requires s != [] && Newest(s)
    ensures Without(s, s[|s| - 1]) == s[..|s| - 1]
  {
    if |s| > 1 {
      WithoutLast(s[1..]);
      assert s[0].stamp > s[|s| - 1].stamp;
      assert s[1..][..|s| - 2] == s[1..|s| - 1];
      assert [s[0]] + s[1..|s| - 1] == s[..|s| - 1];
    }
  }

  lemma {:induction false} WithoutAbsent<T>(s: seq<T>, e: T)
    requires e !in s
    ensures Without(s, e) == s
  {
    if s != [] {
      WithoutAbsent(s[1..], e);
    }
  }

  lemma {:induction false} SelectIs(held: seq<Entry>, i: nat, size: nat, from: nat)
    requires size > 0
    ensures forall x :: x in Select(held, i, size, from) <==> x in held && x.blocknr % size == i && x.stamp >= from
  {
    if held != [] {
      SelectIs(held[1..], i, size, from);
      assert held == [held[0]] + held[1..];
    }
  }

  lemma {:induction false} SelectWithout(held: seq<Entry>, e: Entry, i: nat, size: nat, from: nat)
    requires size > 0
    ensures Newest(held) ==>
      Select(Without(held, e), i, size, from) == Without(Select(held, i, size, from), e)
  {
    if held != [] && Newest(held) {
      var rest := held[1..];
      SelectWithout(rest, e, i, size, from);
      var s := Select(rest, i, size, from);
      SelectIs(rest, i, size, from);
      if held[0] == e {
        assert e !in rest;
        WithoutAbsent(s, e);
        assert ([e] + s)[1..] == s;
        assert [] + s == s;
      } else {
        assert ([held[0]] + Without(rest, e))[1..] == Without(rest, e);
        assert ([held[0]] + s)[1..] == s;
        assert [] + s == s && [] + Without(s, e) == Without(s, e);
      }
    }
  }

  lemma {:induction false} SelectNone(held: seq<Entry>, i: nat, size: nat, from: nat)
    requires size > 0 && forall k :: 0 <= k < |held| ==> held[k].stamp < from
    ensures Select(held, i, size, from) == []
  {
    if held != [] {
      SelectNone(held[1..], i, size, from);
    }
  }

  // -------------------------------------------------------------------------
  // What every operation keeps

  /** Taking one held entry out of the table and out of the ring. */
  lemma DropKeeps(c: Cache, e: Entry)
    requires Inv(c) && e in c.held
    ensures var d := Unhash(c, e).(held := Without(c.held, e));
      && |d.chains| == |d.cleared| == c.size
      && (forall i :: 0 <= i < c.size ==> d.chains[i] == Select(d.held, i, c.size, d.cleared[i]))
      && Newest(d.held) && |d.held| == |c.held| - 1
      && (forall k :: 0 <= k < |d.held| ==> d.held[k].stamp < |c.accepted|)
      && multiset(d.held) == multiset(c.held) - multiset{e}
  {
    hide Select, Without;
    var d := Unhash(c, e).(held := Without(c.held, e));
    var b := e.blocknr % c.size;
    WithoutIs(c.held, e);
    WithoutBag(c.held, e);
    WithoutSize(c.held, e);
    assert forall k :: 0 <= k < |d.held| ==> d.held[k] in c.held;
    forall i | 0 <= i < c.size
      ensures d.chains[i] == Select(d.held, i, c.size, d.cleared[i])
    {
      SelectWithout(c.held, e, i, c.size, c.cleared[i]);
      SelectIs(c.held, i, c.size, c.cleared[i]);
      if i != b {
        assert e !in c.chains[i];
        WithoutAbsent(c.chains[i], e);
      } else if c.chains[i] != [] && c.chains[i][0] == e {
        SelectNone(d.held, i, c.size, |c.accepted|);
      }
    }
  }

  lemma StoreKeeps(c: Cache, blocknr: nat, block: Block)
    requires 0 < c.size == |c.chains| == |c.cleared| && |c.held| + c.empty < c.size
    requires Stamped(c) && Conserved(c)
    requires forall i :: 0 <= i < c.size ==> c.chains[i] == Select(c.held, i, c.size, c.cleared[i])
    requires Timely(c)
    ensures Inv(Store(c, blocknr, block)) && Timely(Store(c, blocknr, block))
  {
    var d := Store(c, blocknr, block);
    var e := d.held[0];
    assert d.held[1..] == c.held;
    assert forall i :: 0 <= i < c.size ==> [] + c.chains[i] == c.chains[i];
  }

  /** No bucket is cleared in the future. */
  ghost predicate Timely(c: Cache) {
    forall i :: 0 <= i < |c.cleared| ==> c.cleared[i] <= |c.accepted|
  }

  lemma OpenedInv(size: nat)
    requires size > 0
    ensures Inv(Opened(size)) && Timely(Opened(size))
  {
  }

  /** After a node was taken over there is room for one entry more. */
  lemma RecycleKeeps(c: Cache)
    requires Inv(c) && Timely(c)
    ensures var d := Recycle(c);
      && d.size == c.size && d.accepted == c.accepted && |d.chains| == |d.cleared| == c.size
      && |d.held| + d.empty < d.size && Stamped(d) && Conserved(d) && Timely(d)
      && forall i :: 0 <= i < d.size ==> d.chains[i] == Select(d.held, i, d.size, d.cleared[i])
  {
    hide Select, Without;
    if c.empty == 0 {
      var e := c.held[|c.held| - 1];
      DropKeeps(c, e);
      WithoutLast(c.held);
      assert multiset(c.freed + [e]) == multiset(c.freed) + multiset{e};
    }
  }

  lemma AddKeeps(c: Cache, blocknr: nat, block: Block, mm: bool)
    requires Inv(c) && Timely(c)
    ensures Inv(Add(c, blocknr, block, mm).0) && Timely(Add(c, blocknr, block, mm).0)
  {
    hide Select, Without, Recycle, Store, Stamped, Conserved;
    if Recycles(c) {
      RecycleKeeps(c);
      StoreKeeps(Recycle(c), blocknr, block);
    } else if mm {
      StoreKeeps(c, blocknr, block);
    }
  }

  lemma LookupKeeps(c: Cache, blocknr: nat)
    requires Inv(c) && Timely(c)
    ensures Inv(Lookup(c, blocknr).0) && Timely(Lookup(c, blocknr).0)
  {
    hide Select, Without;
    var chain := c.chains[blocknr % c.size];
    FirstWithIs(chain, blocknr);
    match FirstWith(chain, blocknr) {
      case None =>
      case Some(e) =>
        SelectIs(c.held, blocknr % c.size, c.size, c.cleared[blocknr % c.size]);
        DropKeeps(c, e);
    }
  }

  lemma {:induction false} FirstWithIs(chain: seq<Entry>, blocknr: nat)
    ensures match FirstWith(chain, blocknr)
      case None => forall x :: x in chain ==> x.blocknr != blocknr
      case Some(e) => e in chain && e.blocknr == blocknr &&
                      (Newest(chain) ==> forall x :: x in chain && x.blocknr == blocknr ==> x.stamp <= e.stamp)
  {
    if chain != [] {
      FirstWithIs(chain[1..], blocknr);
      assert chain == [chain[0]] + chain[1..];
      assert Newest(chain) ==> forall x :: x in chain[1..] ==> x.stamp < chain[0].stamp;
    }
  }

  // -------------------------------------------------------------------------
  // Runs

  datatype Op = DoAdd(blocknr: nat, block: Block, mm: bool) | DoLookup(blocknr: nat)

  function Apply(c: Cache, op: Op): Cache
    requires 0 < c.size == |c.chains| == |c.cleared|
    requires c.empty > 0 || c.held != []
  {
    match op
    case DoAdd(blocknr, block, mm) => Add(c, blocknr, block, mm).0
    case DoLookup(blocknr) => Lookup(c, blocknr).0
  }

  /** The cache after any sequence of operations. */
  ghost function After(size: nat, ops: seq<Op>): (c: Cache)
    requires size > 0
    ensures Inv(c) && Timely(c) && c.size == size
    decreases |ops|
  {
    if ops == [] then
      OpenedInv(size);
      Opened(size)
    else
      var c := After(size, ops[..|ops| - 1]);
      var op := ops[|ops| - 1];
      ApplyKeeps(c, op);
      Apply(c, op)
  }

  lemma ApplyKeeps(c: Cache, op: Op)
    requires Inv(c) && Timely(c)
    ensures Inv(Apply(c, op)) && Timely(Apply(c, op)) && Apply(c, op).size == c.size
  {
    hide Select, Without, Recycle, Stamped, Conserved, Hashed;
    match op {
      case DoAdd(blocknr, block, mm) =>
        AddKeeps(c, blocknr, block, mm);
        RecycleKeeps(c);
      case DoLookup(blocknr) => LookupKeeps(c, blocknr);
    }
  }

  /**
   Over every run: a lookup hits exactly when some held block of that number was added since its
   bucket was last cleared, and then returns the newest such block.
   */
  lemma LookupExact(size: nat, ops: seq<Op>, blocknr: nat)
    requires size > 0
    ensures var c := After(size, ops);
      var from := c.cleared[blocknr % size];
      var r := Lookup(c, blocknr).1;
      && (r.Some? <==> exists e :: e in c.held && e.blocknr == blocknr && e.stamp >= from)
      && (r.Some? ==> exists e :: e in c.held && e in c.accepted && e.blocknr == blocknr && e.block == r.value &&
                                  forall x :: x in c.held && x.blocknr == blocknr ==> x.stamp <= e.stamp)
  {
    hide After, Inv, Timely;
    LookupIn(After(size, ops), blocknr);
  }

  /** The same for any state that keeps the invariant. */
  lemma LookupIn(c: Cache, blocknr: nat)
    requires Inv(c)
    ensures var from := c.cleared[blocknr % c.size];
      var r := Lookup(c, blocknr).1;
      && (r.Some? <==> exists e :: e in c.held && e.blocknr == blocknr && e.stamp >= from)
      && (r.Some? ==> exists e :: e in c.held && e in c.accepted && e.blocknr == blocknr && e.block == r.value &&
                                  forall x :: x in c.held && x.blocknr == blocknr ==> x.stamp <= e.stamp)
  {
    hide Select, FirstWith, Unhash, Without;
    var i := blocknr % c.size;
    var chain := c.chains[i];
    FirstWithIs(chain, blocknr);
    SelectIs(c.held, i, c.size, c.cleared[i]);
    SelectNewest(c.held, i, c.size, c.cleared[i]);
    match FirstWith(chain, blocknr) {
      case None =>
      case Some(e) =>
        HeldAccepted(c, e);
        forall x | x in c.held && x.blocknr == blocknr
          ensures x.stamp <= e.stamp
        {
          if x.stamp >= c.cleared[i] {
            assert x in chain;
          }
        }
    }
  }

  lemma HeldAccepted(c: Cache, e: Entry)
    requires Conserved(c) && e in c.held
    ensures e in c.accepted
  {
    assert e in multiset(c.held) && e in multiset(c.accepted);
  }

  lemma ConsNewest(x: Entry, s: seq<Entry>)
    requires Newest(s) && forall y :: y in s ==> y.stamp < x.stamp
    ensures Newest([x] + s)
  {
    assert forall k :: 0 <= k < |s| ==> s[k] in s;
  }

  lemma {:induction false} SelectNewest(held: seq<Entry>, i: nat, size: nat, from: nat)
    requires size > 0 && Newest(held)
    ensures Newest(Select(held, i, size, from))
  {
    if held != [] {
      hide Newest;
      Head(held);
      SelectNewest(held[1..], i, size, from);
      SelectIs(held[1..], i, size, from);
      var s := Select(held[1..], i, size, from);
      ConsNewest(held[0], s);
      assert [] + s == s;
    }
  }

  /** Over every run each accepted block is held, or was returned by one lookup, or was freed: exactly once. */
  lemma OwnedOnce(size: nat, ops: seq<Op>, k: nat)
    requires size > 0 && k < |After(size, ops).accepted|
    ensures var c := After(size, ops);
      var e := c.accepted[k];
      multiset(c.held)[e] + multiset(c.returned)[e] + multiset(c.freed)[e] == 1
  {
    hide After, Shape, Hashed, Newest;
    CountOnce(After(size, ops).accepted, k);
  }

  /** `__btcache_close`: what is still held is freed, newest first. */
  function Closed(c: Cache): Cache {
    c.(held := [], empty := 0, freed := c.freed + c.held)
  }

  /** After the close nothing is held: each accepted block was returned by one lookup or freed, exactly once. */
  lemma ClosedOwnedOnce(size: nat, ops: seq<Op>, k: nat)
    requires size > 0 && k < |After(size, ops).accepted|
    ensures var c := Closed(After(size, ops));
      var e := c.accepted[k];
      c.held == [] && multiset(c.returned)[e] + multiset(c.freed)[e] == 1
  {
    hide After;
    OwnedOnce(size, ops, k);
    var c := After(size, ops);
    assert multiset(c.freed + c.held) == multiset(c.freed) + multiset(c.held);
  }

  lemma CountOnce(s: seq<Entry>, k: nat)
    requires k < |s| && forall i :: 0 <= i < |s| ==> s[i].stamp == i
    ensures multiset(s)[s[k]] == 1
  {
    var e, a, b := s[k], s[..k], s[k + 1..];
    assert s == a + [e] + b;
    assert e !in a && e !in b;
    assert e !in multiset(a) && e !in multiset(b);
    assert multiset(s) == multiset(a) + multiset{e} + multiset(b);
  }

  /** An add frees a block only when every node is in use, and then the one that was added first. */
  lemma EvictsOldest(size: nat, ops: seq<Op>, blocknr: nat, block: Block, mm: bool)
    requires size > 0
    ensures var c := After(size, ops);
      var d := Add(c, blocknr, block, mm).0;
      && (d.freed != c.freed <==> |c.held| == size)
      && (d.freed != c.freed ==>
           exists e :: e in c.held && d.freed == c.freed + [e] && forall x :: x in c.held ==> e.stamp <= x.stamp)
  {
    hide Select, Without, After, Hashed, Conserved;
    var c := After(size, ops);
    if |c.held| == size {
      var e := c.held[|c.held| - 1];
      assert e in c.held;
      assert Add(c, blocknr, block, mm).0.freed == c.freed + [e];
      assert |c.freed + [e]| == |c.freed| + 1;
    }
  }

  /** The ring never holds more nodes than its size. */
  lemma RingBounded(size: nat, ops: seq<Op>)
    requires size > 0
    ensures var c := After(size, ops); 0 < |c.held| + c.empty <= size
  {
    var c := After(size, ops);
    assert Shape(c);
  }

  /** A held block that no lookup finds: two blocks of one bucket, of which the newer was handed out. */
  lemma HeldButMissed() returns (ops: seq<Op>)
    ensures var c := After(2, ops);
      Lookup(c, 0).1 == None && exists e :: e in c.held && e.blocknr == 0
  {
    var o1, o2, o3 := DoAdd(0, 10, true), DoAdd(2, 12, true), DoLookup(2);
    ops := [] + [o1] + [o2] + [o3];
    hide After, Apply, Inv;
    AfterNothing(2);
    AfterOne(2, [], o1);
    AfterOne(2, [] + [o1], o2);
    AfterOne(2, [] + [o1] + [o2], o3);
    MissedSteps(o1, o2, o3);
  }

  lemma MissedSteps(o1: Op, o2: Op, o3: Op)
    requires o1 == DoAdd(0, 10, true) && o2 == DoAdd(2, 12, true) && o3 == DoLookup(2)
    ensures var c0 := Opened(2);
      var c1 := Apply(c0, o1);
      && Fits(c1)
      && var c2 := Apply(c1, o2);
      && Fits(c2)
      && var c3 := Apply(c2, o3);
      && Fits(c3) && Lookup(c3, 0).1 == None && Entry(0, 0, 10) in c3.held
  {
    var a, b := Entry(0, 0, 10), Entry(1, 2, 12);
    var c1 := Apply(Opened(2), o1);
    assert c1.held == [a] && c1.chains[0] == [a] && c1.accepted == [a];
    var c2 := Apply(c1, o2);
    assert c2.held == [b, a] && c2.chains[0] == [b, a] && c2.chains[0][0] == b;
    assert FirstWith(c2.chains[0], 2) == Some(b);
    var c3 := Apply(c2, o3);
    assert c3.chains[0] == [];
    assert c3.held == Without([b, a], b) == [b, a][1..] == [a];
  }

  predicate Fits(c: Cache) {
    0 < c.size == |c.chains| == |c.cleared| && (c.empty > 0 || c.held != [])
  }

  lemma AfterNothing(size: nat)
    requires size > 0
    ensures After(size, []) == Opened(size)
  {
  }

  lemma AfterOne(size: nat, ops: seq<Op>, op: Op)
    requires size > 0
    ensures var c := After(size, ops);
      && Shape(c) && After(size, ops + [op]) == Apply(c, op)
  {
    assert (ops + [op])[..|ops|] == ops;
  }
}
