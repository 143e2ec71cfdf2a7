/**
 Which blocks of the cache a lookup can return (btree/btree.c:1011-1029), over every run, in terms of the order
 in which they were added.
 */
module CacheFinds {
  import opened Options
  import opened CacheSpec

  predicate Sized(c: Cache) { 0 < c.size == |c.chains| == |c.cleared| }

  predicate SameBucket(c: Cache, x: Entry, y: Entry)
    requires Sized(c)
  {
    x.blocknr % c.size == y.blocknr % c.size
  }

  /** A lookup that walks the chain of its bucket comes upon `e`. */
  predicate Findable(c: Cache, e: Entry)
    requires Sized(c)
  {
    e in c.chains[e.blocknr % c.size]
  }

  /** A block of the bucket of `e` that was added after it can be found. */
  ghost predicate NewerFindable(c: Cache, e: Entry)
    requires Sized(c)
  {
    exists y :: Findable(c, y) && SameBucket(c, y, e) && y.stamp > e.stamp
  }

  /**
   What taking out `e` does to the others: those of other buckets can be found as before, and those of its own
   bucket if and only if something newer than `e` could be found there.
   */
  ghost predicate Spares(c: Cache, d: Cache, e: Entry, x: Entry)
    requires Sized(c) && Sized(d)
  {
    Findable(d, x) <==> x != e && Findable(c, x) && (!SameBucket(c, x, e) || NewerFindable(c, e))
  }

  // -------------------------------------------------------------------------
  // Chains

  lemma ChainIs(c: Cache, i: nat)
    requires Inv(c) && i < c.size
    ensures Newest(c.chains[i])
    ensures forall x :: x in c.chains[i] <==> x in c.held && x.blocknr % c.size == i && x.stamp >= c.cleared[i]
  {
    hide Select;
    SelectIs(c.held, i, c.size, c.cleared[i]);
    SelectNewest(c.held, i, c.size, c.cleared[i]);
  }

  lemma FirstIsNewest(s: seq<Entry>, x: Entry)
    requires Newest(s) && x in s
    ensures x == s[0] || x.stamp < s[0].stamp
  {
  }

  /** A block heads its chain exactly if it can be found and nothing newer can. */
  lemma HeadsItsBucket(c: Cache, e: Entry)
    requires Inv(c) && Sized(c)
    ensures var chain := c.chains[e.blocknr % c.size];
      chain != [] && chain[0] == e <==> Findable(c, e) && !NewerFindable(c, e)
  {
    hide Select, Newest, Stamped, Hashed, Conserved;
    var b := e.blocknr % c.size;
    var chain := c.chains[b];
    ChainIs(c, b);
    forall x | x in chain
      ensures x == chain[0] || x.stamp < chain[0].stamp
    {
      FirstIsNewest(chain, x);
    }
    if chain != [] {
      assert chain[0] in chain;
      assert Findable(c, chain[0]) && SameBucket(c, chain[0], e);
    }
  }

  /** A bucket that `e` does not head has something newer to be found, if it has anything else. */
  lemma NewerIsThere(c: Cache, e: Entry, x: Entry)
    requires Inv(c) && Sized(c) && e in c.held && SameBucket(c, x, e) && Findable(c, x) && x != e
    requires c.chains[e.blocknr % c.size][0] != e
    ensures NewerFindable(c, e)
  {
    hide Select, Newest, Stamped, Hashed, Conserved;
    var b := e.blocknr % c.size;
    var chain := c.chains[b];
    ChainIs(c, b);
    if Findable(c, e) {
      FirstIsNewest(chain, e);
      assert chain[0] in chain;
      assert Findable(c, chain[0]) && SameBucket(c, chain[0], e);
    } else {
      assert x.stamp >= c.cleared[b] > e.stamp;
    }
  }

  lemma UnhashSpares(c: Cache, e: Entry, x: Entry)
    requires Inv(c) && Sized(c) && e in c.held
    ensures Spares(c, Unhash(c, e), e, x)
  {
    hide Select, Newest, Stamped, Hashed, Conserved, Without, NewerFindable;
    var b := e.blocknr % c.size;
    var chain := c.chains[b];
    ChainIs(c, b);
    HeadsItsBucket(c, e);
    WithoutIs(chain, e);
    if SameBucket(c, x, e) && x != e && Findable(c, x) && chain[0] != e {
      NewerIsThere(c, e, x);
    }
  }

  // -------------------------------------------------------------------------
  // Lookups

  /** `e` is the newest block of that number that could be found; it has left, and the others are spared. */
  ghost predicate Takes(c: Cache, d: Cache, blocknr: nat, e: Entry)
    requires Sized(c) && Sized(d)
  {
    && Findable(c, e) && e.blocknr == blocknr && d.returned == c.returned + [e] && d.freed == c.freed
    && (forall x :: Findable(c, x) && x.blocknr == blocknr ==> x.stamp <= e.stamp)
    && (forall x :: x in d.held <==> x in c.held && x != e)
    && forall x :: Spares(c, d, e, x)
  }

  /**
   Over every run: a lookup misses exactly if no block of that number can be found, and changes nothing then;
   else it returns the newest of them and takes out that one.
   */
  lemma LookupTakes(size: nat, ops: seq<Op>, blocknr: nat)
    requires size > 0
    ensures var c := After(size, ops);
      && Sized(c)
      && var d, r := Lookup(c, blocknr).0, Lookup(c, blocknr).1;
      && Sized(d)
      && (r.None? ==> d == c && forall e :: Findable(c, e) ==> e.blocknr != blocknr)
      && (r.Some? ==> exists e :: Takes(c, d, blocknr, e) && r.value == e.block)
  {
    hide After, Inv, Timely, Lookup, Takes, Findable;
    LookupTakesIn(After(size, ops), blocknr);
  }

  lemma LookupTakesIn(c: Cache, blocknr: nat)
    requires Inv(c)
    ensures Sized(c)
    ensures var d, r := Lookup(c, blocknr).0, Lookup(c, blocknr).1;
      && Sized(d)
      && (r.None? ==> d == c && forall e :: Findable(c, e) ==> e.blocknr != blocknr)
      && (r.Some? ==> exists e :: Takes(c, d, blocknr, e) && r.value == e.block)
  {
    hide Select, Newest, Stamped, Hashed, Conserved, Takes;
    var chain := c.chains[blocknr % c.size];
    FirstWithIs(chain, blocknr);
    if FirstWith(chain, blocknr).Some? {
      HandOutTakes(c, blocknr, FirstWith(chain, blocknr).value);
    }
  }

  lemma HandOutTakes(c: Cache, blocknr: nat, e: Entry)
    requires Inv(c) && Sized(c) && FirstWith(c.chains[blocknr % c.size], blocknr) == Some(e)
    ensures Sized(HandOut(c, e)) && Takes(c, HandOut(c, e), blocknr, e)
  {
    hide Select, Newest, Stamped, Hashed, Conserved, Without, FirstWith, Spares;
    var chain, d := c.chains[blocknr % c.size], HandOut(c, e);
    FirstWithIs(chain, blocknr);
    ChainIs(c, blocknr % c.size);
    HeldIsNewest(c);
    WithoutIs(c.held, e);
    forall x
      ensures Spares(c, d, e, x)
    {
      UnhashSpares(c, e, x);
      SparesChains(c, Unhash(c, e), d, e, x);
    }
  }

  lemma HeldIsNewest(c: Cache)
    requires Inv(c)
    ensures Newest(c.held)
  {
  }

  /** Only the chains matter. */
  lemma SparesChains(c: Cache, d: Cache, d': Cache, e: Entry, x: Entry)
    requires Sized(c) && Sized(d) && Sized(d') && d'.chains == d.chains && d'.size == d.size
    requires Spares(c, d, e, x)
    ensures Spares(c, d', e, x)
  {
  }

  // -------------------------------------------------------------------------
  // Adds

  /** Which blocks an add leaves findable: the new one, and the others unless one was evicted in their bucket. */
  ghost predicate Puts(c: Cache, d: Cache, added: Entry)
    requires Sized(c) && Sized(d)
  {
    && d.accepted == c.accepted + [added] && Findable(d, added) && added !in c.held && added in d.held
    && (|c.held| < c.size ==> forall x :: Findable(d, x) <==> x == added || Findable(c, x))
    && (|c.held| == c.size ==> exists e :: Evicts(c, d, added, e))
  }

  /** `e` was the oldest; it is freed, and the others are spared. */
  ghost predicate Evicts(c: Cache, d: Cache, added: Entry, e: Entry)
    requires Sized(c) && Sized(d)
  {
    && e in c.held && d.freed == c.freed + [e] && (forall x :: x in c.held ==> e.stamp <= x.stamp)
    && (forall x :: x in d.held <==> x == added || (x in c.held && x != e))
    && forall x :: x != added ==> Spares(c, d, e, x)
  }

  /**
   Over every run: a block is taken unless a new node is needed and cannot be had, that is, unless some block
   is held, the ring has fewer than `size` nodes and malloc refuses.
   */
  lemma AddPuts(size: nat, ops: seq<Op>, blocknr: nat, block: Block, mm: bool)
    requires size > 0
    ensures var c := After(size, ops);
      && Sized(c) && (c.empty > 0 || c.held != [])
      && var d, taken := Add(c, blocknr, block, mm).0, Add(c, blocknr, block, mm).1;
      && Sized(d) && (taken <==> c.held == [] || |c.held| + c.empty == size || mm)
      && (!taken ==> d == c)
      && (taken ==> Puts(c, d, Entry(|c.accepted|, blocknr, block)))
  {
    hide After, Timely, Puts, Stamped, Hashed, Conserved, Recycle, Store;
    var c := After(size, ops);
    if Recycles(c) {
      RecyclePuts(c, blocknr, block);
    } else if mm {
      StorePuts(c, blocknr, block);
    }
  }

  lemma NewIsNew(c: Cache, added: Entry)
    requires Stamped(c) && added.stamp == |c.accepted|
    ensures added !in c.held
  {
  }

  lemma StoreFindable(c: Cache, blocknr: nat, block: Block, x: Entry)
    requires Sized(c)
    ensures Sized(Store(c, blocknr, block))
    ensures Findable(Store(c, blocknr, block), x) <==> x == Entry(|c.accepted|, blocknr, block) || Findable(c, x)
  {
  }

  lemma StorePuts(c: Cache, blocknr: nat, block: Block)
    requires Inv(c) && Sized(c) && |c.held| < c.size
    ensures Sized(Store(c, blocknr, block))
    ensures Puts(c, Store(c, blocknr, block), Entry(|c.accepted|, blocknr, block))
  {
    hide Hashed, Conserved, Stamped, Findable;
    var d, added := Store(c, blocknr, block), Entry(|c.accepted|, blocknr, block);
    NewIsNew(c, added);
    assert d.held[0] == added;
    forall x
      ensures Findable(d, x) <==> x == added || Findable(c, x)
    {
      StoreFindable(c, blocknr, block, x);
    }
  }

  lemma RecyclePuts(c: Cache, blocknr: nat, block: Block)
    requires Inv(c) && Sized(c) && Recycles(c)
    ensures Sized(Recycle(c)) && Sized(Store(Recycle(c), blocknr, block))
    ensures Puts(c, Store(Recycle(c), blocknr, block), Entry(|c.accepted|, blocknr, block))
  {
    hide Hashed, Conserved, Stamped, Findable, Evicts, Unhash;
    SizedUnhash(c);
    var b, added := Recycle(c), Entry(|c.accepted|, blocknr, block);
    var d := Store(b, blocknr, block);
    NewIsNew(c, added);
    assert d.held[0] == added;
    forall x
      ensures Findable(d, x) <==> x == added || Findable(b, x)
    {
      StoreFindable(b, blocknr, block, x);
    }
    if c.empty == 0 {
      EvictsLast(c, blocknr, block);
    } else {
      forall x
        ensures Findable(b, x) <==> Findable(c, x)
      {
        SameChains(c, b, x);
      }
    }
  }

  lemma SizedUnhash(c: Cache)
    requires Sized(c)
    ensures forall e :: Sized(Unhash(c, e)) && Unhash(c, e).accepted == c.accepted && Unhash(c, e).size == c.size
  {
  }

  lemma SameChains(c: Cache, d: Cache, x: Entry)
    requires Sized(c) && Sized(d) && d.chains == c.chains && d.size == c.size
    ensures Findable(d, x) <==> Findable(c, x)
  {
  }

  lemma EvictsLast(c: Cache, blocknr: nat, block: Block)
    requires Inv(c) && Sized(c) && c.empty == 0
    ensures Sized(Recycle(c)) && Sized(Store(Recycle(c), blocknr, block))
    ensures var d, e := Store(Recycle(c), blocknr, block), c.held[|c.held| - 1];
      Evicts(c, d, Entry(|c.accepted|, blocknr, block), e)
  {
    hide Hashed, Conserved, Findable, Unhash, Without;
    SizedUnhash(c);
    var e, added := c.held[|c.held| - 1], Entry(|c.accepted|, blocknr, block);
    var u, b := Unhash(c, e), Recycle(c);
    var d := Store(b, blocknr, block);
    HeldIsNewest(c);
    WithoutIs(c.held, e);
    WithoutLast(c.held);
    forall x | x != added
      ensures Spares(c, d, e, x)
    {
      UnhashSpares(c, e, x);
      StoreFindable(b, blocknr, block, x);
      SameChains(u, b, x);
    }
    assert forall x :: x in d.held <==> x == added || x in c.held[..|c.held| - 1];
  }

  /** What was just added is what the next lookup returns. */
  lemma AddThenLookup(size: nat, ops: seq<Op>, blocknr: nat, block: Block, mm: bool)
    requires size > 0
    ensures var c := After(size, ops);
      && Fits(c)
      && var d := After(size, ops + [DoAdd(blocknr, block, mm)]);
      Fits(d) && (Add(c, blocknr, block, mm).1 ==> Lookup(d, blocknr).1 == Some(block))
  {
    hide After, Timely, Lookup, Add, Takes, Puts, Inv;
    var c, op := After(size, ops), DoAdd(blocknr, block, mm);
    var d := After(size, ops + [op]);
    AfterOne(size, ops, op);
    InvFits(c);
    InvFits(d);
    AddPuts(size, ops, blocknr, block, mm);
    LookupTakesIn(d, blocknr);
    if Add(c, blocknr, block, mm).1 {
      var added := Entry(|c.accepted|, blocknr, block);
      PutIsFound(c, d, added);
      NewestOfAll(d, added);
      var r := Lookup(d, blocknr);
      var e :| Takes(d, r.0, blocknr, e) && r.1.value == e.block;
      TakesNewest(d, r.0, blocknr, e, added);
    }
  }

  lemma InvFits(c: Cache)
    requires Inv(c)
    ensures Fits(c) && Sized(c)
  {
  }

  lemma PutIsFound(c: Cache, d: Cache, added: Entry)
    requires Sized(c) && Sized(d) && Puts(c, d, added)
    ensures Findable(d, added) && d.accepted == c.accepted + [added] && added in d.held
  {
  }

  lemma NewestOfAll(d: Cache, added: Entry)
    requires Inv(d) && Sized(d) && added in d.held && |d.accepted| == added.stamp + 1
    ensures forall x :: Findable(d, x) && x.stamp >= added.stamp ==> x == added
  {
    hide Select, Hashed, Conserved;
    forall x | Findable(d, x) && x.stamp >= added.stamp
      ensures x == added
    {
      ChainIs(d, x.blocknr % d.size);
      FirstIsNewest(d.held, x);
      FirstIsNewest(d.held, added);
    }
  }

  lemma TakesNewest(c: Cache, d: Cache, blocknr: nat, e: Entry, added: Entry)
    requires Sized(c) && Sized(d) && Takes(c, d, blocknr, e) && Findable(c, added) && added.blocknr == blocknr
    requires forall x :: Findable(c, x) && x.stamp >= added.stamp ==> x == added
    ensures e == added
  {
  }
}
