/**
 The work queue (workqueue/workqueue.c): the linked list of work units with its pool of
 spare nodes, in a memory of addressed nodes.  The methods of `UnitQueue` are what runs
 under the queue's lock.
 */
module WorkQueue {
  import opened Options
  import opened Links

  const POOL_SIZE: nat := 128

  /** What a caller asks to be run. */
  datatype Item = Item(func: nat, args: nat)

  // -------------------------------------------------------------------------
  // The queue as a value

  datatype Cell = Cell(addr: Addr, item: Item)

  datatype Units = Units(pending: seq<Cell>, spare: seq<Addr>, free: nat)

  function Items(cells: seq<Cell>): (r: seq<Item>)
    ensures |r| == |cells| && forall i :: 0 <= i < |r| ==> r[i] == cells[i].item
  {
    seq(|cells|, i requires 0 <= i < |cells| => cells[i].item)
  }

  function Addrs(cells: seq<Cell>): (r: seq<Addr>)
    ensures |r| == |cells| && forall i :: 0 <= i < |r| ==> r[i] == cells[i].addr
  {
    seq(|cells|, i requires 0 <= i < |cells| => cells[i].addr)
  }

  /** All unit nodes: first those that hold work, then the pool. */
  function Nodes(u: Units): seq<Addr> { Addrs(u.pending) + u.spare }

  /** Take the first unit off the list and give its node to the pool. */
  function Fetched(u: Units): Units
    requires u.pending != []
  {
    Units(u.pending[1..], if u.free == POOL_SIZE then u.spare else [u.pending[0].addr] + u.spare, u.free)
  }

  /** Append an item in a node of the pool, or else in the node `mm` that malloc returned, if any. */
  function Added(u: Units, item: Item, mm: Option<Addr>): Units {
    if u.spare != [] then Units(u.pending + [Cell(u.spare[0], item)], u.spare[1..], u.free)
    else if mm.Some? then Units(u.pending + [Cell(mm.value, item)], u.spare, u.free)
    else u
  }

  // -------------------------------------------------------------------------
  // The queue in memory

  /** The list of nodes `s`, with the items they hold. */
  ghost function Cells(work: map<Addr, Item>, s: seq<Addr>): (r: seq<Cell>)
    ensures |r| == |s|
  {
    seq(|s|, i requires 0 <= i < |s| => Cell(s[i], if s[i] in work then work[s[i]] else Item(0, 0)))
  }

  lemma CellsFrame(work: map<Addr, Item>, work': map<Addr, Item>, s: seq<Addr>)
    requires forall a :: a in Elems(s) ==> a in work && a in work' && work'[a] == work[a]
    ensures Cells(work', s) == Cells(work, s)
  {
    assert forall i :: 0 <= i < |s| ==> s[i] in Elems(s);
  }

  lemma CellsTail(work: map<Addr, Item>, s: seq<Addr>)
    requires s != [] && s[0] in work
    ensures Cells(work, s) != [] && Cells(work, s)[0] == Cell(s[0], work[s[0]])
    ensures Cells(work, s[1..]) == Cells(work, s)[1..]
  {
  }

  lemma CellsSnoc(work: map<Addr, Item>, s: seq<Addr>, a: Addr)
    requires a in work
    ensures Cells(work, s + [a]) == Cells(work, s) + [Cell(a, work[a])]
  {
  }

  lemma InList(s: seq<Addr>, work: map<Addr, Item>)
    requires Elems(s) <= work.Keys && s != []
    ensures s[0] in work
  {
    assert s[0] in Elems(s);
  }

  lemma CellsAddrs(work: map<Addr, Item>, s: seq<Addr>)
    ensures Addrs(Cells(work, s)) == s
  {
  }

  class UnitQueue {
    var next: map<Addr, Option<Addr>>
    var work: map<Addr, Item>
    var first: Option<Addr>
    var last: Option<Addr>
    var pool: Option<Addr>
    var free: nat
    ghost var pending: seq<Addr>
    ghost var spare: seq<Addr>

    /** Every allocated node is in exactly one list, except those in `out`, which are in neither. */
    ghost predicate Holds(out: set<Addr>)
      reads this
    {
      IsChain(next, first, pending) && IsChain(next, pool, spare) &&
      last == (if pending == [] then None else Some(pending[|pending| - 1])) &&
      Elems(pending) !! Elems(spare) !! out &&
      next.Keys == Elems(pending) + Elems(spare) + out == work.Keys
    }

    ghost predicate Valid()
      reads this
    {
      Holds({})
    }

    ghost function View(): Units
      reads this
    {
      Units(Cells(work, pending), spare, free)
    }

    constructor ()
      ensures Valid() && View() == Units([], [], 0)
    {
      next, work := map[], map[];
      first, last, pool, free := None, None, None, 0;
      pending, spare := [], [];
    }

    /** A node from the pool, or one from malloc, which answers `mm`. */
    method PoolAlloc(mm: Option<Addr>) returns (unit: Option<Addr>)
      requires Valid() && (mm.Some? ==> mm.value !in next)
      modifies this`next, this`work, this`pool, this`spare
      ensures unit == if old(spare) != [] then Some(old(spare)[0]) else mm
      ensures spare == if old(spare) != [] then old(spare)[1..] else []
      ensures unit.None? ==> Valid()
      ensures unit.Some? ==> Holds({unit.value}) && next[unit.value] == None
      ensures Cells(work, pending) == old(Cells(work, pending))
    {
      hide IsChain, Distinct, Cells, Elems;
      ChainHead(next, pool, spare);
      ChainStart(next, pool, spare);
      if pool.Some? {
        var a := pool.value;
        FirstOut(next.Keys, spare, pending);
        unit, pool := pool, next[a];
        ChainUpdate(next, first, pending, a, None);
        ChainUpdate(next, pool, spare[1..], a, None);
        next := next[a := None];
        spare := spare[1..];
      } else if mm.Some? {
        unit := mm;
        NotListed(pending, spare, mm.value);
        ChainUpdate(next, first, pending, mm.value, None);
        ChainUpdate(next, pool, spare, mm.value, None);
        CellsFrame(work, work[mm.value := Item(0, 0)], pending);
        next, work := next[mm.value := None], work[mm.value := Item(0, 0)];
      } else {
        unit := None;
      }
    }

    /** Give a node back: to the pool, or to the system if the pool is full. */
    method PoolFree(unit: Addr)
      requires Holds({unit})
      modifies this`next, this`work, this`pool, this`spare
      ensures Valid()
      ensures spare == if free == POOL_SIZE then old(spare) else [unit] + old(spare)
      ensures Cells(work, pending) == old(Cells(work, pending))
    {
      hide IsChain, Distinct, Cells, Elems;
      NotListed(pending, spare, unit);
      if free == POOL_SIZE {
        ChainDrop(next, first, pending, unit);
        ChainDrop(next, pool, spare, unit);
        CellsFrame(work, work - {unit}, pending);
        next, work := next - {unit}, work - {unit};
      } else {
        ChainUpdate(next, first, pending, unit, pool);
        ChainPush(next, pool, spare, unit);
        ElemsGrow(spare, unit);
        next := next[unit := pool];
        pool := Some(unit);
        spare := [unit] + spare;
      }
    }

    /** Detach the first node of the list. */
    method Unlink() returns (mm: Addr)
      requires Valid() && first.Some?
      modifies this`first, this`last, this`pending
      ensures old(pending) != [] && mm == old(pending)[0] && pending == old(pending)[1..]
      ensures Holds({mm})
    {
      hide IsChain, Distinct, Cells;
      ChainHead(next, first, pending);
      ChainStart(next, first, pending);
      mm := first.value;
      DistinctTail(pending);
      assert mm in Elems(pending);
      assert |pending| > 1 ==> pending[|pending| - 1] == pending[1..][|pending| - 2];
      first := next[mm];
      if last == Some(mm) {
        last := None;
      }
      pending := pending[1..];
    }

    /** Dequeue under the lock. */
    method Fetch() returns (r: Option<Item>)
      requires Valid()
      modifies this
      ensures Valid()
      ensures r.None? <==> old(View()).pending == []
      ensures r.None? ==> View() == old(View())
      ensures r.Some? ==> r.value == old(View()).pending[0].item && View() == Fetched(old(View()))
    {
      hide IsChain, Distinct, Cells, Elems;
      ChainHead(next, first, pending);
      if first.None? {
        return None;
      }
      InList(pending, work);
      CellsTail(work, pending);
      var mm := Unlink();
      r := Some(work[mm]);
      PoolFree(mm);
    }

    /** Enqueue under the lock: true if the item was stored. */
    method AddItem(item: Item, mm: Option<Addr>) returns (ok: bool)
      requires Valid() && (mm.Some? ==> mm.value !in next)
      modifies this
      ensures Valid() && View() == Added(old(View()), item, mm)
      ensures ok <==> old(View()).spare != [] || mm.Some?
    {
      hide IsChain, Distinct, Cells, Elems;
      var unit := PoolAlloc(mm);
      ok := unit.Some?;
      if ok {
        Link(unit.value, item);
      }
    }

    /** Write the item into a detached node and hang it on the end of the list. */
    method Link(unit: Addr, item: Item)
      requires Holds({unit}) && next[unit] == None
      modifies this`next, this`work, this`first, this`last, this`pending
      ensures Valid() && pending == old(pending) + [unit]
      ensures Cells(work, pending) == old(Cells(work, pending)) + [Cell(unit, item)]
    {
      hide IsChain, Distinct, Cells, Elems;
      NotListed(pending, spare, unit);
      ChainHead(next, first, pending);
      ChainSnoc(next, first, pending, unit);
      ElemsGrow(pending, unit);
      CellsFrame(work, work[unit := item], pending);
      CellsSnoc(work[unit := item], pending, unit);
      work := work[unit := item];
      if first.None? {
        assert next[unit := None] == next && [] + [unit] == [unit];
        first := Some(unit);
      } else {
        var l := last.value;
        LastListed(pending, spare, unit);
        ChainUpdate(next, pool, spare, l, Some(unit));
        assert next[l := Some(unit)][unit := None] == next[l := Some(unit)];
        next := next[l := Some(unit)];
      }
      last := Some(unit);
      pending := pending + [unit];
    }

    /** The first loop of the release: the nodes that hold work. */
    method FreePending() returns (frees: seq<Addr>)
      requires Valid()
      modifies this`next, this`work, this`first, this`pending
      ensures frees == old(pending) && pending == []
      ensures IsChain(next, pool, spare) && next.Keys == Elems(spare) == work.Keys
    {
      hide IsChain, Distinct, Cells, Elems;
      frees := [];
      while first.Some?
        invariant IsChain(next, first, pending) && IsChain(next, pool, spare)
        invariant Elems(pending) !! Elems(spare)
        invariant next.Keys == Elems(pending) + Elems(spare) == work.Keys
        invariant frees + pending == old(pending)
        decreases |pending|
      {
        ChainHead(next, first, pending);
        ChainStart(next, first, pending);
        FirstOut(next.Keys, pending, spare);
        var unit := first.value;
        first := next[unit];
        ChainDrop(next, first, pending[1..], unit);
        ChainDrop(next, pool, spare, unit);
        next, work := next - {unit}, work - {unit};
        assert frees + pending == (frees + [unit]) + pending[1..];
        frees := frees + [unit];
        pending := pending[1..];
      }
      ChainHead(next, first, pending);
      NoElems(pending);
    }

    /** Hand every node back to the system, the pending ones first; no node is freed twice. */
    method FreeUnits() returns (frees: seq<Addr>)
      requires Valid()
      modifies this`next, this`work, this`first, this`pending, this`pool, this`spare
      ensures next == map[] && frees == Nodes(old(View()))
    {
      hide IsChain, Distinct, Cells;
      CellsAddrs(work, pending);
      frees := FreePending();
      ghost var taken := frees;
      while pool.Some?
        invariant IsChain(next, pool, spare) && frees + spare == taken + old(spare)
        invariant next.Keys == Elems(spare) == work.Keys
        decreases |spare|
      {
        ChainHead(next, pool, spare);
        ChainStart(next, pool, spare);
        DistinctTail(spare);
        var unit := pool.value;
        assert frees + spare == (frees + [unit]) + spare[1..];
        pool := next[unit];
        ChainDrop(next, pool, spare[1..], unit);
        next, work := next - {unit}, work - {unit};
        frees := frees + [unit];
        spare := spare[1..];
      }
      ChainHead(next, pool, spare);
      assert next.Keys == {};
    }
  }
}
