/**
 The chunk queue in memory (chunkq/chunkq.c): a linked list of chunks from `head` to `tail`, and a pool of
 spare chunks.  Every method is proved against the bytes that the list holds.
 */
module ChunkQueues {
  import opened Options
  import opened Arithmetic
  import opened Bytes
  import opened Links
  import opened ChunkBytes
  import Copy = PageBytes

  const POOL_LIMIT: nat := 8
  const COUNTS: nat := 0x1_0000_0000

  /** A chunk from the allocator: its address and whatever its buffer holds. */
  datatype Grant = Grant(at: Addr, junk: seq<byte>)

  // -------------------------------------------------------------------------
  // Lists of chunks

  /** The chunks along a list. */
  ghost function ChunksOf(cell: map<Addr, Chunk>, s: seq<Addr>): (r: seq<Chunk>)
    ensures |r| == |s|
  {
    seq(|s|, i requires 0 <= i < |s| => if s[i] in cell then cell[s[i]] else Chunk([], 0, 0))
  }

  lemma ChunksAt(cell: map<Addr, Chunk>, s: seq<Addr>, i: nat)
    requires i < |s| && Elems(s) <= cell.Keys
    ensures s[i] in cell && ChunksOf(cell, s)[i] == cell[s[i]]
  {
    assert s[i] in Elems(s);
  }

  lemma ChunksFrame(cell: map<Addr, Chunk>, cell': map<Addr, Chunk>, s: seq<Addr>)
    requires Elems(s) <= cell.Keys && Elems(s) <= cell'.Keys && forall a :: a in Elems(s) ==> cell'[a] == cell[a]
    ensures ChunksOf(cell', s) == ChunksOf(cell, s)
  {
    assert forall i :: 0 <= i < |s| ==> s[i] in Elems(s);
  }

  lemma ChunksTail(cell: map<Addr, Chunk>, s: seq<Addr>)
    requires s != []
    ensures ChunksOf(cell, s[1..]) == ChunksOf(cell, s)[1..]
  {
  }

  lemma ChunksSnoc(cell: map<Addr, Chunk>, s: seq<Addr>, a: Addr)
    requires a in cell
    ensures ChunksOf(cell, s + [a]) == ChunksOf(cell, s) + [cell[a]]
  {
  }

  /** A new value for one chunk of a list. */
  lemma ChunksUpdate(cell: map<Addr, Chunk>, s: seq<Addr>, i: nat, c: Chunk)
    requires Distinct(s) && i < |s| && Elems(s) <= cell.Keys
    ensures ChunksOf(cell[s[i] := c], s) == ChunksOf(cell, s)[i := c]
  {
    var r, t := ChunksOf(cell[s[i] := c], s), ChunksOf(cell, s)[i := c];
    forall j | 0 <= j < |s|
      ensures r[j] == t[j]
    {
      if j != i {
        Apart(s, i, j);
      }
    }
  }

  function Last(s: seq<Addr>): Option<Addr> { if s == [] then None else Some(s[|s| - 1]) }

  /** Every allocated chunk is in the list or in the pool, once, except those in `out`, which are in neither. */
  ghost predicate Laid(next: map<Addr, Option<Addr>>, cell: map<Addr, Chunk>, head: Option<Addr>, tail: Option<Addr>,
                       pool: Option<Addr>,
                       nodes: seq<Addr>, spare: seq<Addr>, out: set<Addr>, chunk: nat)
  {
    && IsChain(next, head, nodes) && IsChain(next, pool, spare) && tail == Last(nodes)
    && Elems(nodes) !! Elems(spare) !! out
    && next.Keys == Elems(nodes) + Elems(spare) + out == cell.Keys
    && forall a :: a in cell ==> |cell[a].data| == chunk
  }

  lemma LastOfTail(s: seq<Addr>)
    requires s != []
    ensures Last(s[1..]) == if |s| == 1 then None else Last(s)
  {
  }

  // -------------------------------------------------------------------------
  // What the allocator grants during one call

  /** Chunks of the right size, each at its own address, none of them at an address in `keys`. */
  ghost predicate Granting(grant: nat -> Option<Grant>, chunk: nat, keys: set<Addr>) {
    && (forall k: nat :: grant(k).Some? ==> |grant(k).value.junk| == chunk && grant(k).value.at !in keys)
    && (forall k: nat, l: nat :: k < l && grant(k).Some? && grant(l).Some? ==> grant(k).value.at != grant(l).value.at)
  }

  ghost function Given(grant: nat -> Option<Grant>, k: nat): set<Addr> {
    if k == 0 then {} else Given(grant, k - 1) + if grant(k - 1).Some? then {grant(k - 1).value.at} else {}
  }

  /** `now` is `keys` and the first `k` grants. */
  ghost predicate GrantedKeys(grant: nat -> Option<Grant>, keys: set<Addr>, now: set<Addr>, k: nat) {
    now == keys + Given(grant, k) && forall j: nat :: j < k ==> grant(j).Some?
  }

  lemma NoneGranted(grant: nat -> Option<Grant>, keys: set<Addr>)
    ensures GrantedKeys(grant, keys, keys, 0)
  {
  }

  lemma {:induction false} GivenIs(grant: nat -> Option<Grant>, k: nat, a: Addr)
    requires a in Given(grant, k)
    ensures exists j: nat :: j < k && grant(j).Some? && grant(j).value.at == a
  {
    if a in Given(grant, k - 1) {
      GivenIs(grant, k - 1, a);
    }
  }

  /** The next grant is new. */
  lemma GrantAt(grant: nat -> Option<Grant>, chunk: nat, keys: set<Addr>, now: set<Addr>, k: nat)
    requires Granting(grant, chunk, keys) && GrantedKeys(grant, keys, now, k)
    ensures grant(k).Some? ==> grant(k).value.at !in now && |grant(k).value.junk| == chunk
  {
    if grant(k).Some? && grant(k).value.at in Given(grant, k) {
      GivenIs(grant, k, grant(k).value.at);
    }
  }

  lemma NextGranted(grant: nat -> Option<Grant>, keys: set<Addr>, had: set<Addr>, now: set<Addr>, k: nat, k': nat,
                    node: Addr)
    requires GrantedKeys(grant, keys, had, k) && now == had + {node}
    requires (k' == k && node in had) || (k' == k + 1 && grant(k).Some? && grant(k).value.at == node)
    ensures GrantedKeys(grant, keys, now, k')
  {
    if k' == k {
      assert now == had;
    } else {
      assert Given(grant, k') == Given(grant, k) + {node};
    }
  }

  lemma {:induction false} CountGranted(grant: nat -> Option<Grant>, chunk: nat, keys: set<Addr>, now: set<Addr>,
                                        k: nat)
    requires Granting(grant, chunk, keys) && GrantedKeys(grant, keys, now, k)
    ensures |now| == |keys| + k && keys <= now
  {
    if k > 0 {
      var before := keys + Given(grant, k - 1);
      CountGranted(grant, chunk, keys, before, k - 1);
      GrantAt(grant, chunk, keys, before, k - 1);
      assert grant(k - 1).Some?;
      assert now == before + {grant(k - 1).value.at};
    }
  }

  /** The count of spare chunks is only ever counted down, from zero, in 32 bits. */
  function CountAfter(takes: nat): nat { (0 - takes) % COUNTS }

  lemma CountDown(takes: nat)
    ensures (CountAfter(takes) - 1) % COUNTS == CountAfter(takes + 1)
  {
  }

  // -------------------------------------------------------------------------
  // The queue

  class ChunkQueue {
    const chunk: nat
    var next: map<Addr, Option<Addr>>
    var cell: map<Addr, Chunk>
    var head: Option<Addr>
    var tail: Option<Addr>
    var pool: Option<Addr>
    var psize: nat
    var size: nat
    ghost var nodes: seq<Addr>
    ghost var spare: seq<Addr>
    /** How many chunks have been taken from the pool. */
    ghost var takes: nat

    ghost function Chunks(): (r: seq<Chunk>)
      reads this
      ensures |r| == |nodes|
    {
      ChunksOf(cell, nodes)
    }

    ghost predicate Holds(out: set<Addr>)
      reads this
    {
      Laid(next, cell, head, tail, pool, nodes, spare, out, chunk) && psize == CountAfter(takes)
    }

    ghost predicate Valid()
      reads this
    {
      && chunk > 0 && Holds({})
      && Shape(Chunks(), chunk) && NoneEmpty(Chunks()) && size == |Contents(Chunks())|
    }

    /** `chunkq_alloc` */
    constructor (chunkSize: nat)
      requires chunkSize > 0
      ensures Valid() && next == map[] && Chunks() == [] && chunk == chunkSize && pool == None == head && takes == 0
      ensures spare == []
    {
      chunk := chunkSize;
      next, cell, head, tail, pool, psize, size := map[], map[], None, None, None, 0, 0;
      nodes, spare, takes := [], [], 0;
    }

    /** `__chunkn_alloc`: the first spare chunk, or the one that the allocator grants; empty in any case. */
    method ChunkAlloc(grant: Option<Grant>) returns (node: Option<Addr>)
      requires Holds({}) && (grant.Some? ==> grant.value.at !in next && |grant.value.junk| == chunk)
      modifies this`next, this`cell, this`pool, this`psize, this`spare, this`takes
      ensures node == if old(spare) != [] then Some(old(spare)[0]) else if grant.Some? then Some(grant.value.at)
        else None
      ensures spare == if old(spare) != [] then old(spare)[1..] else []
      ensures Chunks() == old(Chunks())
      ensures node.None? ==> Holds({}) && next == old(next)
      ensures node.Some? ==>
        Holds({node.value}) && next[node.value] == None && next.Keys == old(next.Keys) + {node.value}
      ensures takes == old(takes) + |old(spare)| - |spare| && (old(spare) != [] ==> next.Keys == old(next.Keys))
      ensures node.Some? ==>
        node.value in cell && cell[node.value].offset == 0 && cell[node.value].size == 0 &&
        |cell[node.value].data| == chunk
    {
      hide Laid, ChunksOf, CountAfter;
      PoolIs();
      if pool.Some? {
        var a := TakeSpare();
        node := Some(a);
      } else if grant.Some? {
        TakeGrant(grant.value);
        node := Some(grant.value.at);
      } else {
        node := None;
      }
    }

    /** The first chunk of the pool, emptied. */
    method TakeSpare() returns (a: Addr)
      requires Holds({}) && spare != []
      modifies this`next, this`cell, this`pool, this`psize, this`spare, this`takes
      ensures a == old(spare)[0] && spare == old(spare)[1..] && Chunks() == old(Chunks()) && takes == old(takes) + 1
      ensures Holds({a}) && a in next && next[a] == None && next.Keys == old(next.Keys) && a in old(next)
      ensures a in cell && cell[a].offset == 0 && cell[a].size == 0 && |cell[a].data| == chunk
    {
      hide IsChain, Distinct, Elems, ChunksOf, CountAfter;
      ChainHead(next, pool, spare);
      ChainStart(next, pool, spare);
      a := pool.value;
      FirstOut(next.Keys, spare, nodes);
      CountDown(takes);
      pool := next[a];
      psize, takes := (psize - 1) % COUNTS, takes + 1;
      ChainUpdate(next, head, nodes, a, None);
      ChainUpdate(next, pool, spare[1..], a, None);
      ghost var was := cell;
      next, cell := next[a := None], cell[a := cell[a].(offset := 0, size := 0)];
      ChunksFrame(was, cell, nodes);
      spare := spare[1..];
    }

    /** A chunk from the allocator. */
    method TakeGrant(g: Grant)
      requires Holds({}) && g.at !in next && |g.junk| == chunk
      modifies this`next, this`cell
      ensures Chunks() == old(Chunks()) && Holds({g.at}) && next == old(next)[g.at := None]
      ensures cell == old(cell)[g.at := Chunk(g.junk, 0, 0)]
    {
      hide IsChain, Distinct, Elems, ChunksOf, CountAfter;
      NotListed(nodes, spare, g.at);
      ChainUpdate(next, head, nodes, g.at, None);
      ChainUpdate(next, pool, spare, g.at, None);
      ghost var was := cell;
      next, cell := next[g.at := None], cell[g.at := Chunk(g.junk, 0, 0)];
      ChunksFrame(was, cell, nodes);
    }

    /** `__chunkn_free`: back to the allocator if the count is above its limit, else into the pool. */
    method ChunkFree(node: Addr)
      requires Holds({node})
      modifies this`next, this`cell, this`pool, this`spare
      ensures Holds({}) && Chunks() == old(Chunks())
      ensures spare == if psize > POOL_LIMIT then old(spare) else [node] + old(spare)
      ensures next.Keys == if psize > POOL_LIMIT then old(next.Keys) - {node} else old(next.Keys)
    {
      hide IsChain, Distinct, Elems, ChunksOf, CountAfter;
      NotListed(nodes, spare, node);
      if psize > POOL_LIMIT {
        ChainDrop(next, head, nodes, node);
        ChainDrop(next, pool, spare, node);
        ghost var was := cell;
        next, cell := next - {node}, cell - {node};
        ChunksFrame(was, cell, nodes);
      } else {
        ChainUpdate(next, head, nodes, node, pool);
        ChainPush(next, pool, spare, node);
        ElemsGrow(spare, node);
        next := next[node := pool];
        pool, spare := Some(node), [node] + spare;
      }
    }

    /** Hang a chunk on the end of the list. */
    method Hang(node: Addr)
      requires Holds({node}) && next[node] == None
      modifies this`next, this`head, this`tail, this`nodes
      ensures Holds({}) && nodes == old(nodes) + [node] && tail == Some(node) && cell == old(cell)
      ensures next.Keys == old(next.Keys)
      ensures Chunks() == old(Chunks()) + [cell[node]]
    {
      hide IsChain, Distinct, Elems, ChunksOf, CountAfter;
      NotListed(nodes, spare, node);
      ChainHead(next, head, nodes);
      ChainSnoc(next, head, nodes, node);
      ElemsGrow(nodes, node);
      ChunksSnoc(cell, nodes, node);
      if tail.None? {
        assert next[node := None] == next && [] + [node] == [node];
        head := Some(node);
      } else {
        var l := tail.value;
        LastListed(nodes, spare, node);
        ChainUpdate(next, pool, spare, l, Some(node));
        assert next[l := Some(node)][node := None] == next[l := Some(node)];
        next := next[l := Some(node)];
      }
      tail := Some(node);
      nodes := nodes + [node];
    }

    /** A new value for the chunk at place `i` of the list. */
    method Update(node: Addr, c: Chunk, ghost i: nat)
      requires Holds({}) && i < |nodes| && nodes[i] == node && |c.data| == chunk
      modifies this`cell
      ensures Holds({}) && Chunks() == old(Chunks())[i := c]
    {
      hide IsChain, Distinct, Elems, ChunksOf, CountAfter;
      ChainStart(next, head, nodes);
      ChunksAt(cell, nodes, i);
      ChunksUpdate(cell, nodes, i, c);
      cell := cell[node := c];
    }

    /** Take the first chunk off the list and free it. */
    method PopHead()
      requires Holds({}) && head.Some?
      modifies this`next, this`cell, this`pool, this`spare, this`head, this`tail, this`nodes
      ensures Holds({}) && old(nodes) != [] && nodes == old(nodes)[1..] && Chunks() == old(Chunks())[1..]
      ensures next.Keys == if psize > POOL_LIMIT then old(next.Keys) - {old(nodes)[0]} else old(next.Keys)
      ensures spare == if psize > POOL_LIMIT then old(spare) else [old(nodes)[0]] + old(spare)
    {
      hide IsChain, Distinct, Elems, ChunksOf, CountAfter;
      ChainHead(next, head, nodes);
      ChainStart(next, head, nodes);
      FirstOut(next.Keys, nodes, spare);
      ChunksTail(cell, nodes);
      LastOfTail(nodes);
      var node := head.value;
      head := next[node];
      ChainHead(next, head, nodes[1..]);
      if head.None? {
        tail := None;
      }
      nodes := nodes[1..];
      ChunkFree(node);
    }

    /** `chunkq_read`: the oldest bytes, and the queue without them. */
    method Read(n: nat) returns (rd: int, buffer: seq<byte>)
      requires Valid()
      modifies this`next, this`cell, this`pool, this`spare, this`head, this`tail, this`nodes, this`size
      ensures Valid() && next.Keys <= old(next.Keys)
      ensures old(head).None? ==> rd == -1 && head.None?
      ensures old(head).Some? ==> rd == Min(n, |old(Contents(Chunks()))|)
      ensures old(head).Some? ==>
        0 <= rd && buffer == old(Contents(Chunks()))[..rd] && Contents(Chunks()) == old(Contents(Chunks()))[rd..]
      ensures old(head).Some? && n > 0 ==> (head.None? <==> Contents(Chunks()) == [])
      ensures n == 0 ==> unchanged(this)
    {
      hide Shape, NoneEmpty, Contents, Taken, Laid, ChunksOf;
      buffer := [];
      if head.None? {
        return -1, buffer;
      }
      ghost var was := Contents(Chunks());
      rd := 0;
      ghost var turned := false;
      while rd < n && head.Some?
        invariant turned ==> n > 0 && (head.None? || Contents(Chunks()) != [])
        invariant !turned ==> unchanged(this) && rd == 0
        invariant 0 <= rd <= n && rd == |buffer| && buffer + Contents(Chunks()) == was && Valid()
        invariant next.Keys <= old(next.Keys)
        decreases n - rd + |nodes|
      {
        rd, buffer := ReadSome(n, rd, buffer, was);
        turned := true;
      }
      assert buffer == (buffer + Contents(Chunks()))[..rd];
      assert Contents(Chunks()) == (buffer + Contents(Chunks()))[rd..];
      HeadIs();
      NoContents(Chunks());
    }

    /** The list is empty exactly if `head` is null. */
    lemma HeadIs()
      requires Holds({})
      ensures head.None? <==> nodes == []
      ensures head.Some? ==> head.value == nodes[0] && nodes[0] in cell && Chunks()[0] == cell[nodes[0]]
      ensures tail.Some? <==> nodes != []
      ensures tail.Some? ==>
        tail.value == nodes[|nodes| - 1] && tail.value in cell && Chunks()[|nodes| - 1] == cell[tail.value]
    {
      hide IsChain, ChunksOf, Distinct, Elems;
      ChainHead(next, head, nodes);
      if nodes != [] {
        ChunksAt(cell, nodes, 0);
        ChunksAt(cell, nodes, |nodes| - 1);
      }
    }

    /** One turn of the loop of `chunkq_read`. */
    method ReadSome(n: nat, rd: nat, buffer: seq<byte>, ghost was: seq<byte>) returns (rd': nat, buffer': seq<byte>)
      requires rd < n && rd == |buffer| && Valid() && buffer + Contents(Chunks()) == was && head.Some?
      modifies this`next, this`cell, this`pool, this`spare, this`head, this`tail, this`nodes, this`size
      ensures rd <= rd' <= n && rd' == |buffer'| && Valid() && buffer' + Contents(Chunks()) == was
      ensures next.Keys <= old(next.Keys)
      ensures n - rd' + |nodes| < n - rd + |old(nodes)|
      ensures head.None? || Contents(Chunks()) != []
    {
      hide NoneEmpty, Contents, Laid, ChunksOf, CountAfter, Shape, Taken, Part;
      HeadIs();
      ShapeAt(Chunks(), chunk, 0);
      var node := cell[head.value];
      var bksize := Min(n - rd, node.size);
      var bytes := node.data[node.offset..node.offset + bksize];
      TakenFacts(Chunks(), chunk, bksize);
      TakenHolds(Chunks(), chunk, bksize);
      TakeOff(bksize);
      HeadIs();
      buffer' := buffer + bytes;
      rd' := rd + bksize;
      size := size - bksize;
      assert buffer' + Contents(Chunks()) == buffer + (bytes + Contents(Chunks()));
    }

    /** Take `k` bytes off the first chunk, and the chunk off the list when it is used up. */
    method TakeOff(k: nat)
      requires Holds({}) && head.Some? && nodes != [] && k <= Chunks()[0].size && Shape(Chunks(), chunk)
      modifies this`next, this`cell, this`pool, this`spare, this`head, this`tail, this`nodes
      ensures Holds({}) && old(nodes) != [] && Chunks() == Taken(old(Chunks()), k) && next.Keys <= old(next.Keys)
      ensures |nodes| == |old(nodes)| - if k == old(Chunks()[0].size) then 1 else 0
    {
      hide NoneEmpty, Contents, Laid, ChunksOf, CountAfter, Shape, Taken;
      HeadIs();
      ShapeAt(Chunks(), chunk, 0);
      TakenIs(Chunks(), k);
      var node := cell[head.value];
      var c := node.(offset := node.offset + k, size := node.size - k);
      Update(head.value, c, 0);
      if c.size == 0 {
        PopHead();
      }
    }

    /**
     `chunkq_append`; `grant(k)` is what the allocator answers to the `k`-th request of this call, and `got`
     the number of chunks that it gave.  The result says how many bytes have been added, fewer than asked for
     only if the last chunk is full, the pool is empty and the allocator has refused, and -1 if that was so
     for the first chunk.
     */
    method Append(buffer: seq<byte>, grant: nat -> Option<Grant>) returns (wr: int, ghost got: nat)
      requires Valid() && Granting(grant, chunk, next.Keys)
      modifies this`next, this`cell, this`pool, this`psize, this`spare, this`takes, this`head, this`tail, this`nodes,
               this`size
      ensures Valid() && old(next.Keys) <= next.Keys && |next.Keys| == |old(next.Keys)| + got
      ensures wr >= -1 && (wr == -1 <==> old(head).None? && old(pool).None? && grant(0).None?)
      ensures wr == -1 ==> Chunks() == old(Chunks()) && next == old(next)
      ensures wr >= 0 ==> head.Some? && wr <= |buffer| && Contents(Chunks()) == old(Contents(Chunks())) + buffer[..wr]
      ensures 0 <= wr < |buffer| ==> TailFull(Chunks(), chunk) && pool.None? && grant(got).None?
      ensures takes == old(takes) + |old(spare)| - |spare|
    {
      hide Shape, NoneEmpty, Contents, TailFull, Laid, ChunksOf, Granting, GrantedKeys, CountAfter;
      ghost var keys := next.Keys;
      ghost var was := Contents(Chunks());
      var k := 0;
      NoneGranted(grant, keys);
      HeadIs();
      if tail.None? {
        k := FirstChunk(grant, keys);
        if tail.None? {
          return -1, 0;
        }
      }
      wr, k := AppendAll(buffer, grant, k, keys);
      got := k;
      CountGranted(grant, chunk, keys, next.Keys, k);
      HeadIs();
    }

    /** The loop of `chunkq_append`. */
    method AppendAll(buffer: seq<byte>, grant: nat -> Option<Grant>, k0: nat, ghost keys: set<Addr>)
      returns (wr: nat, k: nat)
      requires Valid() && tail.Some? && Granting(grant, chunk, keys) && GrantedKeys(grant, keys, next.Keys, k0)
      modifies this`next, this`cell, this`pool, this`psize, this`spare, this`takes, this`head, this`tail, this`nodes,
               this`size
      ensures Valid() && tail.Some? && GrantedKeys(grant, keys, next.Keys, k)
      ensures takes == old(takes) + |old(spare)| - |spare|
      ensures wr <= |buffer| && Contents(Chunks()) == old(Contents(Chunks())) + buffer[..wr]
      ensures wr < |buffer| ==> TailFull(Chunks(), chunk) && pool.None? && grant(k).None?
    {
      hide Shape, NoneEmpty, Contents, TailFull, Laid, ChunksOf, Granting, GrantedKeys, CountAfter;
      ghost var was := Contents(Chunks());
      wr, k := 0, k0;
      assert was + buffer[..0] == was;
      while wr < |buffer|
        invariant wr <= |buffer| && tail.Some? && Valid() && Contents(Chunks()) == was + buffer[..wr]
        invariant GrantedKeys(grant, keys, next.Keys, k) && takes == old(takes) + |old(spare)| - |spare|
      {
        var ok, wr', k' := AppendSome(buffer, wr, grant, k, keys);
        if !ok {
          return;
        }
        assert was + buffer[..wr'] == was + buffer[..wr] + buffer[wr..wr'];
        wr, k := wr', k';
      }
    }

    /** The chunk that an empty queue starts with, if there is one to be had. */
    method FirstChunk(grant: nat -> Option<Grant>, ghost keys: set<Addr>) returns (k: nat)
      requires Valid() && tail.None? && keys == next.Keys && Granting(grant, chunk, keys)
      requires GrantedKeys(grant, keys, next.Keys, 0)
      modifies this`next, this`cell, this`pool, this`psize, this`spare, this`takes, this`head, this`tail, this`nodes
      ensures Valid() && GrantedKeys(grant, keys, next.Keys, k) && Contents(Chunks()) == old(Contents(Chunks()))
      ensures tail.None? <==> old(pool).None? && grant(0).None?
      ensures tail.None? ==> Chunks() == old(Chunks()) && next == old(next)
      ensures takes == old(takes) + |old(spare)| - |spare|
    {
      hide Contents, Laid, ChunksOf, Granting, GrantedKeys, CountAfter;
      HeadIs();
      PoolIs();
      GrantAt(grant, chunk, keys, keys, 0);
      var pooled := pool.Some?;
      var node := ChunkAlloc(grant(0));
      k := 0;
      if node.Some? {
        if !pooled {
          k := 1;
        }
        NextGranted(grant, keys, keys, next.Keys, 0, k, node.value);
        Hang(node.value);
        OneChunk(Chunks(), chunk);
      }
      NoContents(old(Chunks()));
    }

    lemma PoolIs()
      requires Holds({})
      ensures pool.None? <==> spare == []
    {
      hide IsChain, Distinct, Elems;
      ChainHead(next, pool, spare);
    }

    /** One turn of the loop of `chunkq_append`, which may need the `k`-th grant of this call. */
    method AppendSome(buffer: seq<byte>, wr: nat, grant: nat -> Option<Grant>, k: nat, ghost keys: set<Addr>)
      returns (ok: bool, wr': nat, k': nat)
      requires Valid() && tail.Some? && wr < |buffer| && Granting(grant, chunk, keys)
      requires GrantedKeys(grant, keys, next.Keys, k)
      modifies this`next, this`cell, this`pool, this`psize, this`spare, this`takes, this`head, this`tail, this`nodes,
               this`size
      ensures Valid() && tail.Some? && GrantedKeys(grant, keys, next.Keys, if ok then k' else k)
      ensures takes == old(takes) + |old(spare)| - |spare|
      ensures !ok ==> grant(k).None? && pool.None? && TailFull(Chunks(), chunk) && Chunks() == old(Chunks())
      ensures ok ==> wr < wr' <= |buffer| && Contents(Chunks()) == old(Contents(Chunks())) + buffer[wr..wr']
    {
      hide Contents, Laid, ChunksOf, Granting, GrantedKeys, CountAfter, Shape, NoneEmpty;
      HeadIs();
      var t := cell[tail.value];
      ShapeAt(Chunks(), chunk, |nodes| - 1);
      AllHold(Chunks());
      var bksize := chunk - (t.offset + t.size);
      ok, wr', k' := true, wr, k;
      if bksize == 0 {
        ok, k' := GrowTail(grant, k, keys);
        if !ok {
          return;
        }
        HeadIs();
        bksize := chunk;
      }
      bksize := Min(|buffer| - wr, bksize);
      FillTail(buffer[wr..wr + bksize]);
      wr' := wr + bksize;
    }

    /** A new chunk behind the last one, which is full. */
    method GrowTail(grant: nat -> Option<Grant>, k: nat, ghost keys: set<Addr>) returns (ok: bool, k': nat)
      requires Valid() && TailFull(Chunks(), chunk) && Granting(grant, chunk, keys)
      requires GrantedKeys(grant, keys, next.Keys, k)
      modifies this`next, this`cell, this`pool, this`psize, this`spare, this`takes, this`head, this`tail, this`nodes
      ensures !ok ==>
        Valid() && grant(k).None? && pool.None? && Chunks() == old(Chunks()) && next == old(next) && tail == old(tail)
      ensures ok ==> Holds({}) && GrantedKeys(grant, keys, next.Keys, k') && tail.Some?
      ensures ok ==> Shape(Chunks(), chunk) && Contents(Chunks()) == old(Contents(Chunks()))
      ensures ok ==> |Chunks()| == |old(Chunks())| + 1 && Chunks()[..|old(Chunks())|] == old(Chunks())
      ensures ok ==> Chunks()[|old(Chunks())|].offset == 0 == Chunks()[|old(Chunks())|].size
      ensures takes == old(takes) + |old(spare)| - |spare|
    {
      hide Contents, Laid, ChunksOf, Granting, GrantedKeys, CountAfter, Shape, NoneEmpty;
      PoolIs();
      GrantAt(grant, chunk, keys, next.Keys, k);
      ghost var had := next.Keys;
      var pooled := pool.Some?;
      var node := ChunkAlloc(grant(k));
      ok, k' := node.Some?, k;
      if !ok {
        PoolIs();
        return;
      }
      if !pooled {
        k' := k + 1;
      }
      NextGranted(grant, keys, had, next.Keys, k, k', node.value);
      GrownFacts(Chunks(), chunk, cell[node.value].data);
      assert cell[node.value] == Chunk(cell[node.value].data, 0, 0);
      Hang(node.value);
    }

    /** Copy bytes behind those in the last chunk. */
    method FillTail(bytes: seq<byte>)
      requires Holds({}) && tail.Some? && chunk > 0 && bytes != [] && Shape(Chunks(), chunk)
      requires size == |Contents(Chunks())|
      requires forall i :: 0 <= i < |Chunks()| - 1 ==> Chunks()[i].size > 0
      requires nodes != [] && Chunks()[|nodes| - 1].offset + Chunks()[|nodes| - 1].size + |bytes| <= chunk
      modifies this`cell, this`size
      ensures Valid() && Contents(Chunks()) == old(Contents(Chunks())) + bytes
    {
      hide Contents, Laid, ChunksOf, Shape, NoneEmpty, CountAfter;
      HeadIs();
      FilledFacts(Chunks(), chunk, bytes);
      ShapeAt(Chunks(), chunk, |nodes| - 1);
      var t := cell[tail.value];
      FilledIs(Chunks(), chunk, bytes);
      Update(tail.value, t.(data := Copy.Patch(t.data, t.offset + t.size, bytes), size := t.size + |bytes|),
             |nodes| - 1);
      size := size + |bytes|;
    }

    /** Node `i` of the list and what follows it. */
    lemma NodeAt(i: nat)
      requires Holds({}) && i < |nodes|
      ensures nodes[i] in next && next[nodes[i]] == Following(nodes, i) && nodes[i] in cell
      ensures Chunks()[i] == cell[nodes[i]]
    {
      hide IsChain, ChunksOf, Distinct, Elems;
      ChainAt(next, head, nodes, i);
      ChunksAt(cell, nodes, i);
    }

    /** `__chunkn_at_offset`: the chunk that holds byte `offset`, and the number of bytes up to its end. */
    method AtOffset(offset: nat) returns (node: Option<Addr>, x: nat, ghost i: nat)
      requires Valid()
      ensures i <= |nodes| && node == Following(nodes, i - 1) && (node.None? <==> offset >= |Contents(Chunks())|)
      ensures node.Some? ==>
        i < |nodes| && x == |Contents(Chunks()[..i + 1])| &&
          x - Chunks()[i].size == |Contents(Chunks()[..i])| <= offset < x
    {
      hide NoneEmpty, Contents, Laid, ChunksOf, Shape;
      node, x, i := head, 0, 0;
      HeadIs();
      StartContents(Chunks());
      while node.Some?
        invariant i <= |nodes| && node == Following(nodes, i - 1) && x == |Contents(Chunks()[..i])| <= offset
        decreases |nodes| - i
      {
        NodeAt(i);
        ShapeAt(Chunks(), chunk, i);
        ContentsAt(Chunks(), i);
        x := x + cell[node.value].size;
        if x > offset {
          Within(Chunks(), i);
          return;
        }
        node, i := next[node.value], i + 1;
      }
      assert Chunks()[..i] == Chunks();
    }

    /** `chunkq_peek`: a slice of the contents; the queue does not change. */
    method Peek(offset: nat, n: nat) returns (r: int, buffer: seq<byte>)
      requires Valid()
      ensures offset >= |Contents(Chunks())| ==> r == -1
      ensures offset < |Contents(Chunks())| ==>
        r == Min(n, |Contents(Chunks())| - offset) && 0 <= r && buffer == Contents(Chunks())[offset..offset + r]
    {
      hide NoneEmpty, Contents, Shape, Laid, ChunksOf, Part;
      buffer := [];
      var at, x;
      ghost var i;
      at, x, i := AtOffset(offset);
      if at.None? {
        return -1, [];
      }
      NodeAt(i);
      var node := cell[at.value];
      ShapeAt(Chunks(), chunk, i);
      var local := offset - (x - node.size);
      var bksize := Min(node.size - local, n);
      buffer := node.data[node.offset + local..node.offset + local + bksize];
      FirstSlice(Chunks(), chunk, i, local, bksize);
      r, buffer := PeekMore(offset, n, at.value, bksize, buffer, i);
    }

    /** The loop of `chunkq_peek` over the chunks behind `at`. */
    method PeekMore(ghost offset: nat, n: nat, at: Addr, got: nat, first: seq<byte>, ghost i0: nat)
      returns (x: nat, buffer: seq<byte>)
      requires Valid() && i0 < |nodes| && at == nodes[i0] && got <= n && got == |first|
      requires offset + got <= |Contents(Chunks())|
      requires first == Contents(Chunks())[offset..offset + got]
      requires got < n ==> offset + got == |Contents(Chunks()[..i0 + 1])|
      ensures offset <= |Contents(Chunks())| && x == Min(n, |Contents(Chunks())| - offset)
      ensures buffer == Contents(Chunks())[offset..offset + x]
    {
      hide NoneEmpty, Contents, Shape, Part, Laid, ChunksOf;
      ghost var all, i := Contents(Chunks()), i0;
      x, buffer := got, first;
      var node := at;
      while x < n
        invariant x <= n && i < |nodes| && node == nodes[i] && x == |buffer| && offset + x <= |all|
        invariant buffer == all[offset..offset + x]
        invariant x < n ==> offset + x == |Contents(Chunks()[..i + 1])|
        decreases |nodes| - i
      {
        NodeAt(i);
        if next[node].None? {
          assert Chunks()[..i + 1] == Chunks();
          break;
        }
        node, i := next[node].value, i + 1;
        NodeAt(i);
        var c := cell[node];
        ShapeAt(Chunks(), chunk, i);
        var bksize := Min(n - x, c.size);
        NextSlice(Chunks(), chunk, i, bksize);
        Extend(all, offset, offset + x, offset + x + bksize);
        buffer := buffer + c.data[..bksize];
        x := x + bksize;
      }
    }

    /**
     `chunkq_clear`: every chunk of the list goes to the pool, or to the allocator if the count is above its
     limit.
     */
    method Clear()
      requires Valid()
      modifies this`next, this`cell, this`pool, this`spare, this`head, this`tail, this`nodes, this`size
      ensures Valid() && nodes == [] && Contents(Chunks()) == []
      ensures next.Keys == if psize > POOL_LIMIT then Elems(old(spare)) else old(next.Keys)
      ensures psize > POOL_LIMIT ==> spare == old(spare)
    {
      hide Laid, ChunksOf, Shape, NoneEmpty, Contents, Elems, CountAfter;
      while head.Some?
        invariant Holds({}) && (psize <= POOL_LIMIT ==> next.Keys == old(next.Keys))
        invariant (psize > POOL_LIMIT ==> spare == old(spare))
        decreases |nodes|
      {
        PopHead();
      }
      HeadIs();
      ListElems();
      NoElems(nodes);
      size := 0;
      EmptyQueue(Chunks(), chunk);
    }

    /** `chunkq_free`: all chunks go back to the allocator if the count is above its limit, and else none does. */
    method Free()
      requires Valid()
      modifies this
      ensures next.Keys == if old(psize) > POOL_LIMIT then {} else old(next.Keys)
      ensures next.Keys == {} <==> old(psize) > POOL_LIMIT || old(next.Keys) == {}
      ensures head == None == tail == pool
    {
      hide ChunksOf, Shape, NoneEmpty, Contents, Elems, IsChain, Distinct, CountAfter;
      Clear();
      HeadIs();
      ListElems();
      NoElems(nodes);
      var p := pool;
      ghost var rest := spare;
      while p.Some?
        invariant IsChain(next, p, rest) && psize == old(psize) && next.Keys == cell.Keys && head == None == tail
        invariant psize > POOL_LIMIT ==> next.Keys == Elems(rest)
        invariant psize <= POOL_LIMIT ==> next.Keys == old(next.Keys) && Elems(rest) <= next.Keys
        decreases |rest|
      {
        ChainHead(next, p, rest);
        ChainStart(next, p, rest);
        DistinctTail(rest);
        var node := p.value;
        p := next[node];
        if psize > POOL_LIMIT {
          ChainDrop(next, p, rest[1..], node);
          next, cell := next - {node}, cell - {node};
        } else {
          ChainUpdate(next, p, rest[1..], node, pool);
          next := next[node := pool];
          pool := Some(node);
        }
        rest := rest[1..];
      }
      ChainHead(next, p, rest);
      NoElems(rest);
      pool, psize := None, 0;
      spare := [];
    }

    lemma ListElems()
      requires Holds({})
      ensures Distinct(nodes) && next.Keys == Elems(nodes) + Elems(spare) && Elems(nodes) !! Elems(spare)
    {
      hide ChunksOf, Elems;
    }
  }

  lemma OneChunk(cs: seq<Chunk>, chunk: nat)
    requires |cs| == 1 && cs[0].offset == 0 == cs[0].size && |cs[0].data| == chunk
    ensures Shape(cs, chunk) && NoneEmpty(cs) && Contents(cs) == []
  {
    assert cs == [cs[0]];
    ContentsOne(cs[0]);
  }

  /** Every chunk but the last one holds something. */
  lemma AllHold(cs: seq<Chunk>)
    requires NoneEmpty(cs)
    ensures forall i :: 0 <= i < |cs| - 1 ==> cs[i].size > 0
    ensures |cs| > 1 ==> cs[|cs| - 1].size > 0
    ensures cs != [] && (cs[|cs| - 1].offset > 0 || |cs| > 1) ==> cs[|cs| - 1].size > 0
  {
  }

  lemma EmptyQueue(cs: seq<Chunk>, chunk: nat)
    requires cs == []
    ensures Shape(cs, chunk) && NoneEmpty(cs) && Contents(cs) == []
  {
  }

  lemma TakenIs(cs: seq<Chunk>, n: nat)
    requires cs != [] && n <= cs[0].size
    ensures var c := cs[0].(offset := cs[0].offset + n, size := cs[0].size - n);
      Taken(cs, n) == if c.size == 0 then cs[0 := c][1..] else cs[0 := c]
  {
  }

  lemma FilledIs(cs: seq<Chunk>, chunk: nat, bytes: seq<byte>)
    requires cs != [] && |cs[|cs| - 1].data| == chunk && cs[|cs| - 1].offset + cs[|cs| - 1].size + |bytes| <= chunk
    ensures var t := cs[|cs| - 1];
      Filled(cs, bytes) == cs[|cs| - 1 := t.(data := Copy.Patch(t.data, t.offset + t.size, bytes),
                                             size := t.size + |bytes|)]
  {
  }

  /** A prefix holds no more than the whole. */
  lemma Within(cs: seq<Chunk>, i: nat)
    requires i < |cs|
    ensures |Contents(cs[..i + 1])| <= |Contents(cs)|
  {
    hide Contents;
    ContentsAt(cs, i);
  }

  /** A queue that has never reused a chunk keeps them all: here one chunk, after one byte. */
  method LeakOnFree() returns (q: ChunkQueue, wr: int)
    ensures fresh(q) && q.head == None == q.pool && q.next.Keys != {}
  {
    hide Laid, ChunksOf, Shape, NoneEmpty, Contents, Elems, CountAfter, TailFull;
    q := new ChunkQueue(1);
    q.PoolIs();
    var grant := (k: nat) => if k == 0 then Some(Grant(5, [0])) else None;
    ghost var got;
    wr, got := q.Append([7], grant);
    q.HeadIs();
    q.ListElems();
    NeverTaken(q.psize, q.takes);
    InElems(q.nodes);
    q.Free();
  }

  lemma NeverTaken(psize: nat, takes: nat)
    requires psize == CountAfter(takes) && takes == 0
    ensures psize == 0
  {
  }

  lemma InElems(s: seq<Addr>)
    requires s != []
    ensures s[0] in Elems(s)
  {
  }
}
