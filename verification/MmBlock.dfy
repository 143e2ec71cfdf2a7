/** Copy-on-write blocks (mmblock/mmblock.c): many handles share reference-counted buffers. */
module MmBlocks {
  import opened Options
  import opened Arithmetic
  import opened Bytes
  import Copy = PageBytes

  const EFAULT: int := 14
  const ENOMEM: int := 12

  // -------------------------------------------------------------------------
  // What the handles promise: independent arrays

  datatype Event = Made(h: nat, data: seq<byte>) | Copied(h: nat, from: nat) | Wrote(h: nat, at: nat, buf: seq<byte>) |
    Freed(h: nat)

  /** An event that names existing handles and writes within bounds. */
  ghost predicate Fits(m: map<nat, seq<byte>>, e: Event) {
    match e
    case Made(h, _) => h !in m
    case Copied(h, from) => h !in m && from in m
    case Wrote(h, at, buf) => h in m && at + |buf| <= |m[h]|
    case Freed(h) => h in m
  }

  /** One private array per handle. */
  ghost function Apply(m: map<nat, seq<byte>>, e: Event): map<nat, seq<byte>> {
    if !Fits(m, e) then m else
      match e
      case Made(h, data) => m[h := data]
      case Copied(h, from) => m[h := m[from]]
      case Wrote(h, at, buf) => m[h := Copy.Patch(m[h], at, buf)]
      case Freed(h) => m - {h}
  }

  ghost function Replay(log: seq<Event>): map<nat, seq<byte>> {
    if log == [] then map[] else Apply(Replay(log[..|log| - 1]), log[|log| - 1])
  }

  /** What is done through other handles does not show. */
  lemma {:induction false} OthersDoNotShow(log: seq<Event>, more: seq<Event>, h: nat)
    requires forall i :: 0 <= i < |more| ==> more[i].h != h
    ensures h in Replay(log + more) <==> h in Replay(log)
    ensures h in Replay(log) ==> Replay(log + more)[h] == Replay(log)[h]
  {
    if more == [] {
      assert log + more == log;
    } else {
      var n := |more| - 1;
      OthersDoNotShow(log, more[..n], h);
      assert (log + more)[..|log + more| - 1] == log + more[..n];
    }
  }

  /** A copy is what its original was at that moment, whatever happens to the original later. */
  lemma CopyIsSnapshot(log: seq<Event>, h: nat, from: nat, more: seq<Event>)
    requires Fits(Replay(log), Copied(h, from)) && forall i :: 0 <= i < |more| ==> more[i].h != h
    ensures var m := Replay(log + [Copied(h, from)] + more); h in m && m[h] == Replay(log)[from]
  {
    var l := log + [Copied(h, from)];
    assert l[..|l| - 1] == log;
    OthersDoNotShow(l, more, h);
  }

  lemma ReplayOne(log: seq<Event>, e: Event)
    ensures Replay(log + [e]) == Apply(Replay(log), e)
  {
    assert (log + [e])[..|log|] == log;
  }

  /** A new handle has the bytes it was made with, and no handle had that name. */
  lemma MadeShows(log: seq<Event>, h: nat, data: seq<byte>)
    requires Fits(Replay(log), Made(h, data))
    ensures h !in Replay(log) && Replay(log + [Made(h, data)]) == Replay(log)[h := data]
  {
    ReplayOne(log, Made(h, data));
  }

  /** A write shows where it was made, byte by byte, and nowhere else. */
  lemma WriteShows(log: seq<Event>, h: nat, at: nat, buf: seq<byte>)
    requires Fits(Replay(log), Wrote(h, at, buf))
    ensures Written(Replay(log), Replay(log + [Wrote(h, at, buf)]), h, at, buf)
  {
    hide Replay;
    ReplayOne(log, Wrote(h, at, buf));
  }

  /** In `m'` the bytes of `h` from `at` on are those of `buf`; all others are as in `m`. */
  ghost predicate Written(m: map<nat, seq<byte>>, m': map<nat, seq<byte>>, h: nat, at: nat, buf: seq<byte>) {
    && m'.Keys == m.Keys && (forall g :: g in m && g != h ==> m'[g] == m[g])
    && h in m && |m'[h]| == |m[h]|
    && (forall k :: at <= k < at + |buf| && k < |m[h]| ==> m'[h][k] == buf[k - at])
    && forall k :: 0 <= k < |m[h]| && !(at <= k < at + |buf|) ==> m'[h][k] == m[h][k]
  }

  lemma FreedShows(log: seq<Event>, h: nat)
    requires Fits(Replay(log), Freed(h))
    ensures var m, m' := Replay(log), Replay(log + [Freed(h)]);
      m'.Keys == m.Keys - {h} && forall g :: g in m' ==> m'[g] == m[g]
  {
    ReplayOne(log, Freed(h));
  }

  /** An event that leaves byte `k` of handle `h` alone. */
  predicate Passes(e: Event, h: nat, k: nat) {
    e.h == h ==> !e.Freed? && (e.Wrote? ==> !(e.at <= k < e.at + |e.buf|))
  }

  /** A byte stays until a write covers it or its handle goes, whatever else is done through any handle. */
  lemma {:induction false} ByteLasts(log: seq<Event>, more: seq<Event>, h: nat, k: nat)
    requires h in Replay(log) && k < |Replay(log)[h]| && forall i :: 0 <= i < |more| ==> Passes(more[i], h, k)
    ensures var m, m' := Replay(log), Replay(log + more);
      h in m' && |m'[h]| == |m[h]| && m'[h][k] == m[h][k]
  {
    hide Replay, Apply;
    if more == [] {
      assert log + more == log;
    } else {
      var n := |more| - 1;
      ByteLasts(log, more[..n], h, k);
      assert log + more == log + more[..n] + [more[n]];
      ReplayOne(log + more[..n], more[n]);
      PassesOne(Replay(log + more[..n]), more[n], h, k);
    }
  }

  lemma PassesOne(m: map<nat, seq<byte>>, e: Event, h: nat, k: nat)
    requires h in m && k < |m[h]| && Passes(e, h, k)
    ensures var m' := Apply(m, e); h in m' && |m'[h]| == |m[h]| && m'[h][k] == m[h][k]
  {
  }

  /** Over every log: a byte is what the last write that covers it put there. */
  lemma LastWriteCounts(log: seq<Event>, h: nat, at: nat, buf: seq<byte>, more: seq<Event>, k: nat)
    requires Fits(Replay(log), Wrote(h, at, buf)) && at <= k < at + |buf|
    requires forall i :: 0 <= i < |more| ==> Passes(more[i], h, k)
    ensures var m := Replay(log + [Wrote(h, at, buf)] + more);
      h in m && k < |m[h]| && m[h][k] == buf[k - at]
  {
    hide Replay, Apply;
    WriteShows(log, h, at, buf);
    ByteLasts(log + [Wrote(h, at, buf)], more, h, k);
  }

  // -------------------------------------------------------------------------
  // Reference counts

  /** The handles that point to buffer `d`. */
  ghost function Sharers(handles: map<nat, nat>, d: nat): set<nat> {
    set h | h in handles && handles[h] == d
  }

  /** Buffers are those that handles point to, each with the number of its handles. */
  ghost predicate Counted(handles: map<nat, nat>, data: map<nat, seq<byte>>, ref: map<nat, int>) {
    && ref.Keys == data.Keys
    && (forall h :: h in handles ==> handles[h] in data)
    && (forall d :: d in data ==> ref[d] == |Sharers(handles, d)| > 0)
  }

  ghost function View(handles: map<nat, nat>, data: map<nat, seq<byte>>): map<nat, seq<byte>>
  {
    map h | h in handles && handles[h] in data :: data[handles[h]]
  }

  lemma SharersAdd(handles: map<nat, nat>, h: nat, d: nat, e: nat)
    requires h !in handles
    ensures Sharers(handles[h := d], e) == if e == d then Sharers(handles, e) + {h} else Sharers(handles, e)
    ensures h !in Sharers(handles, e)
  {
  }

  lemma SharersDrop(handles: map<nat, nat>, h: nat, e: nat)
    requires h in handles
    ensures Sharers(handles - {h}, e) == Sharers(handles, e) - {h}
    ensures h in Sharers(handles, e) <==> handles[h] == e
  {
  }

  lemma NoSharers(handles: map<nat, nat>, data: map<nat, seq<byte>>, ref: map<nat, int>, d: nat)
    requires Counted(handles, data, ref) && d !in data
    ensures Sharers(handles, d) == {}
  {
  }

  /** A handle with a buffer of its own. */
  lemma CountedNew(handles: map<nat, nat>, data: map<nat, seq<byte>>, ref: map<nat, int>, h: nat, d: nat, x: seq<byte>)
    requires Counted(handles, data, ref) && h !in handles && d !in data
    ensures Counted(handles[h := d], data[d := x], ref[d := 1])
    ensures View(handles[h := d], data[d := x]) == View(handles, data)[h := x]
  {
    hide Sharers;
    NoSharers(handles, data, ref, d);
    forall e | e in data || e == d
      ensures ref[d := 1][e] == |Sharers(handles[h := d], e)| > 0
    {
      SharersAdd(handles, h, d, e);
    }
  }

  /** A further handle to a buffer. */
  lemma CountedShared(handles: map<nat, nat>, data: map<nat, seq<byte>>, ref: map<nat, int>, h: nat, d: nat)
    requires Counted(handles, data, ref) && h !in handles && d in data
    ensures Counted(handles[h := d], data, ref[d := ref[d] + 1])
    ensures View(handles[h := d], data) == View(handles, data)[h := data[d]]
  {
    hide Sharers;
    forall e | e in data
      ensures ref[d := ref[d] + 1][e] == |Sharers(handles[h := d], e)| > 0
    {
      SharersAdd(handles, h, d, e);
    }
  }

  /** A handle goes; with the last one its buffer goes. */
  lemma CountedDrop(handles: map<nat, nat>, data: map<nat, seq<byte>>, ref: map<nat, int>, h: nat)
    requires Counted(handles, data, ref) && h in handles
    ensures var d := handles[h];
      && View(handles - {h}, data) == View(handles, data) - {h}
      && ref[d] >= 1
      && (ref[d] == 1 <==> forall k :: k in handles && handles[k] == d ==> k == h)
      && (ref[d] > 1 ==> Counted(handles - {h}, data, ref[d := ref[d] - 1]))
      && (ref[d] == 1 ==> Counted(handles - {h}, data - {d}, ref - {d}))
      && (ref[d] == 1 ==> View(handles - {h}, data - {d}) == View(handles, data) - {h})
  {
    hide Sharers;
    var d := handles[h];
    forall e | e in data
      ensures |Sharers(handles - {h}, e)| == if e == d then ref[d] - 1 else ref[e]
    {
      SharersDrop(handles, h, e);
    }
    OnlySharer(handles, h);
    if ref[d] == 1 {
      assert forall k :: k in handles - {h} ==> handles[k] != d;
    }
  }

  lemma OnlySharer(handles: map<nat, nat>, h: nat)
    requires h in handles
    ensures |Sharers(handles, handles[h])| == 1 <==> forall k :: k in handles && handles[k] == handles[h] ==> k == h
  {
    var s := Sharers(handles, handles[h]);
    assert h in s;
    if |s| == 1 {
      forall k | k in handles && handles[k] == handles[h]
        ensures k == h
      {
        assert k in s;
        assert |s - {h}| == 0;
        assert s - {h} == {};
      }
    }
    if forall k :: k in handles && handles[k] == handles[h] ==> k == h {
      assert s == {h};
    }
  }

  /** Writing into a buffer that has one handle. */
  lemma ViewWrite(handles: map<nat, nat>, data: map<nat, seq<byte>>, ref: map<nat, int>, h: nat, x: seq<byte>)
    requires Counted(handles, data, ref) && h in handles && ref[handles[h]] == 1
    ensures Counted(handles, data[handles[h] := x], ref)
    ensures View(handles, data[handles[h] := x]) == View(handles, data)[h := x]
  {
    CountedDrop(handles, data, ref, h);
  }

  // -------------------------------------------------------------------------
  // The blocks

  /** Sizes are passed as 32 bits and answered as signed 32 bits. */
  const SIZE_LIMIT: nat := 0x8000_0000

  class Blocks {
    /** The buffer `d` of each handle. */
    var handles: map<nat, nat>
    /** The bytes and the count `ref` of each buffer. */
    var data: map<nat, seq<byte>>
    var ref: map<nat, int>
    /** The calls so far. */
    ghost var log: seq<Event>

    ghost predicate Valid()
      reads this
    {
      && Counted(handles, data, ref)
      && (forall d :: d in data ==> |data[d]| < SIZE_LIMIT)
      && View(handles, data) == Replay(log)
    }

    constructor ()
      ensures Valid() && log == [] && handles == map[]
    {
      handles, data, ref, log := map[], map[], map[], [];
    }

    ghost method Record(e: Event)
      requires Fits(Replay(log), e)
      modifies this`log
      ensures log == old(log) + [e] && Replay(log) == Apply(old(Replay(log)), e)
    {
      log := log + [e];
      assert log[..|log| - 1] == old(log);
    }

    /** `__mmiblock_alloc`: `d` is what the allocator answers, `junk` what its memory happens to hold. */
    method BufferAlloc(d: nat, junk: seq<byte>)
      requires d !in data && ref.Keys == data.Keys
      modifies this`data, this`ref
      ensures data == old(data)[d := junk] && ref == old(ref)[d := 1]
    {
      data, ref := data[d := junk], ref[d := 1];
    }

    /** `mmblock_alloc` for a handle that is not in use. */
    method Alloc(h: nat, junk: seq<byte>, given: Option<nat>) returns (ok: bool)
      requires Valid() && h !in handles && |junk| < SIZE_LIMIT && (given.Some? ==> given.value !in data)
      modifies this
      ensures Valid() && ok == given.Some?
      ensures log == if ok then old(log) + [Made(h, junk)] else old(log)
      ensures ok ==> handles == old(handles)[h := given.value] && ref == old(ref)[given.value := 1]
      ensures !ok ==> handles == old(handles) && data == old(data)
    {
      hide Counted, View, Replay;
      ok := given.Some?;
      if ok {
        CountedNew(handles, data, ref, h, given.value, junk);
        CountedKeys(handles, data, ref);
        ViewKeys(handles, data, ref);
        BufferAlloc(given.value, junk);
        handles := handles[h := given.value];
        Record(Made(h, junk));
      }
    }

    /** `mmblock_zalloc`: the same with zeros; the caller is not told when there was no memory. */
    method Zalloc(h: nat, n: nat, given: Option<nat>) returns (ok: bool)
      requires Valid() && h !in handles && n < SIZE_LIMIT && (given.Some? ==> given.value !in data)
      modifies this
      ensures Valid() && ok
      ensures log == if given.Some? then old(log) + [Made(h, seq(n, _ => 0))] else old(log)
      ensures h in handles <==> given.Some?
    {
      var done := Alloc(h, seq(n, _ => 0), given);
      ok := true;
    }

    /** `mmblock_copy` to a handle that is not in use. */
    method CopyBlock(dest: nat, src: nat)
      requires Valid() && src in handles && dest !in handles
      modifies this
      ensures Valid() && log == old(log) + [Copied(dest, src)] && data == old(data)
      ensures handles == old(handles)[dest := old(handles[src])]
    {
      hide Counted, View, Replay;
      CountedKeys(handles, data, ref);
      ViewKeys(handles, data, ref);
      var d := handles[src];
      CountedShared(handles, data, ref, dest, d);
      ref := ref[d := ref[d] + 1];
      handles := handles[dest := d];
      Record(Copied(dest, src));
    }

    /** `mmblock_free`: the buffer goes exactly when no other handle has it. */
    method Free(h: nat)
      requires Valid() && h in handles
      modifies this
      ensures Valid() && log == old(log) + [Freed(h)] && handles == old(handles) - {h}
      ensures old(handles[h]) !in data <==>
        forall k :: k in old(handles) && old(handles)[k] == old(handles)[h] ==> k == h
      ensures forall d :: d in old(data) && d != old(handles[h]) ==> d in data && data[d] == old(data)[d]
    {
      hide Counted, View, Replay;
      CountedKeys(handles, data, ref);
      ViewKeys(handles, data, ref);
      CountedDrop(handles, data, ref, h);
      Release(h);
      handles := handles - {h};
      Record(Freed(h));
    }

    /** One handle less on the buffer of `h`. */
    method Release(h: nat)
      requires ref.Keys == data.Keys && h in handles && handles[h] in data && ref[handles[h]] >= 1
      modifies this`data, this`ref
      ensures var d := handles[h];
        if old(ref)[d] == 1 then data == old(data) - {d} && ref == old(ref) - {d}
        else data == old(data) && ref == old(ref)[d := old(ref)[d] - 1]
    {
      var d := handles[h];
      ref := ref[d := ref[d] - 1];
      if ref[d] == 0 {
        data, ref := data - {d}, ref - {d};
      }
    }

    /** `mmblock_read` */
    method Read(h: nat, offset: nat, n: nat) returns (rn: int, buf: seq<byte>)
      requires Valid() && h in handles
      ensures h in Replay(log)
      ensures var x := Replay(log)[h];
        if offset > |x| then rn == -EFAULT && buf == []
        else rn == Min(|x| - offset, n) && buf == x[offset..offset + rn]
    {
      hide Counted, View, Replay;
      CountedKeys(handles, data, ref);
      ViewKeys(handles, data, ref);
      var x := data[handles[h]];
      if offset > |x| {
        return -EFAULT, [];
      }
      rn := Min(|x| - offset, n);
      buf := if rn == 0 then [] else x[offset..offset + rn];
    }

    /**
     `__mmiblock_detach`: a buffer of its own for `h`, which already holds all but the bytes
     `offset .. offset + n` of the shared one.
     */
    method Detach(h: nat, offset: nat, n: nat, given: nat, junk: seq<byte>)
      requires Counted(handles, data, ref) && h in handles && handles[h] in data && ref[handles[h]] > 1
      requires given !in data
      requires offset + n <= |data[handles[h]]| == |junk|
      modifies this`handles, this`data, this`ref
      ensures Counted(handles, data, ref) && h in handles && handles[h] == given && given in data && given in ref
      ensures ref[given] == 1
      ensures data.Keys == old(data.Keys) + {given} && forall d :: d in old(data) ==> data[d] == old(data)[d]
      ensures View(handles, data) == old(View(handles, data))[h := data[given]]
      ensures data[given] == Copy.Patch(old(data[handles[h]]), offset, junk[offset..offset + n])
    {
      hide Counted, View, Copy.Patch;
      CountedKeys(handles, data, ref);
      ghost var hs, was, rs := handles, data, ref;
      ghost var d := handles[h];
      CountedDrop(hs, was, rs, h);
      BufferAlloc(given, junk);
      data := data[given := Spliced(data[handles[h]], junk, offset, n)];
      CountedNew(hs - {h}, was, rs[d := rs[d] - 1], h, given, data[given]);
      var x := handles[h];
      handles := handles[h := given];
      ref := ref[x := ref[x] - 1];
      assert handles == (hs - {h})[h := given];
      assert data == was[given := data[given]];
      assert ref == rs[d := rs[d] - 1][given := 1];
      DropThenAdd(View(hs, was), h, data[given]);
    }

    /** `mmblock_write`; a shared buffer is written within its bounds only. */
    method Write(h: nat, buf: seq<byte>, offset: nat, given: Option<nat>, junk: seq<byte>) returns (wn: int)
      requires Valid() && h in handles && (given.Some? ==> given.value !in data)
      requires |junk| == |data[handles[h]]|
      requires offset < |junk| && buf != [] && ref[handles[h]] != 1 ==> offset + |buf| <= |junk|
      modifies this
      ensures Valid() && h in old(Replay(log))
      ensures var x := old(Replay(log))[h];
        var n := Min(|x| - offset, |buf|);
        if offset > |x| then wn == -EFAULT && log == old(log)
        else if n > 0 && given.None? && old(ref[handles[h]]) > 1 then wn == -ENOMEM && log == old(log)
        else wn == n && log == old(log) + if n == 0 then [] else [Wrote(h, offset, buf[..n])]
      ensures wn > 0 ==> wn <= |buf| && Written(old(Replay(log)), Replay(log), h, offset, buf[..wn])
    {
      hide Counted, View, Replay, Copy.Patch;
      CountedKeys(handles, data, ref);
      ViewKeys(handles, data, ref);
      var size := |data[handles[h]]|;
      if offset > size {
        return -EFAULT;
      }
      wn := Min(size - offset, |buf|);
      if wn == 0 {
        assert log + [] == log;
        return;
      }
      ghost var x := data[handles[h]];
      if ref[handles[h]] != 1 {
        if given.None? {
          return -ENOMEM;
        }
        Detach(h, offset, |buf|, given.value, junk);
        Overwritten(x, offset, junk[offset..offset + |buf|], buf);
        assert buf[..wn] == buf;
      }
      Store(h, offset, buf[..wn], x);
      WriteShows(old(log), h, offset, buf[..wn]);
    }

    /** The copy into the buffer of `h`, which is its own now. */
    method Store(h: nat, offset: nat, bytes: seq<byte>, ghost x: seq<byte>)
      requires Counted(handles, data, ref) && h in handles && handles[h] in data && handles[h] in ref
      requires ref[handles[h]] == 1
      requires (forall d :: d in data ==> |data[d]| < SIZE_LIMIT)
      requires h in Replay(log) && Replay(log)[h] == x && offset + |bytes| <= |x| == |data[handles[h]]|
      requires View(handles, data) == Replay(log)[h := data[handles[h]]]
      requires Copy.Patch(data[handles[h]], offset, bytes) == Copy.Patch(x, offset, bytes)
      modifies this`data, this`log
      ensures Valid() && log == old(log) + [Wrote(h, offset, bytes)]
    {
      hide Counted, View, Replay, Copy.Patch;
      var d := handles[h];
      ViewWrite(handles, data, ref, h, Copy.Patch(x, offset, bytes));
      data := data[d := Copy.Patch(data[d], offset, bytes)];
      Record(Wrote(h, offset, bytes));
    }
  }

  /** What was written is read back, byte by byte, and what the copies of the block read stays as it was. */
  method WriteThenRead(b: Blocks, h: nat, buf: seq<byte>, offset: nat, given: Option<nat>, junk: seq<byte>)
    returns (wn: int, rn: int, back: seq<byte>)
    requires b.Valid() && h in b.handles && (given.Some? ==> given.value !in b.data)
    requires |junk| == |b.data[b.handles[h]]| && offset + |buf| <= |junk|
    modifies b
    ensures b.Valid() && b.handles.Keys == old(b.handles.Keys)
    ensures wn == |buf| || (wn == -ENOMEM && given.None?)
    ensures wn == |buf| ==> rn == |buf| && |back| == |buf| && forall k :: 0 <= k < |buf| ==> back[k] == buf[k]
    ensures forall g :: g in old(Replay(b.log)) && g != h ==>
      g in Replay(b.log) && Replay(b.log)[g] == old(Replay(b.log))[g]
  {
    hide Counted, View, Replay;
    CountedKeys(b.handles, b.data, b.ref);
    ViewKeys(b.handles, b.data, b.ref);
    assert b.log + [] == b.log;
    wn := b.Write(h, buf, offset, given, junk);
    ViewKeys(b.handles, b.data, b.ref);
    rn, back := b.Read(h, offset, |buf|);
  }

  /** Without memory the answer is yes, and there is no block behind the handle. */
  method ZallocWithoutMemory() returns (b: Blocks, ok: bool)
    ensures fresh(b) && b.Valid() && ok && 1 !in b.handles
  {
    b := new Blocks();
    ok := b.Zalloc(1, 4, None);
  }

  lemma CountedKeys(handles: map<nat, nat>, data: map<nat, seq<byte>>, ref: map<nat, int>)
    requires Counted(handles, data, ref)
    ensures ref.Keys == data.Keys && forall h :: h in handles ==> handles[h] in data && ref[handles[h]] >= 1
  {
    hide Sharers;
  }

  lemma ViewKeys(handles: map<nat, nat>, data: map<nat, seq<byte>>, ref: map<nat, int>)
    requires Counted(handles, data, ref)
    ensures View(handles, data).Keys == handles.Keys
    ensures forall h :: h in handles ==> handles[h] in data && View(handles, data)[h] == data[handles[h]]
  {
    hide Sharers;
  }

  lemma DropThenAdd(m: map<nat, seq<byte>>, h: nat, x: seq<byte>)
    ensures (m - {h})[h := x] == m[h := x]
  {
  }

  /** The new buffer of a detach: the old bytes outside `offset .. offset + n`. */
  function Spliced(x: seq<byte>, junk: seq<byte>, offset: nat, n: nat): (r: seq<byte>)
    requires offset + n <= |x| == |junk|
    ensures r == Copy.Patch(x, offset, junk[offset..offset + n])
  {
    x[..offset] + junk[offset..offset + n] + x[offset + n..]
  }

  /** What is written last counts. */
  lemma Overwritten(x: seq<byte>, offset: nat, junk: seq<byte>, bytes: seq<byte>)
    requires offset + |junk| <= |x| && |bytes| == |junk|
    ensures Copy.Patch(Copy.Patch(x, offset, junk), offset, bytes) == Copy.Patch(x, offset, bytes)
  {
    var y := Copy.Patch(x, offset, junk);
    assert y[..offset] == x[..offset];
    assert y[offset + |bytes|..] == x[offset + |bytes|..];
  }
}
