/**
 The chunk list behind the memory pool (mpool/mpool.c), as a value.

 A pool is tiled by chunks: a header of one 32-bit word followed by `size` payload
 words.  Pool and request sizes are multiples of 4 bytes, so words are the unit here.
 The pool coalesces free neighbours lazily.  `Norm` is the list an allocator
 that coalesces eagerly would hold; `FirstFit`, `EagerAlloc` and `Release` are
 that allocator.  Everything here is about lists; Mpool.dfy ties the headers in
 memory to them.
 */
module Chunks {
  import opened Options

  const HEADER: nat := 1

  datatype Chunk = Chunk(size: nat, used: bool)

  /** Number of words that the chunks occupy, headers included. */
  function Span(cs: seq<Chunk>): nat {
    if cs == [] then 0 else HEADER + cs[0].size + Span(cs[1..])
  }

  /** Words available in free chunks, which `mpool->free` is meant to count. */
  function FreeWords(cs: seq<Chunk>): nat {
    if cs == [] then 0 else (if cs[0].used then 0 else cs[0].size) + FreeWords(cs[1..])
  }

  /** The payloads of the used chunks, as (address, size), for a list laid out from `at`. */
  ghost function Live(cs: seq<Chunk>, at: nat): set<(nat, nat)> {
    if cs == [] then {}
    else
      (if cs[0].used then {(at + HEADER, cs[0].size)} else {}) + Live(cs[1..], at + HEADER + cs[0].size)
  }

  /** Word `b` belongs to the payload of a used chunk. */
  ghost predicate Owned(cs: seq<Chunk>, at: nat, b: nat) {
    exists blk :: blk in Live(cs, at) && blk.0 <= b < blk.0 + blk.1
  }

  // -------------------------------------------------------------------------
  // The eagerly coalescing allocator

  /** Put one chunk in front of a coalesced list, merging two free neighbours. */
  function Push(c: Chunk, cs: seq<Chunk>): seq<Chunk> {
    if !c.used && cs != [] && !cs[0].used then
      [Chunk(c.size + HEADER + cs[0].size, false)] + cs[1..]
    else [c] + cs
  }

  /** Merge every maximal run of adjacent free chunks, reclaiming the inner headers. */
  function Norm(cs: seq<Chunk>): seq<Chunk> {
    if cs == [] then [] else Push(cs[0], Norm(cs[1..]))
  }

  /** Payload address of the lowest free chunk that can hold `size` words. */
  function FirstFit(cs: seq<Chunk>, size: nat, at: nat): Option<nat> {
    if cs == [] then None
    else if !cs[0].used && size <= cs[0].size then Some(at + HEADER)
    else FirstFit(cs[1..], size, at + HEADER + cs[0].size)
  }

  /** What becomes of a free chunk from which `size` words are taken. */
  function Carve(c: Chunk, size: nat): seq<Chunk>
    requires size <= c.size
  {
    [Chunk(size, true)] + if c.size == size then [] else [Chunk(c.size - size - HEADER, false)]
  }

  /** The list after first fit has served a request of `size` words. */
  function EagerAlloc(cs: seq<Chunk>, size: nat): seq<Chunk> {
    if cs == [] then []
    else if !cs[0].used && size <= cs[0].size then Carve(cs[0], size) + cs[1..]
    else [cs[0]] + EagerAlloc(cs[1..], size)
  }

  /** The list after the used chunk whose payload starts at `block` is marked free. */
  function Release(cs: seq<Chunk>, at: nat, block: nat): seq<Chunk> {
    if cs == [] then []
    else if cs[0].used && at + HEADER == block then [Chunk(cs[0].size, false)] + cs[1..]
    else [cs[0]] + Release(cs[1..], at + HEADER + cs[0].size, block)
  }

  // -------------------------------------------------------------------------
  // Concatenation

  lemma {:induction false} SpanConcat(a: seq<Chunk>, b: seq<Chunk>)
    ensures Span(a + b) == Span(a) + Span(b)
    ensures FreeWords(a + b) == FreeWords(a) + FreeWords(b)
  {
    if a == [] {
      assert a + b == b;
    } else {
      SpanConcat(a[1..], b);
      assert (a + b)[1..] == a[1..] + b;
    }
  }

  lemma {:induction false} LiveConcat(a: seq<Chunk>, b: seq<Chunk>, at: nat)
    ensures Live(a + b, at) == Live(a, at) + Live(b, at + Span(a))
  {
    if a == [] {
      assert a + b == b;
    } else {
      LiveConcat(a[1..], b, at + HEADER + a[0].size);
      assert (a + b)[1..] == a[1..] + b;
    }
  }

  /** A block lies inside the span of its list. */
  lemma {:induction false} LiveInSpan(cs: seq<Chunk>, at: nat, blk: (nat, nat))
    requires blk in Live(cs, at)
    ensures at + HEADER <= blk.0 && blk.0 + blk.1 <= at + Span(cs)
  {
    if !(cs[0].used && blk == (at + HEADER, cs[0].size)) {
      LiveInSpan(cs[1..], at + HEADER + cs[0].size, blk);
    }
  }

  /** Live blocks never overlap, not even in their headers, and lie inside the arena. */
  lemma {:induction false} LiveDisjoint(cs: seq<Chunk>, at: nat, x: (nat, nat), y: (nat, nat))
    requires x in Live(cs, at) && y in Live(cs, at) && x != y
    ensures x.0 + x.1 + HEADER <= y.0 || y.0 + y.1 + HEADER <= x.0
  {
    var rest, next := cs[1..], at + HEADER + cs[0].size;
    if x !in Live(rest, next) {
      LiveInSpan(rest, next, y);
    } else if y !in Live(rest, next) {
      LiveInSpan(rest, next, x);
    } else {
      LiveDisjoint(rest, next, x, y);
    }
  }

  // -------------------------------------------------------------------------
  // Coalescing

  /** Coalescing sees a tail only through its coalesced form. */
  lemma {:induction false} NormTail(a: seq<Chunk>, b: seq<Chunk>, b': seq<Chunk>)
    requires Norm(b) == Norm(b')
    ensures Norm(a + b) == Norm(a + b')
  {
    if a == [] {
      assert a + b == b && a + b' == b';
    } else {
      NormTail(a[1..], b, b');
      assert (a + b)[1..] == a[1..] + b && (a + b')[1..] == a[1..] + b';
    }
  }

  lemma NormCons(c: Chunk, cs: seq<Chunk>)
    ensures Norm([c] + cs) == Push(c, Norm(cs))
  {
    assert ([c] + cs)[1..] == cs;
  }

  /** Merging two adjacent free chunks leaves the coalesced list as it was. */
  lemma NormMerge(a: seq<Chunk>, x: Chunk, y: Chunk, b: seq<Chunk>)
    requires !x.used && !y.used
    ensures Norm(a + [x, y] + b) == Norm(a + [Chunk(x.size + HEADER + y.size, false)] + b)
  {
    hide Norm;
    var xy := Chunk(x.size + HEADER + y.size, false);
    assert [x, y] + b == [x] + ([y] + b);
    NormCons(x, [y] + b);
    NormCons(y, b);
    NormCons(xy, b);
    NormTail(a, [x, y] + b, [xy] + b);
    assert a + [x, y] + b == a + ([x, y] + b) && a + [xy] + b == a + ([xy] + b);
  }

  /** A list that is empty or ends in a used chunk is coalesced on its own. */
  predicate Closed(a: seq<Chunk>) {
    a == [] || a[|a| - 1].used
  }

  lemma PushConcat(c: Chunk, a: seq<Chunk>, b: seq<Chunk>)
    requires a != []
    ensures Push(c, a + b) == Push(c, a) + b
  {
    assert (a + b)[0] == a[0];
    assert (a + b)[1..] == a[1..] + b;
  }

  lemma PushLast(c: Chunk, a: seq<Chunk>)
    requires a != [] && Closed(a)
    ensures Push(c, a) != [] && Closed(Push(c, a))
  {
  }

  lemma {:induction false} NormClosed(a: seq<Chunk>, b: seq<Chunk>)
    requires Closed(a)
    ensures Norm(a + b) == Norm(a) + Norm(b)
    ensures a != [] ==> Norm(a) != [] && Closed(Norm(a))
  {
    if a == [] {
      assert a + b == b;
    } else {
      assert (a + b)[0] == a[0] && (a + b)[1..] == a[1..] + b;
      if |a| == 1 {
        assert a[1..] == [] && a[1..] + b == b;
      } else {
        var n := Norm(a[1..]);
        assert Norm(a[1..] + b) == n + Norm(b) && n != [] && Closed(n) by {
          NormClosed(a[1..], b);
        }
        PushConcat(a[0], n, Norm(b));
        PushLast(a[0], n);
      }
    }
  }

  lemma {:induction false} NormSpan(cs: seq<Chunk>)
    ensures Span(Norm(cs)) == Span(cs)
  {
    if cs != [] {
      NormSpan(cs[1..]);
      PushSpan(cs[0], Norm(cs[1..]));
    }
  }

  lemma PushSpan(c: Chunk, cs: seq<Chunk>)
    ensures Span(Push(c, cs)) == HEADER + c.size + Span(cs)
  {
    var m := Chunk(c.size + HEADER + (if cs == [] then 0 else cs[0].size), false);
    assert ([c] + cs)[1..] == cs;
    assert cs != [] ==> ([m] + cs[1..])[1..] == cs[1..];
  }

  /** Coalescing changes no live block. */
  lemma {:induction false} NormLive(cs: seq<Chunk>, at: nat)
    ensures Live(Norm(cs), at) == Live(cs, at)
  {
    if cs != [] {
      var next := at + HEADER + cs[0].size;
      NormLive(cs[1..], next);
      var n := Norm(cs[1..]);
      assert ([cs[0]] + n)[1..] == n;
      if !cs[0].used && n != [] && !n[0].used {
        assert Norm(cs)[1..] == n[1..];
      }
    }
  }

  /** Normal lists are the fixed points of coalescing: no two free chunks touch. */
  lemma {:induction false} NormNoFreePair(cs: seq<Chunk>)
    ensures forall i :: 0 <= i < |Norm(cs)| - 1 ==> Norm(cs)[i].used || Norm(cs)[i + 1].used
  {
    if cs != [] {
      NormNoFreePair(cs[1..]);
      var n := Norm(cs[1..]);
      var r := Norm(cs);
      if !cs[0].used && n != [] && !n[0].used {
        assert forall i :: 1 <= i < |r| ==> r[i] == n[i];
      } else {
        assert forall i :: 1 <= i < |r| ==> r[i] == n[i - 1];
      }
    }
  }

  // -------------------------------------------------------------------------
  // First fit

  /** Nothing in `a` can hold the request, so the search goes on behind it. */
  lemma {:induction false} FirstFitSkips(a: seq<Chunk>, b: seq<Chunk>, size: nat, at: nat)
    requires forall i :: 0 <= i < |a| ==> a[i].used || a[i].size < size
    ensures FirstFit(a + b, size, at) == FirstFit(b, size, at + Span(a))
    ensures EagerAlloc(a + b, size) == a + EagerAlloc(b, size)
  {
    if a == [] {
      assert a + b == b;
    } else {
      assert (a + b)[0] == a[0] && (a + b)[1..] == a[1..] + b;
      assert [a[0]] + (a[1..] + EagerAlloc(b, size)) == a + EagerAlloc(b, size);
      FirstFitSkips(a[1..], b, size, at + HEADER + a[0].size);
    }
  }

  /** Chunk `i` is the first that can hold the request, and its payload starts at `v`. */
  ghost predicate ServedAt(cs: seq<Chunk>, size: nat, at: nat, i: nat, v: nat) {
    && i < |cs| && !cs[i].used && size <= cs[i].size && v == at + Span(cs[..i]) + HEADER
    && forall j :: 0 <= j < i ==> cs[j].used || cs[j].size < size
  }

  /** First fit reports a chunk exactly when some chunk can serve the request, and the lowest one. */
  lemma {:induction false} FirstFitIsLowest(cs: seq<Chunk>, size: nat, at: nat)
    ensures FirstFit(cs, size, at).None? <==>
            forall i :: 0 <= i < |cs| ==> cs[i].used || cs[i].size < size
    ensures FirstFit(cs, size, at).Some? ==> exists i: nat :: ServedAt(cs, size, at, i, FirstFit(cs, size, at).value)
  {
    hide ServedAt;
    if cs != [] {
      var rest, next := cs[1..], at + HEADER + cs[0].size;
      FirstFitIsLowest(rest, size, next);
      assert forall j :: 1 <= j < |cs| ==> cs[j] == rest[j - 1];
      if !cs[0].used && size <= cs[0].size {
        ServedFirst(cs, size, at);
      } else if FirstFit(rest, size, next).Some? {
        var i: nat :| ServedAt(rest, size, next, i, FirstFit(rest, size, next).value);
        ServedLater(cs, size, at, i, FirstFit(rest, size, next).value);
      }
    }
  }

  lemma ServedFirst(cs: seq<Chunk>, size: nat, at: nat)
    requires cs != [] && !cs[0].used && size <= cs[0].size
    ensures ServedAt(cs, size, at, 0, at + HEADER)
  {
    assert Span(cs[..0]) == 0;
  }

  lemma ServedLater(cs: seq<Chunk>, size: nat, at: nat, i: nat, v: nat)
    requires cs != [] && (cs[0].used || cs[0].size < size) && ServedAt(cs[1..], size, at + HEADER + cs[0].size, i, v)
    ensures ServedAt(cs, size, at, i + 1, v)
  {
    var rest := cs[1..];
    assert forall j :: 1 <= j < |cs| ==> cs[j] == rest[j - 1];
    assert cs[..i + 1] == [cs[0]] + rest[..i];
    SpanCons(cs[0], rest[..i]);
  }

  /** A served request adds exactly one block, at the address reported, and moves no other. */
  lemma {:induction false} EagerAllocLive(cs: seq<Chunk>, size: nat, at: nat)
    ensures var r := FirstFit(cs, size, at);
      && Span(EagerAlloc(cs, size)) == Span(cs)
      && Live(EagerAlloc(cs, size), at) == Live(cs, at) + (if r.Some? then {(r.value, size)} else {})
      && (r.Some? ==> forall blk :: blk in Live(cs, at) ==>
         blk.0 + blk.1 + HEADER <= r.value || r.value + size + HEADER <= blk.0)
  {
    if cs != [] {
      var rest, next := cs[1..], at + HEADER + cs[0].size;
      if !cs[0].used && size <= cs[0].size {
        CarveLive(cs[0], rest, size, at);
      } else {
        EagerAllocLive(rest, size, next);
        PassedLive(cs, size, at);
      }
    }
  }

  /** The chunk that serves the request. */
  lemma CarveLive(c: Chunk, rest: seq<Chunk>, size: nat, at: nat)
    requires !c.used && size <= c.size
    ensures Span(Carve(c, size) + rest) == HEADER + c.size + Span(rest)
    ensures Live(Carve(c, size) + rest, at) == Live(rest, at + HEADER + c.size) + {(at + HEADER, size)}
    ensures forall blk :: blk in Live(rest, at + HEADER + c.size) ==> at + HEADER + size + HEADER <= blk.0
  {
    hide Span, Live, Carve;
    CarveIs(c, size, at);
    SpanConcat(Carve(c, size), rest);
    LiveConcat(Carve(c, size), rest, at);
    forall blk | blk in Live(rest, at + HEADER + c.size)
      ensures at + HEADER + size + HEADER <= blk.0
    {
      LiveInSpan(rest, at + HEADER + c.size, blk);
    }
  }

  lemma CarveIs(c: Chunk, size: nat, at: nat)
    requires !c.used && size <= c.size
    ensures Span(Carve(c, size)) == HEADER + c.size && Live(Carve(c, size), at) == {(at + HEADER, size)}
  {
    var h := Chunk(size, true);
    if c.size == size {
      assert Carve(c, size) == [h] + [];
      SpanCons(h, []);
      LiveCons(h, [], at);
    } else {
      var t := Chunk(c.size - size - HEADER, false);
      assert Carve(c, size) == [h] + ([t] + []);
      SpanCons(h, [t] + []);
      SpanCons(t, []);
      LiveCons(h, [t] + [], at);
      LiveCons(t, [], at + HEADER + size);
    }
  }

  /** A chunk that the search passes. */
  lemma PassedLive(cs: seq<Chunk>, size: nat, at: nat)
    requires cs != [] && (cs[0].used || cs[0].size < size)
    requires var rest, next := cs[1..], at + HEADER + cs[0].size;
      var r := FirstFit(rest, size, next);
      && Span(EagerAlloc(rest, size)) == Span(rest)
      && Live(EagerAlloc(rest, size), next) == Live(rest, next) + (if r.Some? then {(r.value, size)} else {})
      && (r.Some? ==> forall blk :: blk in Live(rest, next) ==>
         blk.0 + blk.1 + HEADER <= r.value || r.value + size + HEADER <= blk.0)
    ensures var r := FirstFit(cs, size, at);
      && Span(EagerAlloc(cs, size)) == Span(cs)
      && Live(EagerAlloc(cs, size), at) == Live(cs, at) + (if r.Some? then {(r.value, size)} else {})
      && (r.Some? ==> forall blk :: blk in Live(cs, at) ==>
         blk.0 + blk.1 + HEADER <= r.value || r.value + size + HEADER <= blk.0)
  {
    hide Span, Live, FirstFit, EagerAlloc;
    var c, rest, next := cs[0], cs[1..], at + HEADER + cs[0].size;
    AllocCons(c, rest, size, at);
    Uncons(cs);
    SpanCons(c, rest);
    SpanCons(c, EagerAlloc(rest, size));
    LiveCons(c, rest, at);
    LiveCons(c, EagerAlloc(rest, size), at);
    if FirstFit(rest, size, next).Some? {
      FitBehind(rest, size, next);
    }
  }

  lemma AllocCons(c: Chunk, rest: seq<Chunk>, size: nat, at: nat)
    requires c.used || c.size < size
    ensures EagerAlloc([c] + rest, size) == [c] + EagerAlloc(rest, size)
    ensures FirstFit([c] + rest, size, at) == FirstFit(rest, size, at + HEADER + c.size)
  {
    assert ([c] + rest)[1..] == rest;
  }

  lemma LiveCons(c: Chunk, cs: seq<Chunk>, at: nat)
    ensures Live([c] + cs, at) == (if c.used then {(at + HEADER, c.size)} else {}) + Live(cs, at + HEADER + c.size)
  {
    assert ([c] + cs)[1..] == cs;
  }

  lemma FitBehind(cs: seq<Chunk>, size: nat, at: nat)
    requires FirstFit(cs, size, at).Some?
    ensures FirstFit(cs, size, at).value >= at + HEADER
  {
    hide FirstFit, Span;
    FirstFitIsLowest(cs, size, at);
    var i: nat :| ServedAt(cs, size, at, i, FirstFit(cs, size, at).value);
  }

  // -------------------------------------------------------------------------
  // Release

  lemma Uncons(cs: seq<Chunk>)
    requires cs != []
    ensures cs == [cs[0]] + cs[1..]
  {
  }

  /** Release in a list that starts with `c`. */
  lemma ReleaseCons(c: Chunk, cs: seq<Chunk>, at: nat, block: nat)
    ensures Release([c] + cs, at, block) ==
      if c.used && at + HEADER == block then [Chunk(c.size, false)] + cs
      else [c] + Release(cs, at + HEADER + c.size, block)
  {
    assert ([c] + cs)[1..] == cs;
  }

  lemma SpanCons(c: Chunk, cs: seq<Chunk>)
    ensures Span([c] + cs) == HEADER + c.size + Span(cs)
  {
    assert ([c] + cs)[1..] == cs;
  }

  lemma {:induction false} ReleaseConcat(a: seq<Chunk>, b: seq<Chunk>, at: nat, block: nat)
    requires block >= at + Span(a) + HEADER
    ensures Release(a + b, at, block) == a + Release(b, at + Span(a), block)
  {
    hide Release, Span;
    if a == [] {
      assert a + b == b;
      NoSpan();
      assert a + Release(b, at, block) == Release(b, at, block);
    } else {
      var c, t, next := a[0], a[1..], at + HEADER + a[0].size;
      Uncons(a);
      SpanCons(c, t);
      ReleaseConcat(t, b, next, block);
      Assoc([c], t, b);
      ReleaseCons(c, t + b, at, block);
      Assoc([c], t, Release(b, at + Span(a), block));
    }
  }

  lemma NoSpan()
    ensures Span([]) == 0
  {
  }

  lemma Assoc(a: seq<Chunk>, b: seq<Chunk>, c: seq<Chunk>)
    ensures a + b + c == a + (b + c)
  {
  }

  /** Releasing removes exactly the block named. */
  lemma {:induction false} ReleaseLive(cs: seq<Chunk>, at: nat, block: nat, size: nat)
    requires (block, size) in Live(cs, at)
    ensures Live(Release(cs, at, block), at) == Live(cs, at) - {(block, size)}
    ensures Span(Release(cs, at, block)) == Span(cs)
  {
    var rest, next := cs[1..], at + HEADER + cs[0].size;
    if cs[0].used && at + HEADER == block {
      if (block, size) in Live(rest, next) {
        LiveInSpan(rest, next, (block, size));
      }
      forall blk | blk in Live(rest, next) ensures blk.0 != block {
        LiveInSpan(rest, next, blk);
      }
      assert Release(cs, at, block)[1..] == rest;
    } else {
      ReleaseLive(rest, next, block, size);
      assert Release(cs, at, block)[1..] == Release(rest, next, block);
      if cs[0].used {
        assert (at + HEADER, cs[0].size) != (block, size);
      }
    }
  }

  /** Merging a free chunk into the free head of a list does not show in the coalesced list. */
  lemma NormMergeHead(c: Chunk, h: Chunk, t: seq<Chunk>)
    requires !c.used && !h.used
    ensures Norm([Chunk(c.size + HEADER + h.size, false)] + t) == Norm([c] + ([h] + t))
  {
    hide Norm;
    var m := Chunk(c.size + HEADER + h.size, false);
    NormMerge([], c, h, t);
    assert [] + [c, h] + t == [c] + ([h] + t) && [] + [m] + t == [m] + t;
  }

  lemma PushFree(c: Chunk, n: seq<Chunk>)
    requires !c.used && n != [] && !n[0].used
    ensures Push(c, n) == [Chunk(c.size + HEADER + n[0].size, false)] + n[1..]
  {
  }

  /** Release behind a free chunk that coalescing has merged into its successor. */
  lemma ReleaseMerged(c: Chunk, n: seq<Chunk>, at: nat, block: nat)
    requires !c.used && n != [] && !n[0].used
    ensures Norm(Release(Push(c, n), at, block)) == Norm([c] + Release(n, at + HEADER + c.size, block))
  {
    hide Norm, Release, Push;
    var m := Chunk(c.size + HEADER + n[0].size, false);
    var t := Release(n[1..], at + HEADER + m.size, block);
    PushFree(c, n);
    ReleaseCons(m, n[1..], at, block);
    Uncons(n);
    ReleaseCons(n[0], n[1..], at + HEADER + c.size, block);
    NormMergeHead(c, n[0], t);
  }

  /** Whether free neighbours were merged before a release does not show after it. */
  lemma {:induction false} NormRelease(cs: seq<Chunk>, at: nat, block: nat)
    ensures Norm(Release(Norm(cs), at, block)) == Norm(Release(cs, at, block))
  {
    if cs != [] {
      var c, rest, next := cs[0], cs[1..], at + HEADER + cs[0].size;
      var n := Norm(rest);
      if c.used && at + HEADER == block {
        var f := Chunk(c.size, false);
        NormIdempotent(rest);
        assert ([c] + n)[1..] == n;
        NormTail([f], n, rest);
      } else {
        assert Norm(Release(n, next, block)) == Norm(Release(rest, next, block)) by {
          NormRelease(rest, next, block);
        }
        NormTail([c], Release(n, next, block), Release(rest, next, block));
        if !c.used && n != [] && !n[0].used {
          ReleaseMerged(c, n, at, block);
        } else {
          assert ([c] + n)[1..] == n;
        }
      }
    }
  }

  lemma {:induction false} NormIdempotent(cs: seq<Chunk>)
    ensures Norm(Norm(cs)) == Norm(cs)
  {
    if cs != [] {
      NormIdempotent(cs[1..]);
      NormAgain(cs[0], cs[1..], Norm(cs[1..]));
      Uncons(cs);
    }
  }

  lemma NormAgain(c: Chunk, rest: seq<Chunk>, n: seq<Chunk>)
    requires n == Norm(rest) == Norm(n)
    ensures Norm(Norm([c] + rest)) == Norm([c] + rest)
  {
    hide Norm, Push;
    NormCons(c, rest);
    NormCons(c, n);
    if !c.used && n != [] && !n[0].used {
      PushFree(c, n);
      NormMergeHead(c, n[0], n[1..]);
      Uncons(n);
    } else {
      PushUsed(c, n);
    }
  }

  lemma PushUsed(c: Chunk, n: seq<Chunk>)
    requires c.used || n == [] || n[0].used
    ensures Push(c, n) == [c] + n
  {
  }
}
