/**
 The first-fit memory pool (mpool/mpool.c).

 The arena is an array of 32-bit words and addresses are word indexes: pool and
 request sizes are multiples of 4 bytes, so every header is one whole word.  As in
 the source a header holds the payload size in bytes in its low 31 bits and the
 used bit on top.  The ghost field `chunks` is the list that the headers spell out.
 */
module Mpool {
  import opened Arithmetic
  import opened Options
  import opened Chunks

  const USED_BIT: int := 0x8000_0000
  const WORDS: int := 0x1_0000_0000

  type Word = x: int | 0 <= x < 0x1_0000_0000

  /** `(word & 0x7fffffff) / 4`, the payload size in words */
  function SizeOf(w: Word): nat { w % USED_BIT / 4 }

  /** `word >> 31` */
  predicate IsUsed(w: Word) { w / USED_BIT != 0 }

  /** Unsigned 32-bit wrap-around. */
  function Wrap(x: int): Word { x % WORDS }

  lemma WrapTwice(x: int, y: int)
    ensures Wrap(Wrap(x) + y) == Wrap(x + y)
  {
  }

  lemma WrapId(x: Word)
    ensures Wrap(x) == x
  {
  }

  function Encode(c: Chunk): int { 4 * c.size + if c.used then USED_BIT else 0 }

  /** Reading a header back gives the chunk that was written. */
  lemma DecodeEncode(c: Chunk)
    requires 4 * c.size < USED_BIT
    ensures 0 <= Encode(c) < WORDS && SizeOf(Encode(c)) == c.size && IsUsed(Encode(c)) == c.used
  {
  }

  /** The words of `mem` from `at` on hold the headers of `cs`, one after the other. */
  ghost predicate Tiles(mem: seq<Word>, at: nat, cs: seq<Chunk>)
    decreases |cs|
  {
    cs == [] ||
    (at < |mem| && mem[at] == Encode(cs[0]) && 4 * cs[0].size < USED_BIT &&
     Tiles(mem, at + HEADER + cs[0].size, cs[1..]))
  }

  // -------------------------------------------------------------------------
  // Headers and lists

  lemma {:induction false} TilesConcat(mem: seq<Word>, at: nat, a: seq<Chunk>, b: seq<Chunk>)
    ensures Tiles(mem, at, a + b) <==> Tiles(mem, at, a) && Tiles(mem, at + Span(a), b)
    decreases |a|
  {
    if a == [] {
      assert a + b == b;
    } else {
      assert (a + b)[1..] == a[1..] + b;
      TilesConcat(mem, at + HEADER + a[0].size, a[1..], b);
    }
  }

  /** Headers survive any change of memory outside the words that their chunks span. */
  lemma {:induction false} TilesFrame(mem: seq<Word>, mem': seq<Word>, at: nat, cs: seq<Chunk>)
    requires Tiles(mem, at, cs) && |mem'| == |mem|
    requires forall w :: 0 <= w < |mem| && at <= w < at + Span(cs) ==> mem'[w] == mem[w]
    ensures Tiles(mem', at, cs)
    decreases |cs|
  {
    if cs != [] {
      TilesFrame(mem, mem', at + HEADER + cs[0].size, cs[1..]);
    }
  }

  /** The headers determine the chunk list: a memory has at most one tiling of a given span. */
  lemma {:induction false} TilingUnique(mem: seq<Word>, at: nat, a: seq<Chunk>, b: seq<Chunk>)
    requires Tiles(mem, at, a) && Tiles(mem, at, b) && Span(a) == Span(b)
    ensures a == b
    decreases |a|
  {
    if a != [] && b != [] {
      DecodeEncode(a[0]);
      DecodeEncode(b[0]);
      TilingUnique(mem, at + HEADER + a[0].size, a[1..], b[1..]);
      assert a == [a[0]] + a[1..] && b == [b[0]] + b[1..];
    }
  }

  lemma EmptySpan(cs: seq<Chunk>)
    ensures Span(cs) == 0 <==> cs == []
  {
  }

  lemma OneSpan(c: Chunk)
    ensures Span([c]) == HEADER + c.size && FreeWords([c]) == if c.used then 0 else c.size
  {
    assert [c][1..] == [];
  }

  lemma PairSpan(x: Chunk, y: Chunk)
    ensures Span([x, y]) == 2 * HEADER + x.size + y.size
    ensures FreeWords([x, y]) == (if x.used then 0 else x.size) + if y.used then 0 else y.size
  {
    assert [x, y] == [x] + [y];
    SpanConcat([x], [y]);
    OneSpan(x);
    OneSpan(y);
  }

  lemma SpanOne(cs: seq<Chunk>, c: Chunk)
    ensures Span(cs + [c]) == Span(cs) + HEADER + c.size
  {
    SpanConcat(cs, [c]);
    OneSpan(c);
  }

  lemma SpanLead(cs: seq<Chunk>)
    requires cs != []
    ensures Span(cs) >= HEADER + cs[0].size
  {
  }

  lemma SpanConcat3(a: seq<Chunk>, b: seq<Chunk>, c: seq<Chunk>)
    ensures Span(a + b + c) == Span(a) + Span(b) + Span(c)
    ensures FreeWords(a + b + c) == FreeWords(a) + FreeWords(b) + FreeWords(c)
  {
    SpanConcat(a + b, c);
    SpanConcat(a, b);
  }

  lemma TilesConcat3(mem: seq<Word>, a: seq<Chunk>, b: seq<Chunk>, c: seq<Chunk>)
    ensures Tiles(mem, 0, a + b + c) <==>
            Tiles(mem, 0, a) && Tiles(mem, Span(a), b) && Tiles(mem, Span(a) + Span(b), c)
  {
    hide Tiles, Span, FreeWords;
    SpanConcat(a, b);
    TilesConcat(mem, 0, a + b, c);
    TilesConcat(mem, 0, a, b);
  }

  lemma OneTile(mem: seq<Word>, at: nat, c: Chunk)
    ensures Tiles(mem, at, [c]) <==> at < |mem| && mem[at] == Encode(c) && 4 * c.size < USED_BIT
  {
    assert [c][1..] == [];
  }

  lemma TilesHead(mem: seq<Word>, at: nat, cs: seq<Chunk>)
    requires Tiles(mem, at, cs) && cs != []
    ensures at < |mem| && mem[at] == Encode(cs[0]) && 4 * cs[0].size < USED_BIT
  {
  }

  /** The header at the end of `pre`, and the one that follows it. */
  lemma HeaderAt(mem: seq<Word>, pre: seq<Chunk>, c: Chunk, post: seq<Chunk>)
    requires Tiles(mem, 0, pre + [c] + post)
    ensures var p := Span(pre);
      && p < |mem| && SizeOf(mem[p]) == c.size && IsUsed(mem[p]) == c.used
      && mem[p] == Encode(c) && 4 * c.size < USED_BIT
    ensures var n := Span(pre) + HEADER + c.size;
      && Span(pre + [c] + post) == n + Span(post)
      && (post == [] <==> Span(pre + [c] + post) == n)
      && (post != [] ==> n < |mem| && mem[n] == Encode(post[0]) &&
                         SizeOf(mem[n]) == post[0].size && IsUsed(mem[n]) == post[0].used &&
                         4 * post[0].size < USED_BIT && Span(pre + [c] + post) >= n + HEADER + post[0].size)
  {
    hide Tiles, Span, FreeWords;
    SpanConcat3(pre, [c], post);
    TilesConcat3(mem, pre, [c], post);
    OneSpan(c);
    OneTile(mem, Span(pre), c);
    DecodeEncode(c);
    EmptySpan(post);
    if post != [] {
      TilesHead(mem, Span(pre) + HEADER + c.size, post);
      SpanLead(post);
      DecodeEncode(post[0]);
    }
  }

  /**
   Overlay a stretch `was` of the list by chunks `mid` of the same span: the new list tiles memory as
   soon as those words hold the headers of `mid` and no other word has changed.
   */
  lemma Overlay(before: seq<Word>, after: seq<Word>, pre: seq<Chunk>, was: seq<Chunk>, mid: seq<Chunk>,
                post: seq<Chunk>)
    requires Tiles(before, 0, pre + was + post) && |after| == |before|
    requires Span(was) == Span(mid) && Tiles(after, Span(pre), mid)
    requires forall w :: 0 <= w < |before| && !(Span(pre) <= w < Span(pre) + Span(was)) ==> after[w] == before[w]
    ensures Tiles(after, 0, pre + mid + post)
    ensures Span(pre + mid + post) == Span(pre + was + post)
    ensures FreeWords(pre + mid + post) == FreeWords(pre + was + post) - FreeWords(was) + FreeWords(mid)
  {
    hide Tiles, Span, FreeWords;
    TilesConcat3(before, pre, was, post);
    OverlayFrame(before, after, pre, Span(was), post);
    TilesConcat3(after, pre, mid, post);
    SpanConcat3(pre, was, post);
    SpanConcat3(pre, mid, post);
  }

  lemma OverlayFrame(before: seq<Word>, after: seq<Word>, pre: seq<Chunk>, gap: nat, post: seq<Chunk>)
    requires |after| == |before| && Tiles(before, 0, pre) && Tiles(before, Span(pre) + gap, post)
    requires forall w :: 0 <= w < |before| && !(Span(pre) <= w < Span(pre) + gap) ==> after[w] == before[w]
    ensures Tiles(after, 0, pre) && Tiles(after, Span(pre) + gap, post)
  {
    hide Tiles, Span;
    TilesFrame(before, after, 0, pre);
    TilesFrame(before, after, Span(pre) + gap, post);
  }

  // -------------------------------------------------------------------------
  // Who owns a word

  lemma LiveThree(a: seq<Chunk>, b: seq<Chunk>, c: seq<Chunk>)
    ensures Live(a + b + c, 0) == Live(a, 0) + Live(b, Span(a)) + Live(c, Span(a) + Span(b))
  {
    hide Span, Live;
    SpanConcat(a, b);
    LiveConcat(a + b, c, 0);
    LiveConcat(a, b, 0);
  }

  lemma {:induction false} FreeHasNoLive(cs: seq<Chunk>, at: nat)
    requires forall i :: 0 <= i < |cs| ==> !cs[i].used
    ensures Live(cs, at) == {}
  {
    if cs != [] {
      FreeHasNoLive(cs[1..], at + HEADER + cs[0].size);
    }
  }

  lemma LiveLead(cs: seq<Chunk>, at: nat)
    requires cs != [] && cs[0].used && forall i :: 1 <= i < |cs| ==> !cs[i].used
    ensures Live(cs, at) == {(at + HEADER, cs[0].size)}
  {
    FreeHasNoLive(cs[1..], at + HEADER + cs[0].size);
  }

  /** An owned word lies before the stretch `mid`, behind it, or in a block of `mid`. */
  lemma OwnedWhere(pre: seq<Chunk>, mid: seq<Chunk>, post: seq<Chunk>, w: nat)
    requires Owned(pre + mid + post, 0, w)
    ensures w < Span(pre) || Span(pre) + Span(mid) <= w || Owned(mid, Span(pre), w)
  {
    hide Span, Live;
    LiveThree(pre, mid, post);
    var blk :| blk in Live(pre + mid + post, 0) && blk.0 <= w < blk.0 + blk.1;
    if blk in Live(pre, 0) {
      LiveInSpan(pre, 0, blk);
    } else if blk in Live(post, Span(pre) + Span(mid)) {
      LiveInSpan(post, Span(pre) + Span(mid), blk);
    }
  }

  /** Words inside a stretch without used chunks are free to be overwritten. */
  lemma Unowned(pre: seq<Chunk>, mid: seq<Chunk>, post: seq<Chunk>, mem: seq<Word>, mem': seq<Word>)
    requires |mem| == |mem'| && forall i :: 0 <= i < |mid| ==> !mid[i].used
    requires forall w :: 0 <= w < |mem| && !(Span(pre) <= w < Span(pre) + Span(mid)) ==> mem'[w] == mem[w]
    ensures forall w :: 0 <= w < |mem| && Owned(pre + mid + post, 0, w) ==> mem'[w] == mem[w]
  {
    hide Span, Live;
    forall w | 0 <= w < |mem| && Owned(pre + mid + post, 0, w)
      ensures mem'[w] == mem[w]
    {
      OwnedWhere(pre, mid, post, w);
      FreeHasNoLive(mid, Span(pre));
    }
  }

  /** A header is never part of a payload. */
  lemma HeaderUnowned(pre: seq<Chunk>, c: Chunk, post: seq<Chunk>)
    ensures !Owned(pre + [c] + post, 0, Span(pre))
  {
    hide Span, Live;
    if Owned(pre + [c] + post, 0, Span(pre)) {
      OwnedWhere(pre, [c], post, Span(pre));
      OneSpan(c);
      var blk :| blk in Live([c], Span(pre)) && blk.0 <= Span(pre) < blk.0 + blk.1;
      LiveInSpan([c], Span(pre), blk);
    }
  }

  // -------------------------------------------------------------------------
  // The steps of an allocation

  /** Writing the merged size over the first of two free headers is a legal step of the list. */
  lemma MergeStep(mem: seq<Word>, mem': seq<Word>, pre: seq<Chunk>, x: Chunk, y: Chunk, post: seq<Chunk>)
    requires Tiles(mem, 0, pre + [x] + ([y] + post)) && !x.used && !y.used
    requires 4 * Span(pre + [x] + ([y] + post)) < USED_BIT
    requires Encode(x) + Encode(y) + 4 < WORDS && Span(pre) < |mem|
    requires mem' == mem[Span(pre) := Encode(x) + Encode(y) + 4]
    ensures var m := Chunk(x.size + HEADER + y.size, false);
      && Tiles(mem', 0, pre + [m] + post)
      && Span(pre + [m] + post) == Span(pre + [x] + ([y] + post))
      && FreeWords(pre + [m] + post) == FreeWords(pre + [x] + ([y] + post)) + HEADER
      && Norm(pre + [m] + post) == Norm(pre + [x] + ([y] + post))
      && Live(pre + [m] + post, 0) == Live(pre + [x] + ([y] + post), 0)
    ensures !Owned(pre + [x] + ([y] + post), 0, Span(pre))
  {
    hide Tiles, Span, Norm, Live, FreeWords, Owned;
    var m := Chunk(x.size + HEADER + y.size, false);
    assert pre + [x] + ([y] + post) == pre + [x, y] + post;
    HeaderAt(mem, pre, x, [y] + post);
    HeaderUnowned(pre, x, [y] + post);
    PairSpan(x, y);
    OneSpan(m);
    OneTile(mem', Span(pre), m);
    Overlay(mem, mem', pre, [x, y], [m], post);
    NormMerge(pre, x, y, post);
    NormLive(pre + [m] + post, 0);
    NormLive(pre + [x, y] + post, 0);
  }

  ghost predicate NoFit(cs: seq<Chunk>, request: nat) {
    forall i :: 0 <= i < |cs| ==> cs[i].used || cs[i].size < request
  }

  lemma NormShort(c: Chunk, d: Chunk)
    ensures Norm([c]) == [c] && (d.used ==> Norm([c, d]) == [c, d])
  {
    assert [c][1..] == [] && [c, d][1..] == [d] && [d][1..] == [];
  }

  /** A request that no coalesced chunk can hold is refused and changes nothing. */
  lemma Refused(cs: seq<Chunk>, request: nat)
    requires NoFit(cs, request)
    ensures FirstFit(cs, request, 0) == None && EagerAlloc(cs, request) == cs
  {
    FirstFitSkips(cs, [], request, 0);
    assert cs + [] == cs;
  }

  /** Carving from a chunk, then coalescing what is left, is carving from the coalesced run. */
  lemma CarveNorm(f: Chunk, post: seq<Chunk>, request: nat)
    requires !f.used && request <= f.size
    ensures var run := Push(f, Norm(post));
      && run != [] && !run[0].used && f.size <= run[0].size
      && [Chunk(request, true)] + Norm(Carve(f, request)[1..] + post) == Carve(run[0], request) + run[1..]
  {
    hide Norm;
    var n := Norm(post);
    if f.size == request {
      assert Carve(f, request)[1..] + post == post;
    } else {
      var l := Chunk(f.size - request - HEADER, false);
      assert Carve(f, request)[1..] + post == [l] + post;
      NormCons(l, post);
    }
  }

  lemma RunServed(run: seq<Chunk>, request: nat, at: nat)
    requires run != [] && !run[0].used && request <= run[0].size
    ensures FirstFit(run, request, at) == Some(at + HEADER)
    ensures EagerAlloc(run, request) == Carve(run[0], request) + run[1..]
  {
  }

  /** The first chunk that a scan finds large enough is where first fit over the coalesced list goes. */
  lemma Served(pre: seq<Chunk>, f: Chunk, post: seq<Chunk>, request: nat)
    requires Closed(pre) && NoFit(Norm(pre), request)
    requires !f.used && request <= f.size
    ensures FirstFit(Norm(pre + [f] + post), request, 0) == Some(Span(pre) + HEADER)
    ensures Norm(pre + Carve(f, request) + post) == EagerAlloc(Norm(pre + [f] + post), request)
  {
    hide Norm, FirstFit, EagerAlloc, Span;
    var run := Push(f, Norm(post));
    NormCons(f, post);
    assert pre + [f] + post == pre + ([f] + post);
    NormClosed(pre, [f] + post);
    NormSpan(pre);
    CarveNorm(f, post, request);
    FirstFitSkips(Norm(pre), run, request, 0);
    RunServed(run, request, Span(pre));
    var u := Chunk(request, true);
    var left := Carve(f, request)[1..];
    assert pre + Carve(f, request) + post == (pre + [u]) + (left + post);
    NormClosed(pre + [u], left + post);
    NormClosed(pre, [u]);
    NormShort(u, u);
    assert Norm(pre) + [u] + Norm(left + post) == Norm(pre) + ([u] + Norm(left + post));
  }

  /** Two headers written over one chunk split it. */
  lemma CarveTiles(mem: seq<Word>, at: nat, f: Chunk, request: nat)
    requires request <= f.size && 4 * f.size < USED_BIT
    requires at < |mem| && mem[at] == 4 * request + USED_BIT
    requires request < f.size ==>
      at + HEADER + request < |mem| && mem[at + HEADER + request] == 4 * (f.size - request - HEADER)
    ensures Tiles(mem, at, Carve(f, request))
    ensures Span(Carve(f, request)) == HEADER + f.size
    ensures FreeWords(Carve(f, request)) == if request < f.size then f.size - request - HEADER else 0
  {
    hide Tiles, Span, FreeWords;
    var u := Chunk(request, true);
    OneSpan(u);
    OneTile(mem, at, u);
    if request < f.size {
      var l := Chunk(f.size - request - HEADER, false);
      assert Carve(f, request) == [u] + [l];
      OneSpan(l);
      SpanConcat([u], [l]);
      OneTile(mem, at + HEADER + request, l);
      TilesConcat(mem, at, [u], [l]);
    } else {
      assert Carve(f, request) == [u];
    }
  }

  /** The writes that hand out the chunk `f`. */
  lemma TakeStep(before: seq<Word>, after: seq<Word>, pre: seq<Chunk>, f: Chunk, post: seq<Chunk>, request: nat)
    requires Tiles(before, 0, pre + [f] + post) && |after| == |before|
    requires Closed(pre) && NoFit(Norm(pre), request) && request <= f.size && !f.used
    requires Span(pre) < |after| && after[Span(pre)] == 4 * request + USED_BIT
    requires request < f.size ==>
      Span(pre) + HEADER + request < |after| &&
      after[Span(pre) + HEADER + request] == 4 * (f.size - request - HEADER)
    requires forall w :: 0 <= w < |before| && w != Span(pre) && (f.size == request || w != Span(pre) + HEADER + request)
               ==> after[w] == before[w]
    ensures var cs, cs' := pre + [f] + post, pre + Carve(f, request) + post;
      && Tiles(after, 0, cs') && Span(cs') == Span(cs)
      && FreeWords(cs') == FreeWords(cs) - request - (if request < f.size then HEADER else 0)
      && FirstFit(Norm(cs), request, 0) == Some(Span(pre) + HEADER)
      && Norm(cs') == EagerAlloc(Norm(cs), request)
      && forall w :: 0 <= w < |before| && Owned(cs, 0, w) ==> after[w] == before[w]
  {
    hide Tiles, Span, Norm, Live, FreeWords, FirstFit, EagerAlloc, Carve, Owned;
    HeaderAt(before, pre, f, post);
    OneSpan(f);
    CarveTiles(after, Span(pre), f, request);
    Overlay(before, after, pre, [f], Carve(f, request), post);
    Unowned(pre, [f], post, before, after);
    Served(pre, f, post, request);
  }

  // -------------------------------------------------------------------------
  // The steps of a release

  /** The payload of chunk `i` starts at `block`. */
  ghost predicate IsBlock(cs: seq<Chunk>, i: int, block: nat) {
    0 <= i < |cs| && cs[i].used && Span(cs[..i]) + HEADER == block
  }

  /** `block` is live, and some chunk follows it or the word behind the arena has its top bit set (`guard`). */
  ghost predicate Freeable(cs: seq<Chunk>, block: nat, guard: bool) {
    exists size :: (block, size) in Live(cs, 0) && (block + size < Span(cs) || guard)
  }

  /** A resize of the last chunk in which the word behind the arena passes for a free chunk that is large enough. */
  ghost predicate GrowsBehind(cs: seq<Chunk>, i: int, request: nat, behind: Word) {
    0 <= i && i + 1 == |cs| && !IsUsed(behind) && cs[i].size <= request && 4 * (request - cs[i].size) < behind + 4
  }

  /** A release or a resize of the last chunk in which that word passes for a chunk to merge with. */
  ghost predicate Overruns(cs: seq<Chunk>, i: int, request: nat, behind: Word) {
    (request == 0 && i + 1 == |cs| && !IsUsed(behind)) || (request > 0 && GrowsBehind(cs, i, request, behind))
  }

  /**
   Chunk `i` of `cs`, with the next one if it grows, was made to hold `request` words.  It keeps what is
   left if that is two words or less; otherwise that is a free chunk behind it.
   */
  ghost predicate Cut(cs: seq<Chunk>, cs': seq<Chunk>, i: int, request: nat, newSize: nat) {
    0 <= i < |cs| && (request >= cs[i].size ==> i + 1 < |cs|) &&
    var total := if request < cs[i].size then cs[i].size else cs[i].size + HEADER + cs[i + 1].size;
    var post := if request < cs[i].size then cs[i + 1..] else cs[i + 2..];
    if total - request <= 2 then
      newSize == total && cs' == cs[..i] + [Chunk(total, true)] + post
    else
      newSize == request && cs' == cs[..i] + [Chunk(request, true), Chunk(total - request - HEADER, false)] + post
  }

  /** There is one chunk for a block. */
  lemma OneIndex(cs: seq<Chunk>, i: nat, j: nat, block: nat)
    requires IsBlock(cs, i, block) && IsBlock(cs, j, block)
    ensures i == j
  {
    hide Span;
    if i < j {
      SpanGrows(cs, i, j);
    } else if j < i {
      SpanGrows(cs, j, i);
    }
  }

  lemma SpanGrows(cs: seq<Chunk>, i: nat, j: nat)
    requires i < j <= |cs|
    ensures Span(cs[..i]) < Span(cs[..j])
  {
    hide Span;
    assert cs[..j] == cs[..i] + cs[i..j];
    SpanConcat(cs[..i], cs[i..j]);
    EmptySpan(cs[i..j]);
  }

  /** The chunk of a live block. */
  lemma {:induction false} FindBlock(cs: seq<Chunk>, at: nat, block: nat, size: nat) returns (i: nat)
    requires (block, size) in Live(cs, at)
    ensures i < |cs| && cs[i] == Chunk(size, true) && at + Span(cs[..i]) + HEADER == block
    ensures block + size < at + Span(cs) ==> i + 1 < |cs|
  {
    if cs[0].used && (block, size) == (at + HEADER, cs[0].size) {
      i := 0;
      assert cs[..0] == [];
    } else {
      var j := FindBlock(cs[1..], at + HEADER + cs[0].size, block, size);
      i := j + 1;
      assert cs[..i][1..] == cs[1..][..j];
    }
  }

  /** Cut the list around one chunk. */
  lemma CutAt(cs: seq<Chunk>, i: nat)
    requires i < |cs|
    ensures cs == cs[..i] + [cs[i]] + cs[i + 1..]
  {
  }

  lemma ReleaseHead(c: Chunk, post: seq<Chunk>, at: nat)
    requires c.used
    ensures Release([c] + post, at, at + HEADER) == [Chunk(c.size, false)] + post
  {
    assert ([c] + post)[1..] == post;
  }

  /** Marking one chunk free is `Release` at its address, whatever was coalesced before. */
  lemma Released(pre: seq<Chunk>, c: Chunk, post: seq<Chunk>)
    requires c.used
    ensures var block := Span(pre) + HEADER;
      Norm(pre + [Chunk(c.size, false)] + post) == Norm(Release(Norm(pre + [c] + post), 0, block))
  {
    hide Norm, Span, Release;
    var block := Span(pre) + HEADER;
    NormRelease(pre + [c] + post, 0, block);
    assert pre + [c] + post == pre + ([c] + post);
    ReleaseConcat(pre, [c] + post, 0, block);
    ReleaseHead(c, post, Span(pre));
    assert pre + ([Chunk(c.size, false)] + post) == pre + [Chunk(c.size, false)] + post;
  }

  /** Clearing the used bit of one header. */
  lemma FreeStep(mem: seq<Word>, mem': seq<Word>, pre: seq<Chunk>, c: Chunk, post: seq<Chunk>)
    requires Tiles(mem, 0, pre + [c] + post) && c.used
    requires 4 * c.size < USED_BIT && Span(pre) < |mem| && mem' == mem[Span(pre) := 4 * c.size]
    ensures var cs, cs' := pre + [c] + post, pre + [Chunk(c.size, false)] + post;
      && Tiles(mem', 0, cs') && Span(cs') == Span(cs) && FreeWords(cs') == FreeWords(cs) + c.size
      && Norm(cs') == Norm(Release(Norm(cs), 0, Span(pre) + HEADER))
      && !Owned(cs, 0, Span(pre))
  {
    hide Tiles, Span, FreeWords, Norm, Release, Owned;
    var d := Chunk(c.size, false);
    HeaderAt(mem, pre, c, post);
    HeaderUnowned(pre, c, post);
    OneTile(mem', Span(pre), d);
    OneSpan(c);
    OneSpan(d);
    Overlay(mem, mem', pre, [c], [d], post);
    Released(pre, c, post);
  }

  // -------------------------------------------------------------------------
  // The steps of a resize

  /** Overlaying the chunks `was` by `mid`, where the first chunk is the only used one of either. */
  lemma ResizeStep(before: seq<Word>, after: seq<Word>, pre: seq<Chunk>, was: seq<Chunk>, mid: seq<Chunk>,
                   post: seq<Chunk>, keep: nat)
    requires Tiles(before, 0, pre + was + post) && |after| == |before|
    requires was != [] && mid != [] && was[0].used && mid[0].used && Span(was) == Span(mid)
    requires forall i :: 1 <= i < |was| ==> !was[i].used
    requires forall i :: 1 <= i < |mid| ==> !mid[i].used
    requires Tiles(after, Span(pre), mid)
    requires forall w :: 0 <= w < |before| && !(Span(pre) <= w < Span(pre) + Span(was)) ==> after[w] == before[w]
    requires forall w :: 0 <= w < |before| && Span(pre) + HEADER <= w < Span(pre) + HEADER + keep ==>
      after[w] == before[w]
    ensures var cs, cs', block := pre + was + post, pre + mid + post, Span(pre) + HEADER;
      && Tiles(after, 0, cs') && Span(cs') == Span(cs)
      && FreeWords(cs') == FreeWords(cs) - FreeWords(was) + FreeWords(mid)
      && Live(cs', 0) == Live(cs, 0) - {(block, was[0].size)} + {(block, mid[0].size)}
      && forall w :: 0 <= w < |before| && Owned(cs, 0, w) && !(block + keep <= w < block + was[0].size)
                ==> after[w] == before[w]
  {
    hide Tiles, Span, Live, FreeWords;
    Overlay(before, after, pre, was, mid, post);
    ResizedLive(pre, was, mid, post);
    forall w | 0 <= w < |before| && Owned(pre + was + post, 0, w) &&
               !(Span(pre) + HEADER + keep <= w < Span(pre) + HEADER + was[0].size)
      ensures after[w] == before[w]
    {
      OwnedWhere(pre, was, post, w);
      LiveLead(was, Span(pre));
    }
  }

  lemma ResizedLive(pre: seq<Chunk>, was: seq<Chunk>, mid: seq<Chunk>, post: seq<Chunk>)
    requires was != [] && mid != [] && was[0].used && mid[0].used && Span(was) == Span(mid)
    requires forall i :: 1 <= i < |was| ==> !was[i].used
    requires forall i :: 1 <= i < |mid| ==> !mid[i].used
    ensures var block := Span(pre) + HEADER;
      Live(pre + mid + post, 0) ==
      Live(pre + was + post, 0) - {(block, was[0].size)} + {(block, mid[0].size)}
  {
    hide Span, Live;
    LiveThree(pre, was, post);
    LiveThree(pre, mid, post);
    LiveLead(was, Span(pre));
    LiveLead(mid, Span(pre));
    var gone := (Span(pre) + HEADER, was[0].size);
    if gone in Live(pre, 0) {
      LiveInSpan(pre, 0, gone);
    }
    if gone in Live(post, Span(pre) + Span(was)) {
      LiveInSpan(post, Span(pre) + Span(was), gone);
      SpanLead(was);
    }
  }

  lemma CarveLength(c: Chunk, request: nat)
    requires request <= c.size
    ensures |Carve(c, request)| <= 2
  {
  }

  lemma CarveShape(c: Chunk, request: nat)
    requires request + HEADER <= c.size
    ensures Carve(c, request) == [Chunk(request, true), Chunk(c.size - request - HEADER, false)]
  {
  }

  /** A used block that gives up its tail. */
  lemma ShrinkStep(before: seq<Word>, after: seq<Word>, pre: seq<Chunk>, c: Chunk, post: seq<Chunk>, request: nat)
    requires Tiles(before, 0, pre + [c] + post) && c.used && request < c.size && 4 * c.size < USED_BIT
    requires Span(pre) + HEADER + request < |before|
    requires after == before[Span(pre) + HEADER +
      request := 4 * (c.size - request - HEADER)][Span(pre) := 4 * request + USED_BIT]
    ensures var cs, cs', block := pre + [c] + post, pre + Carve(c, request) + post, Span(pre) + HEADER;
      && Tiles(after, 0, cs') && Span(cs') == Span(cs)
      && FreeWords(cs') == FreeWords(cs) + c.size - request - HEADER
      && Live(cs', 0) == Live(cs, 0) - {(block, c.size)} + {(block, request)}
      && forall w :: 0 <= w < |before| && Owned(cs, 0, w) && !(block + request <= w < block + c.size)
                ==> after[w] == before[w]
  {
    hide Tiles, Span, Live, FreeWords, Owned, Carve;
    OneSpan(c);
    CarveTiles(after, Span(pre), c, request);
    CarveShape(c, request);
    ResizeStep(before, after, pre, [c], Carve(c, request), post, request);
  }

  /** A used block that takes over the free chunk behind it, whole (`mid` is one chunk) or in part. */
  lemma GrowStep(before: seq<Word>, after: seq<Word>, pre: seq<Chunk>, c: Chunk, y: Chunk, tail: seq<Chunk>,
                 request: nat, mid: seq<Chunk>)
    requires Tiles(before, 0, pre + [c, y] + tail) && 4 * Span(pre + [c, y] + tail) < USED_BIT
    requires c.used && !y.used && |after| == |before|
    requires c.size <= request < c.size + HEADER + y.size && Span(pre) + HEADER + request < |before|
    requires var all, p := Chunk(c.size + HEADER + y.size, true), Span(pre);
      || (mid == [all] && after[p] == 4 * all.size + USED_BIT &&
          forall w :: 0 <= w < |before| && w != p ==> after[w] == before[w])
      || (mid == Carve(all, request) && after[p] == 4 * request + USED_BIT &&
          after[p + HEADER + request] == 4 * (all.size - request - HEADER) &&
          forall w :: 0 <= w < |before| && w != p && w != p + HEADER + request ==> after[w] == before[w])
    ensures var cs, cs', block := pre + [c, y] + tail, pre + mid + tail, Span(pre) + HEADER;
      && Tiles(after, 0, cs') && Span(cs') == Span(cs) && mid != []
      && FreeWords(cs') == FreeWords(cs) - y.size + (if |mid| == 1 then 0 else c.size + y.size - request)
      && Live(cs', 0) == Live(cs, 0) - {(block, c.size)} + {(block, mid[0].size)}
      && forall w :: 0 <= w < |before| && Owned(cs, 0, w) ==> after[w] == before[w]
  {
    hide Tiles, Span, Live, FreeWords, Owned, SizeOf, IsUsed;
    var all, p := Chunk(c.size + HEADER + y.size, true), Span(pre);
    SpanConcat3(pre, [c, y], tail);
    PairSpan(c, y);
    OneSpan(all);
    if mid == [all] {
      OneTile(after, p, all);
    } else {
      CarveTiles(after, p, all, request);
    }
    ResizeStep(before, after, pre, [c, y], mid, tail, c.size);
  }

  // -------------------------------------------------------------------------
  // Runs

  datatype Op = DoAlloc(request: nat) | DoFree(block: nat)

  /** One operation of the eagerly coalescing allocator. */
  ghost function EagerStep(cs: seq<Chunk>, op: Op): seq<Chunk> {
    match op
    case DoAlloc(request) => EagerAlloc(cs, request)
    case DoFree(block) => Norm(Release(cs, 0, block))
  }

  ghost function EagerRun(cs: seq<Chunk>, ops: seq<Op>): seq<Chunk>
    decreases |ops|
  {
    if ops == [] then cs else EagerRun(EagerStep(cs, ops[0]), ops[1..])
  }

  /** Every release in the run names a block that is live by then, and not the last chunk without a guard. */
  ghost predicate Legal(cs: seq<Chunk>, ops: seq<Op>, guard: bool)
    decreases |ops|
  {
    ops == [] ||
    ((ops[0].DoFree? ==> Freeable(cs, ops[0].block, guard)) && Legal(EagerStep(cs, ops[0]), ops[1..], guard))
  }

  /**
   In memory: each live block lies within the arena behind a header of its size, apart from every other block
   and its header.
   */
  ghost predicate Separate(mem: seq<Word>, cs: seq<Chunk>) {
    forall x :: x in Live(cs, 0) ==> Headed(mem, x) && forall y :: y in Live(cs, 0) && y != x ==> Apart(x, y)
  }

  ghost predicate Headed(mem: seq<Word>, x: (nat, nat)) {
    HEADER <= x.0 && x.0 + x.1 <= |mem| && mem[x.0 - HEADER] == Encode(Chunk(x.1, true))
  }

  ghost predicate Apart(x: (nat, nat), y: (nat, nat)) {
    x.0 + x.1 + HEADER <= y.0 || y.0 + y.1 + HEADER <= x.0
  }

  /** Whenever the headers tile the arena, the live blocks are separate in memory. */
  lemma TiledIsSeparate(mem: seq<Word>, cs: seq<Chunk>)
    requires Tiles(mem, 0, cs) && Span(cs) == |mem|
    ensures Separate(mem, cs)
  {
    hide Tiles, Live, Span;
    forall x | x in Live(cs, 0)
      ensures Headed(mem, x) && forall y :: y in Live(cs, 0) && y != x ==> Apart(x, y)
    {
      LiveInSpan(cs, 0, x);
      var i := FindBlock(cs, 0, x.0, x.1);
      CutAt(cs, i);
      HeaderAt(mem, cs[..i], cs[i], cs[i + 1..]);
      forall y | y in Live(cs, 0) && y != x
        ensures Apart(x, y)
      {
        LiveDisjoint(cs, 0, x, y);
      }
    }
  }

  /** What a client sees of a pool: the arena's words and the chunks they make. */
  datatype State = State(mem: seq<Word>, chunks: seq<Chunk>)

  ghost predicate SameWords(mem: seq<Word>, mem': seq<Word>, x: (nat, nat)) {
    x.0 + x.1 <= |mem| && x.0 + x.1 <= |mem'| && forall w :: x.0 <= w < x.0 + x.1 ==> mem'[w] == mem[w]
  }

  /** A call that names at most the block `named` keeps the tiling and every other live block with its payload. */
  ghost predicate Keeps(a: State, b: State, named: Option<nat>) {
    && |b.mem| == |a.mem| && Tiles(b.mem, 0, b.chunks) && Span(b.chunks) == |b.mem|
    && forall x :: x in Live(a.chunks, 0) && named != Some(x.0) ==> x in Live(b.chunks, 0) && SameWords(a.mem, b.mem, x)
  }

  /** Words of live blocks are kept, except perhaps in the stretch `from .. to` of the block named. */
  lemma KeepsWhen(a: State, b: State, named: Option<nat>, size: nat, from: nat, to: nat)
    requires |b.mem| == |a.mem| == Span(a.chunks) && Tiles(b.mem, 0, b.chunks) && Span(b.chunks) == |b.mem|
    requires forall x :: x in Live(a.chunks, 0) && named != Some(x.0) ==> x in Live(b.chunks, 0)
    requires forall w :: 0 <= w < |a.mem| && Owned(a.chunks, 0, w) && !(from <= w < to) ==> b.mem[w] == a.mem[w]
    requires from < to ==>
      named.Some? && (named.value, size) in Live(a.chunks, 0) && named.value <= from && to <= named.value + size
    ensures Keeps(a, b, named)
  {
    hide Live, Tiles, Span;
    forall x | x in Live(a.chunks, 0) && named != Some(x.0)
      ensures SameWords(a.mem, b.mem, x)
    {
      LiveInSpan(a.chunks, 0, x);
      if from < to {
        LiveDisjoint(a.chunks, 0, x, (named.value, size));
      }
    }
  }

  lemma BlockIsLive(cs: seq<Chunk>, i: nat, block: nat)
    requires IsBlock(cs, i, block)
    ensures (block, cs[i].size) in Live(cs, 0)
  {
    hide Live, Span;
    CutAt(cs, i);
    LiveThree(cs[..i], [cs[i]], cs[i + 1..]);
    OneLive(cs[i], Span(cs[..i]));
  }

  lemma OwnedBlock(cs: seq<Chunk>, block: nat, n: nat)
    requires (block, n) in Live(cs, 0)
    ensures forall w :: block <= w < block + n ==> Owned(cs, 0, w)
  {
    hide Live;
  }

  lemma BlockIndex(cs: seq<Chunk>, i: int, block: nat)
    requires IsBlock(cs, i, block)
    ensures 0 <= i < |cs|
  {
  }

  lemma OneLive(c: Chunk, at: nat)
    requires c.used
    ensures (at + HEADER, c.size) in Live([c], at)
  {
  }

  lemma AllocLive(cs: seq<Chunk>, cs': seq<Chunk>, request: nat)
    requires Norm(cs') == EagerAlloc(Norm(cs), request)
    ensures var r := FirstFit(Norm(cs), request, 0);
      Live(cs', 0) == Live(cs, 0) + (if r.Some? then {(r.value, request)} else {})
  {
    hide Live, Norm, EagerAlloc, Span, FirstFit;
    NormLive(cs, 0);
    NormLive(cs', 0);
    EagerAllocLive(Norm(cs), request, 0);
  }

  lemma FreeLive(cs: seq<Chunk>, cs': seq<Chunk>, block: nat, n: nat)
    requires (block, n) in Live(cs, 0) && Norm(cs') == Norm(Release(Norm(cs), 0, block))
    ensures Live(cs', 0) == Live(cs, 0) - {(block, n)}
  {
    hide Live, Norm, Release, Span;
    NormRelease(cs, 0, block);
    NormLive(cs', 0);
    NormLive(Release(cs, 0, block), 0);
    ReleaseLive(cs, 0, block, n);
  }

  /** A live block has one size. */
  lemma OneSize(cs: seq<Chunk>, block: nat, n: nat)
    requires (block, n) in Live(cs, 0)
    ensures forall x :: x in Live(cs, 0) && x.0 == block ==> x.1 == n
  {
    hide Live;
    forall x | x in Live(cs, 0) && x.0 == block
      ensures x.1 == n
    {
      if x != (block, n) {
        LiveDisjoint(cs, 0, x, (block, n));
      }
    }
  }

  lemma NotUsed(w: Word)
    requires !IsUsed(w)
    ensures w < USED_BIT
  {
  }

  /** Freeable, in terms of the chunk's place. */
  lemma FreeableIs(cs: seq<Chunk>, i: nat, block: nat, guard: bool)
    requires IsBlock(cs, i, block)
    ensures Freeable(cs, block, guard) <==> i + 1 < |cs| || guard
  {
    hide Live, Span;
    CutAt(cs, i);
    BlockIsLive(cs, i, block);
    OneSize(cs, block, cs[i].size);
    SpanConcat3(cs[..i], [cs[i]], cs[i + 1..]);
    OneSpan(cs[i]);
    EmptySpan(cs[i + 1..]);
  }

  /** What a header that reads as used or as too small says of the next chunk. */
  lemma MustMoveWhen(cs: seq<Chunk>, i: nat, request: nat, next: Word, behind: Word)
    requires i < |cs| && cs[i].size <= request && (if i + 1 < |cs| then next == Encode(cs[i + 1]) else next == behind)
    requires i + 1 < |cs| ==> 4 * cs[i + 1].size < USED_BIT
    ensures IsUsed(next) || 4 * (request - cs[i].size) >= next + 4 <==>
      if i + 1 < |cs| then cs[i + 1].used || request >= cs[i].size + HEADER + cs[i + 1].size
      else !GrowsBehind(cs, i, request, behind)
  {
    if i + 1 < |cs| {
      DecodeEncode(cs[i + 1]);
    }
  }

  /** Two lists that tile the same words agree as far as both go. */
  lemma {:induction false} TilingPrefix(mem: seq<Word>, at: nat, a: seq<Chunk>, b: seq<Chunk>)
    requires Tiles(mem, at, a) && Tiles(mem, at, b) && Span(a) < Span(b)
    ensures |a| < |b| && b[..|a|] == a
    decreases |a|
  {
    if a != [] {
      DecodeEncode(a[0]);
      DecodeEncode(b[0]);
      TilingPrefix(mem, at + HEADER + a[0].size, a[1..], b[1..]);
      assert a == [a[0]] + a[1..] && b[..|a|] == [b[0]] + b[1..][..|a| - 1];
    }
  }

  /** A write to the header of the last chunk disturbs none before it. */
  lemma BeforeLast(mem: seq<Word>, mem': seq<Word>, pre: seq<Chunk>, c: Chunk, post: seq<Chunk>)
    requires Tiles(mem, 0, pre + [c] + post) && Span(pre + [c] + post) == |mem| == |mem'| && post == []
    requires forall w :: 0 <= w < |mem| && w != Span(pre) ==> mem'[w] == mem[w]
    ensures Tiles(mem', 0, pre) && Span(pre) + HEADER + c.size == |mem|
  {
    hide Tiles, Span, FreeWords;
    TilesConcat3(mem, pre, [c], post);
    SpanConcat3(pre, [c], post);
    OneSpan(c);
    EmptySpan(post);
    TilesFrame(mem, mem', 0, pre);
  }

  /**
   The header of the last chunk, after the word behind the arena was added to it: in every list that
   tiles the arena the chunk at that place is used.
   */
  lemma Overrun(mem: seq<Word>, pre: seq<Chunk>, n: nat, behind: Word, cs: seq<Chunk>)
    requires Tiles(mem, 0, pre) && Span(pre) + HEADER + n == |mem| && mem[Span(pre)] == 4 * n + behind + 4
    requires Tiles(mem, 0, cs) && Span(cs) == |mem|
    ensures |pre| < |cs| && (Span(pre) + HEADER, cs[|pre|].size) in Live(cs, 0)
  {
    hide Tiles, Span, Live, FreeWords;
    TilingPrefix(mem, 0, pre, cs);
    var k := |pre|;
    CutAt(cs, k);
    HeaderAt(mem, cs[..k], cs[k], cs[k + 1..]);
    SpanConcat3(cs[..k], [cs[k]], cs[k + 1..]);
    OneSpan(cs[k]);
    BlockIsLive(cs, k, Span(pre) + HEADER);
  }

  // -------------------------------------------------------------------------
  // Which chunks an allocation merges

  /** Adjacent free chunks, with `size` words once they are merged. */
  ghost predicate IsRun(run: seq<Chunk>, size: nat) {
    run != [] && (forall i :: 0 <= i < |run| ==> !run[i].used) && Span(run) == HEADER + size
  }

  ghost predicate TooSmall(run: seq<Chunk>, request: nat) {
    run != [] && Span(run[..|run| - 1]) < HEADER + request
  }

  /** Merging goes on until the request fits, and no further. */
  ghost predicate Smallest(run: seq<Chunk>, request: nat) {
    Span(run) >= HEADER + request && (|run| > 1 ==> TooSmall(run, request))
  }

  /**
   What a served request leaves of `cs`: all that the scan passed is coalesced, of the run that serves the
   request no more chunks are merged than needed, and what lies behind is as it was.
   */
  ghost predicate Lazily(cs: seq<Chunk>, cs': seq<Chunk>, request: nat, pre: seq<Chunk>, run: seq<Chunk>,
    post: seq<Chunk>)
  {
    && cs == pre + run + post && Closed(pre) && NoFit(Norm(pre), request)
    && exists size :: IsRun(run, size) && Smallest(run, request) && request <= size &&
         cs' == Norm(pre) + Carve(Chunk(size, false), request) + post
  }

  lemma LazilyWhen(cs: seq<Chunk>, cs': seq<Chunk>, request: nat, pre: seq<Chunk>, run: seq<Chunk>,
    post: seq<Chunk>, size: nat)
    requires cs == pre + run + post && Closed(pre) && NoFit(Norm(pre), request)
    requires IsRun(run, size) && Smallest(run, request) && request <= size
    requires cs' == Norm(pre) + Carve(Chunk(size, false), request) + post
    ensures Lazily(cs, cs', request, pre, run, post)
  {
    hide Norm, Carve;
  }

  lemma RunOn(run: seq<Chunk>, y: Chunk, size: nat, request: nat)
    requires IsRun(run, size) && !y.used && size < request
    ensures IsRun(run + [y], size + HEADER + y.size) && TooSmall(run + [y], request)
  {
    hide Span;
    SpanOne(run, y);
    assert (run + [y])[..|run|] == run;
  }

  /** Of the list `cs0` the scan has passed `done`, which is coalesced to `pre` and cannot serve the request. */
  ghost predicate Scanned(cs0: seq<Chunk>, cs: seq<Chunk>, request: nat, done: seq<Chunk>, pre: seq<Chunk>,
    post: seq<Chunk>, p: nat)
  {
    && cs0 == done + post && cs == pre + post && Closed(done) && Closed(pre)
    && pre == Norm(done) && Norm(pre) == pre && NoFit(pre, request) && p == Span(pre)
  }

  lemma ScanStarts(cs: seq<Chunk>, request: nat)
    ensures Scanned(cs, cs, request, [], [], cs, 0)
  {
  }

  lemma ScanIsAt(cs0: seq<Chunk>, cs: seq<Chunk>, request: nat, done: seq<Chunk>, pre: seq<Chunk>, post: seq<Chunk>,
    p: nat)
    requires Scanned(cs0, cs, request, done, pre, post, p) && p < Span(cs)
    ensures post != [] && cs == pre + [post[0]] + post[1..] && p == Span(pre)
  {
    hide Span, Norm;
    SpanConcat(pre, post);
    EmptySpan(post);
  }

  lemma ScanPassesUsed(cs0: seq<Chunk>, cs: seq<Chunk>, request: nat, done: seq<Chunk>, pre: seq<Chunk>,
    post: seq<Chunk>, p: nat)
    requires Scanned(cs0, cs, request, done, pre, post, p) && post != [] && post[0].used
    ensures var u := post[0];
      Scanned(cs0, cs, request, done + [u], pre + [u], post[1..], p + HEADER + u.size)
  {
    hide Span, Norm;
    NormUsed(done, post[0]);
    NormUsed(pre, post[0]);
    SpanOne(pre, post[0]);
  }

  lemma ScanPassesRun(cs0: seq<Chunk>, cs: seq<Chunk>, cs': seq<Chunk>, request: nat, done: seq<Chunk>,
    pre: seq<Chunk>, post: seq<Chunk>, run: seq<Chunk>, size: nat, after: seq<Chunk>)
    requires Scanned(cs0, cs, request, done, pre, post, Span(pre)) && post == run + after && IsRun(run, size)
    requires after != [] && after[0].used && size < request && cs' == pre + [Chunk(size, false)] + after
    ensures var f, u := Chunk(size, false), after[0];
      Scanned(cs0, cs', request, done + run + [u], pre + [f, u], after[1..],
        Span(pre) + HEADER + size + HEADER + u.size)
  {
    hide Span, Norm, IsRun;
    var f, u := Chunk(size, false), after[0];
    PassRun(done, run, size);
    NormUsed(done + run, u);
    OneRun(f);
    PassRun(pre, [f], size);
    NormUsed(pre + [f], u);
    SpanOne(pre, f);
    SpanOne(pre + [f], u);
    assert pre + [f] + [u] == pre + [f, u];
  }

  lemma OneRun(f: Chunk)
    requires !f.used
    ensures IsRun([f], f.size)
  {
    OneSpan(f);
  }

  lemma ScanExhausted(cs0: seq<Chunk>, cs: seq<Chunk>, request: nat, done: seq<Chunk>, pre: seq<Chunk>,
    post: seq<Chunk>, p: nat, run: seq<Chunk>, size: nat)
    requires Scanned(cs0, cs, request, done, pre, post, p) && post == run + [] && IsRun(run, size) && size < request
    ensures pre + [Chunk(size, false)] + [] == Norm(cs0)
    ensures FirstFit(Norm(cs0), request, 0) == None && EagerAlloc(Norm(cs0), request) == Norm(cs0)
  {
    hide Norm, IsRun, Span;
    PassRun(done, run, size);
    assert run + [] == run;
    Refused(pre + [Chunk(size, false)], request);
  }

  lemma ScanEnds(cs0: seq<Chunk>, cs: seq<Chunk>, request: nat, done: seq<Chunk>, pre: seq<Chunk>,
    post: seq<Chunk>, p: nat)
    requires Scanned(cs0, cs, request, done, pre, post, p) && p >= Span(cs)
    ensures cs == Norm(cs0) && FirstFit(Norm(cs0), request, 0) == None && EagerAlloc(Norm(cs0), request) == Norm(cs0)
  {
    hide Norm, Span;
    SpanConcat(pre, post);
    EmptySpan(post);
    assert done + [] == done;
    Refused(pre, request);
  }

  lemma ScanServes(cs0: seq<Chunk>, cs: seq<Chunk>, request: nat, done: seq<Chunk>, pre: seq<Chunk>,
    post: seq<Chunk>, p: nat, run: seq<Chunk>, size: nat, after: seq<Chunk>)
    requires Scanned(cs0, cs, request, done, pre, post, p) && post == run + after && IsRun(run, size)
    requires Smallest(run, request)
    ensures cs0 == done + run + after && Closed(done) && Closed(pre) && pre == Norm(done) && request <= size
    ensures NoFit(Norm(pre), request) && NoFit(Norm(done), request)
  {
    hide Norm, Span;
  }

  lemma {:induction false} NormUsed(a: seq<Chunk>, u: Chunk)
    requires u.used
    ensures Norm(a + [u]) == Norm(a) + [u]
  {
    if a == [] {
      assert a + [u] == [u] && [u][1..] == [];
    } else {
      NormUsed(a[1..], u);
      assert (a + [u])[0] == a[0] && (a + [u])[1..] == a[1..] + [u];
      if Norm(a[1..]) == [] {
        assert [] + [u] == [u];
      } else {
        PushConcat(a[0], Norm(a[1..]), [u]);
      }
    }
  }

  /** The scan passes a run of free chunks, which is merged. */
  lemma PassRun(done: seq<Chunk>, run: seq<Chunk>, size: nat)
    requires Closed(done) && IsRun(run, size)
    ensures Norm(done + run) == Norm(done) + [Chunk(size, false)]
  {
    hide Norm;
    NormClosed(done, run);
    NormRun(run, size);
  }

  lemma {:induction false} NormRun(run: seq<Chunk>, size: nat)
    requires IsRun(run, size)
    ensures Norm(run) == [Chunk(size, false)]
  {
    if |run| == 1 {
      assert run == [run[0]] && run[1..] == [];
    } else {
      NormRun(run[1..], Span(run[1..]) - HEADER);
    }
  }

  /** What the inner loop of an allocation finds behind a free chunk. */
  datatype Outcome = Fits | Blocked | Exhausted

  /** Where a resize leaves the block. */
  datatype Answer = Block(at: Option<nat>) | MustMove

  class Pool {
    const mem: array<Word>
    var size: nat
    var free: Word
    ghost var chunks: seq<Chunk>

    /** The headers tile the arena exactly. */
    ghost predicate Valid()
      reads this, mem
    {
      size == mem.Length && 4 * size < USED_BIT && Tiles(mem[..], 0, chunks) && Span(chunks) == size
    }

    /** How far `free` is from the bytes that are really free, modulo 2^32. */
    ghost function Drift(): Word
      reads this
    {
      Wrap(free - 4 * FreeWords(chunks))
    }

    /** Words that belong to a block that was live keep their value. */
    twostate predicate PayloadKept()
      reads this, mem
    {
      forall w :: 0 <= w < mem.Length && old(Owned(chunks, 0, w)) ==> mem[w] == old(mem[w])
    }

    constructor (mem: array<Word>)
      requires 0 < mem.Length && 4 * mem.Length < USED_BIT
      modifies mem
      ensures this.mem == mem && Valid() && Drift() == 0
      ensures chunks == [Chunk(mem.Length - HEADER, false)]
    {
      this.mem := mem;
      size := mem.Length;
      free := 4 * mem.Length - 4;
      chunks := [Chunk(mem.Length - HEADER, false)];
      new;
      mem[0] := free % USED_BIT;
      OneSpan(chunks[0]);
      OneTile(mem[..], 0, chunks[0]);
    }

    /** The loop that merges the free chunk at `p` with its free successors until `request` fits. */
    method Coalesce(p: nat, request: nat, ghost pre: seq<Chunk>, ghost first: Chunk, ghost rest: seq<Chunk>)
      returns (out: Outcome, chunkSize: nat, ghost run: seq<Chunk>, ghost post: seq<Chunk>)
      requires Valid() && chunks == pre + [first] + rest && !first.used && p == Span(pre)
      modifies this, mem
      ensures Valid() && size == old(size) && Drift() == old(Drift())
      ensures chunks == pre + [Chunk(chunkSize, false)] + post && |post| <= |rest|
      ensures Norm(chunks) == Norm(old(chunks))
      ensures Live(chunks, 0) == old(Live(chunks, 0))
      ensures PayloadKept()
      ensures [first] + rest == run + post && IsRun(run, chunkSize)
      ensures out.Fits? ==> Smallest(run, request)
      ensures out.Blocked? ==> chunkSize < request && post != [] && post[0].used
      ensures out.Exhausted? ==> chunkSize < request && post == []
    {
      hide Tiles, Span, Norm, Live, FreeWords, SizeOf, IsUsed, Wrap;
      HeaderAt(mem[..], pre, first, rest);
      chunkSize := SizeOf(mem[p]);
      post := rest;
      run := [first];
      OneSpan(first);
      while chunkSize < request
        invariant Valid() && size == old(size) && Drift() == old(Drift())
        invariant chunks == pre + [Chunk(chunkSize, false)] + post && |post| <= |rest|
        invariant Norm(chunks) == Norm(old(chunks))
        invariant Live(chunks, 0) == old(Live(chunks, 0))
        invariant PayloadKept()
        invariant [first] + rest == run + post && IsRun(run, chunkSize) && (|run| > 1 ==> TooSmall(run, request))
        decreases |post|
      {
        ghost var here := Chunk(chunkSize, false);
        HeaderAt(mem[..], pre, here, post);
        var n := p + HEADER + chunkSize;
        if n < size && IsUsed(mem[n]) {
          return Blocked, chunkSize, run, post;
        } else if n >= size {
          return Exhausted, chunkSize, run, post;
        }
        ghost var before, was := mem[..], free;
        ghost var y, tail := post[0], post[1..];
        assert post == [y] + tail;
        free := Wrap(free + 4);
        mem[p] := mem[p] + mem[n] + 4;
        MergeStep(before, mem[..], pre, here, y, tail);
        ghost var merged := Chunk(chunkSize + HEADER + y.size, false);
        chunks := pre + [merged] + tail;
        WrapTwice((was as int) + 4, -4 * (FreeWords(chunks) as int));
        HeaderAt(mem[..], pre, merged, tail);
        RunOn(run, y, chunkSize, request);
        assert run + post == run + [y] + tail;
        chunkSize := SizeOf(mem[p]);
        run, post := run + [y], tail;
      }
      out := Fits;
    }

    /** Mark the free chunk at `p` used and set up the next chunk if it has space to spare. */
    method Take(p: nat, request: nat, chunkSize: nat, ghost pre: seq<Chunk>, ghost post: seq<Chunk>)
      returns (r: Option<nat>)
      requires Valid() && request <= chunkSize
      requires chunks == pre + [Chunk(chunkSize, false)] + post && p == Span(pre)
      requires Closed(pre) && NoFit(Norm(pre), request)
      modifies this, mem
      ensures Valid() && size == old(size) && Drift() == old(Drift())
      ensures r.Some? && chunks == pre + Carve(Chunk(chunkSize, false), request) + post
      ensures r == FirstFit(Norm(old(chunks)), request, 0)
      ensures Norm(chunks) == EagerAlloc(Norm(old(chunks)), request)
      ensures |chunks| <= |old(chunks)| + 1
      ensures PayloadKept()
    {
      hide Tiles, Span, Norm, Live, FreeWords, FirstFit, EagerAlloc, Carve, Wrap, SizeOf, IsUsed;
      ghost var f := Chunk(chunkSize, false);
      ghost var before := mem[..];
      HeaderAt(before, pre, f, post);
      mem[p] := 4 * request + USED_BIT;
      if chunkSize > request {
        mem[p + HEADER + request] := 4 * (chunkSize - request - HEADER);
        free := Wrap(free - 4);
      }
      free := Wrap(free - 4 * request);
      ghost var taken: int := request + if chunkSize > request then HEADER else 0;
      WrapTwice(old(free) - 4, -4 * (request as int));
      TakeStep(before, mem[..], pre, f, post, request);
      CarveLength(f, request);
      chunks := pre + Carve(f, request) + post;
      WrapTwice(old(free) - 4 * taken, -4 * (FreeWords(chunks) as int));
      r := Some(p + HEADER);
    }

    /**
     Allocation: the lazily coalescing scan returns exactly what first fit over the coalesced arena
     returns, and leaves the same coalesced arena behind.
     */
    method Alloc(request: nat) returns (r: Option<nat>)
      requires Valid()
      modifies this, mem
      ensures Valid() && size == old(size) && Drift() == old(Drift())
      ensures r == FirstFit(Norm(old(chunks)), request, 0)
      ensures Norm(chunks) == EagerAlloc(Norm(old(chunks)), request)
      ensures |chunks| <= |old(chunks)| + 1
      ensures r.None? ==> chunks == Norm(old(chunks))
      ensures r.Some? ==> exists pre, run, post :: Lazily(old(chunks), chunks, request, pre, run, post)
      ensures PayloadKept()
    {
      hide Tiles, Span, Norm, Live, FreeWords, FirstFit, EagerAlloc, Carve, SizeOf, IsUsed, Wrap, Scanned, Lazily,
        IsRun, Smallest;
      var p := 0;
      ghost var done, pre, post := [], [], chunks;
      ScanStarts(chunks, request);
      while p < size
        invariant Valid() && size == old(size) && Drift() == old(Drift())
        invariant Scanned(old(chunks), chunks, request, done, pre, post, p) && |chunks| <= |old(chunks)|
        invariant Norm(chunks) == Norm(old(chunks))
        invariant Live(chunks, 0) == old(Live(chunks, 0))
        invariant PayloadKept()
        decreases size - p
      {
        ScanIsAt(old(chunks), chunks, request, done, pre, post, p);
        ghost var c, rest := post[0], post[1..];
        HeaderAt(mem[..], pre, c, rest);
        var chunkSize := SizeOf(mem[p]);
        if IsUsed(mem[p]) {
          ScanPassesUsed(old(chunks), chunks, request, done, pre, post, p);
          done, pre, post := done + [c], pre + [c], rest;
        } else {
          ghost var cs := chunks;
          var out, n, run, after := Coalesce(p, request, pre, c, rest);
          assert post == [c] + rest;
          HeaderAt(mem[..], pre, Chunk(n, false), after);
          if out.Exhausted? {
            ScanExhausted(old(chunks), cs, request, done, pre, post, p, run, n);
            return None;
          } else if out.Fits? {
            ScanServes(old(chunks), cs, request, done, pre, post, p, run, n, after);
            r := Take(p, request, n, pre, after);
            LazilyWhen(old(chunks), chunks, request, done, run, after, n);
            return;
          }
          p := p + HEADER + n;
          chunkSize := SizeOf(mem[p]);
          ScanPassesRun(old(chunks), cs, chunks, request, done, pre, post, run, n, after);
          done, pre, post := done + run + [after[0]], pre + [Chunk(n, false), after[0]], after[1..];
        }
        p := p + HEADER + chunkSize;
      }
      ScanEnds(old(chunks), chunks, request, done, pre, post, p);
      r := None;
    }

    /**
     Release.  `behind` is what the word behind the arena holds, which the source reads as a header when
     the block is the last chunk.  If a chunk follows, or that word has its top bit set, the block stops
     being live and a free chunk behind it is merged at once; otherwise, and only then, the headers tile
     the arena no more with the other blocks live.
     */
    method Free(block: Option<nat>, behind: Word)
      requires Valid() && (block.Some? ==> exists n :: (block.value, n) in Live(chunks, 0))
      modifies this, mem
      ensures block.None? ==> Valid() && size == old(size) && chunks == old(chunks) && Drift() == old(Drift())
      ensures block.Some? && old(Freeable(chunks, block.value, IsUsed(behind))) ==>
        Valid() && size == old(size) && Drift() == old(Drift()) &&
        Norm(chunks) == Norm(Release(Norm(old(chunks)), 0, block.value))
      ensures block.Some? && old(Freeable(chunks, block.value, IsUsed(behind))) ==>
        forall i :: IsBlock(old(chunks), i, block.value) ==>
          var cs, c := old(chunks), old(chunks[i]);
          if i + 1 < |cs| && !cs[i + 1].used then
            chunks == cs[..i] + [Chunk(c.size + HEADER + cs[i + 1].size, false)] + cs[i + 2..] &&
            free == Wrap(old(free) + 4 * c.size + 4)
          else
            chunks == cs[..i] + [Chunk(c.size, false)] + cs[i + 1..] && free == Wrap(old(free) + 4 * c.size)
      ensures block.Some? && !old(Freeable(chunks, block.value, IsUsed(behind))) ==>
        !exists cs: seq<Chunk> :: Tiles(mem[..], 0, cs) && Span(cs) == mem.Length &&
          forall n :: (block.value, n) !in Live(cs, 0)
      ensures PayloadKept()
    {
      hide Tiles, Span, Norm, Live, FreeWords, Release, Owned, Wrap, IsUsed, Freeable;
      if block.None? {
        return;
      }
      ghost var n :| (block.value, n) in Live(chunks, 0);
      ghost var i := FindBlock(chunks, 0, block.value, n);
      CutAt(chunks, i);
      ghost var pre, c, post := chunks[..i], chunks[i], chunks[i + 1..];
      FreeableIs(chunks, i, block.value, IsUsed(behind));
      MarkFree(block.value - HEADER, pre, c, post);
      ghost var middle := mem[..];
      MergeNext(block.value - HEADER, pre, Chunk(c.size, false), post, behind);
      ghost var cs := old(chunks);
      assert post != [] ==> post[0] == cs[i + 1] && post[1..] == cs[i + 2..];
      WrapTwice(old(free) + 4 * c.size, 4);
      forall j | IsBlock(cs, j, block.value)
        ensures j == i
      {
        OneIndex(cs, i, j, block.value);
      }
      if post == [] && !IsUsed(behind) {
        BeforeLast(middle, mem[..], pre, Chunk(c.size, false), post);
        forall cs: seq<Chunk> | Tiles(mem[..], 0, cs) && Span(cs) == mem.Length
          ensures (block.value, (if |pre| < |cs| then cs[|pre|].size else 0)) in Live(cs, 0)
        {
          Overrun(mem[..], pre, c.size, behind, cs);
        }
      }
    }

    /** Clear the used bit of the header at `p` and count its payload. */
    method MarkFree(p: nat, ghost pre: seq<Chunk>, ghost c: Chunk, ghost post: seq<Chunk>)
      requires Valid() && chunks == pre + [c] + post && c.used && p == Span(pre)
      modifies this, mem
      ensures Valid() && size == old(size) && Drift() == old(Drift())
      ensures chunks == pre + [Chunk(c.size, false)] + post && free == Wrap(old(free) + 4 * c.size)
      ensures Norm(chunks) == Norm(Release(Norm(old(chunks)), 0, p + HEADER))
      ensures !old(Owned(chunks, 0, p)) && forall w :: 0 <= w < mem.Length && w != p ==> mem[w] == old(mem[w])
    {
      hide Tiles, Span, Norm, Live, FreeWords, Release, Owned, Wrap;
      ghost var before := mem[..];
      HeaderAt(before, pre, c, post);
      mem[p] := mem[p] % USED_BIT;
      free := Wrap(free + mem[p]);
      FreeStep(before, mem[..], pre, c, post);
      chunks := pre + [Chunk(c.size, false)] + post;
      WrapTwice(old(free) + 4 * c.size, -4 * (FreeWords(chunks) as int));
    }

    /** Merge the free chunk at `p` with the next chunk, if that, or the word behind the arena, reads as free. */
    method MergeNext(p: nat, ghost pre: seq<Chunk>, ghost c: Chunk, ghost post: seq<Chunk>, behind: Word)
      requires Valid() && chunks == pre + [c] + post && !c.used && p == Span(pre)
      modifies this, mem
      ensures post != [] || IsUsed(behind) ==>
        Valid() && size == old(size) && Drift() == old(Drift()) && Norm(chunks) == Norm(old(chunks))
      ensures post != [] && !post[0].used ==>
        chunks == pre + [Chunk(c.size + HEADER + post[0].size, false)] + post[1..] && free == Wrap(old(free) + 4)
      ensures (if post != [] then post[0].used else IsUsed(behind)) ==> unchanged(this) && unchanged(mem)
      ensures post == [] && !IsUsed(behind) ==> p < mem.Length && mem[p] == 4 * c.size + behind + 4
      ensures forall w :: 0 <= w < mem.Length && w != p ==> mem[w] == old(mem[w])
    {
      hide Tiles, Span, Norm, Live, FreeWords, Release, Owned, Wrap, IsUsed;
      HeaderAt(mem[..], pre, c, post);
      var o := p + HEADER + SizeOf(mem[p]);
      var next := if o < size then mem[o] else behind;
      if !IsUsed(next) {
        NotUsed(next);
        ghost var middle := mem[..];
        mem[p] := mem[p] + next + 4;
        free := Wrap(free + 4);
        if o < size {
          ghost var y, tail := post[0], post[1..];
          assert post == [y] + tail;
          MergeStep(middle, mem[..], pre, c, y, tail);
          chunks := pre + [Chunk(c.size + HEADER + y.size, false)] + tail;
          WrapTwice(old(free) + 4, -4 * (FreeWords(chunks) as int));
        }
      }
    }

    method Shrink(block: nat, request: nat, chunkSize: nat, ghost pre: seq<Chunk>, ghost post: seq<Chunk>)
      returns (r: Answer, ghost newSize: nat)
      requires Valid() && chunks == pre + [Chunk(chunkSize, true)] + post && block == Span(pre) + HEADER
      requires request < chunkSize
      modifies this, mem
      ensures Valid() && size == old(size) && Drift() == old(Drift())
      ensures r == Block(Some(block)) && newSize == if chunkSize - request <= 2 then chunkSize else request
      ensures chunks == pre +
        (if chunkSize - request <= 2 then [Chunk(chunkSize, true)]
         else [Chunk(request, true), Chunk(chunkSize - request - HEADER, false)]) + post
      ensures Live(chunks, 0) == old(Live(chunks, 0)) - {(block, chunkSize)} + {(block, newSize)}
      ensures forall w :: 0 <= w < mem.Length && old(Owned(chunks, 0, w)) && !(block + request <= w < block + chunkSize)
                ==> mem[w] == old(mem[w])
    {
      hide Tiles, Span, Norm, Live, FreeWords, Release, Owned, Wrap, Carve;
      r := Block(Some(block));
      var p, diff := block - HEADER, chunkSize - request;
      ghost var c := Chunk(chunkSize, true);
      ghost var before := mem[..];
      HeaderAt(before, pre, c, post);
      if diff <= 2 {
        ResizedLive(pre, [c], [c], post);
        return r, chunkSize;
      }
      mem[block + request] := (mem[p] - 4 * request - 4) % USED_BIT;
      mem[p] := 4 * request + USED_BIT;
      free := Wrap(free + 4 * diff - 4);
      newSize := request;
      ShrinkStep(before, mem[..], pre, c, post, request);
      CarveShape(c, request);
      chunks := pre + Carve(c, request) + post;
      WrapTwice(old(free) + 4 * diff - 4, -4 * (FreeWords(chunks) as int));
    }

    method Grow(block: nat, request: nat, chunkSize: nat, ghost pre: seq<Chunk>, ghost post: seq<Chunk>)
      returns (r: Answer, ghost newSize: nat)
      requires Valid() && chunks == pre + [Chunk(chunkSize, true)] + post && block == Span(pre) + HEADER
      requires post != [] && !post[0].used && chunkSize <= request < chunkSize + HEADER + post[0].size
      modifies this, mem
      ensures Valid() && size == old(size)
      ensures Drift() == Wrap(old(Drift()) - if request == chunkSize + post[0].size then 4 else 0)
      ensures var total := chunkSize + HEADER + post[0].size;
        && r == Block(Some(block)) && newSize == (if total - request <= 2 then total else request)
        && chunks == pre + (if total - request <= 2 then [Chunk(total, true)]
             else [Chunk(request, true), Chunk(total - request - HEADER, false)]) + post[1..]
      ensures Live(chunks, 0) == old(Live(chunks, 0)) - {(block, chunkSize)} + {(block, newSize)}
      ensures PayloadKept()
    {
      hide Tiles, Span, Norm, Live, FreeWords, Release, Owned, Wrap, Carve, SizeOf, IsUsed;
      r := Block(Some(block));
      var p, o, diff := block - HEADER, block + chunkSize, request - chunkSize;
      ghost var c, y, tail := Chunk(chunkSize, true), post[0], post[1..];
      ghost var before, cs := mem[..], chunks;
      HeaderAt(before, pre, c, post);
      assert cs == pre + [c, y] + tail;
      ghost var all := Chunk(chunkSize + HEADER + y.size, true);
      DecodeEncode(all);
      mem[p] := mem[p] + 4 * SizeOf(mem[o]) + 4;
      var rest := SizeOf(mem[p]) - request;
      free := Wrap(free - 4 * diff);
      ghost var mid := [all];
      if rest <= 2 {
        free := Wrap(free - 4);
        WrapTwice(old(free) - 4 * diff, -4);
      } else {
        mem[block + request] := 4 * (rest - HEADER);
        mem[p] := 4 * request + USED_BIT;
        CarveShape(all, request);
        mid := Carve(all, request);
      }
      GrowStep(before, mem[..], pre, c, y, tail, request, mid);
      newSize := mid[0].size;
      chunks := pre + mid + tail;
      ghost var spent: int := diff + if rest <= 2 then 1 else 0;
      WrapTwice(old(free) - 4 * spent, -4 * (FreeWords(chunks) as int));
      WrapTwice(old(free) - 4 * FreeWords(cs), if request == chunkSize + y.size then -4 else 0);
    }

    /**
     Resize without moving.  The block keeps its address and the words that both sizes share, every
     other block keeps its place and its words, and the arena stays tiled.  The counter `free` goes
     wrong in one case only: growth that uses up exactly the payload of the next chunk.
     */
    method Resize(block: nat, request: nat, behind: Word, ghost i: int) returns (r: Answer, ghost newSize: nat)
      requires Valid() && IsBlock(chunks, i, block) && !GrowsBehind(chunks, i, request, behind)
      modifies this, mem
      ensures Valid() && size == old(size)
      ensures r.MustMove? <==> old(chunks[i].size <= request &&
                (i + 1 == |chunks| || chunks[i + 1].used || request >= chunks[i].size + HEADER + chunks[i + 1].size))
      ensures r.MustMove? ==> unchanged(this) && unchanged(mem)
      ensures r.Block? ==> r.at == Some(block) && request <= newSize <= request + 2
      ensures r.Block? ==> Cut(old(chunks), chunks, i, request, newSize)
      ensures r.Block? ==> Live(chunks, 0) == old(Live(chunks, 0)) - {(block, old(chunks[i].size))} + {(block, newSize)}
      ensures forall w :: 0 <= w < mem.Length && old(Owned(chunks, 0, w)) &&
                !(block + request <= w < block + old(chunks[i].size))
                ==> mem[w] == old(mem[w])
      ensures Drift() == Wrap(old(Drift()) -
                if r.Block? && old(i + 1 < |chunks| && request == chunks[i].size + chunks[i + 1].size) then 4 else 0)
    {
      hide Tiles, Span, Norm, Live, FreeWords, Release, Owned, Wrap, Carve, SizeOf, IsUsed;
      CutAt(chunks, i);
      ghost var pre, c, post := chunks[..i], chunks[i], chunks[i + 1..];
      HeaderAt(mem[..], pre, c, post);
      var p := block - HEADER;
      var chunkSize := SizeOf(mem[p]);
      if request < chunkSize {
        r, newSize := Shrink(block, request, chunkSize, pre, post);
        WrapId(Drift());
      } else {
        var o := block + chunkSize;
        var next := if o < size then mem[o] else behind;
        if IsUsed(next) || 4 * (request - chunkSize) >= next + 4 {
          MustMoveWhen(chunks, i, request, next, behind);
          WrapId(Drift());
          return MustMove, chunkSize;
        }
        r, newSize := Grow(block, request, chunkSize, pre, post);
      }
    }

    /** The entry point of a resize: no block is an allocation, no size a release. */
    method Realloc(block: Option<nat>, request: nat, behind: Word, ghost i: int) returns (r: Answer, ghost newSize: nat)
      requires Valid()
      requires block.Some? ==> IsBlock(chunks, i, block.value) && !Overruns(chunks, i, request, behind)
      modifies this, mem
      ensures Valid() && size == old(size)
      ensures block.None? ==> r == Block(FirstFit(Norm(old(chunks)), request, 0)) &&
                              Norm(chunks) == EagerAlloc(Norm(old(chunks)), request)
      ensures block.Some? && request == 0 ==>
                r == Block(None) && Norm(chunks) == Norm(Release(Norm(old(chunks)), 0, block.value))
      ensures block.Some? && request > 0 ==>
        r == Block(block) || (r == MustMove && chunks == old(chunks) && mem[..] == old(mem[..]))
      ensures block.None? ==>
        Live(chunks, 0) == old(Live(chunks, 0)) + if r.at.Some? then {(r.at.value, request)} else {}
      ensures block.Some? && request == 0 ==> Live(chunks, 0) == old(Live(chunks, 0) - {(block.value, chunks[i].size)})
      ensures block.Some? && request > 0 && r != MustMove ==>
        request <= newSize <= request + 2 && Cut(old(chunks), chunks, i, request, newSize) &&
        Live(chunks, 0) == old(Live(chunks, 0) - {(block.value, chunks[i].size)}) + {(block.value, newSize)}
      ensures block.Some? && request > 0 && r != MustMove ==>
        forall w :: block.value <= w < block.value + Min(request, old(chunks[i].size)) && w < mem.Length ==>
          mem[w] == old(mem[w])
      ensures block.None? || request == 0 ==> Drift() == old(Drift())
      ensures Keeps(old(State(mem[..], chunks)), State(mem[..], chunks), block)
    {
      hide Tiles, Span, Norm, Live, Release, Owned, EagerAlloc, FirstFit, FreeWords, IsBlock, Keeps, Drift;
      ghost var was := State(mem[..], chunks);
      newSize := 0;
      if block.None? {
        var a := Alloc(request);
        r := Block(a);
        AllocLive(was.chunks, chunks, request);
        KeepsWhen(was, State(mem[..], chunks), block, 0, 0, 0);
      } else if request == 0 {
        BlockIndex(chunks, i, block.value);
        BlockIsLive(chunks, i, block.value);
        FreeableIs(chunks, i, block.value, IsUsed(behind));
        Free(block, behind);
        r := Block(None);
        FreeLive(was.chunks, chunks, block.value, was.chunks[i].size);
        KeepsWhen(was, State(mem[..], chunks), block, 0, 0, 0);
      } else {
        BlockIndex(chunks, i, block.value);
        BlockIsLive(chunks, i, block.value);
        r, newSize := Resize(block.value, request, behind, i);
        ghost var size := was.chunks[i].size;
        KeepsWhen(was, State(mem[..], chunks), block, size, block.value + request, block.value + size);
        OwnedBlock(was.chunks, block.value, size);
      }
    }

    /** Any run of allocations and releases keeps step with the eagerly coalescing allocator. */
    method Replay(ops: seq<Op>, behind: Word)
      requires Valid() && Legal(Norm(chunks), ops, IsUsed(behind))
      modifies this, mem
      ensures Valid() && size == old(size) && Drift() == old(Drift())
      ensures Norm(chunks) == EagerRun(Norm(old(chunks)), ops)
      ensures Live(chunks, 0) == Live(EagerRun(Norm(old(chunks)), ops), 0) && Separate(mem[..], chunks)
    {
      hide Tiles, Span, Norm, Live, FreeWords, Release, Owned, Wrap, EagerAlloc, FirstFit, Separate;
      var k := 0;
      assert ops[0..] == ops;
      while k < |ops|
        invariant 0 <= k <= |ops|
        invariant Valid() && size == old(size) && Drift() == old(Drift())
        invariant Legal(Norm(chunks), ops[k..], IsUsed(behind))
        invariant EagerRun(Norm(chunks), ops[k..]) == EagerRun(Norm(old(chunks)), ops)
        decreases |ops| - k
      {
        assert ops[k..][0] == ops[k] && ops[k..][1..] == ops[k + 1..];
        match ops[k] {
          case DoAlloc(request) =>
            var r := Alloc(request);
          case DoFree(block) =>
            NormLive(chunks, 0);
            NormSpan(chunks);
            Free(Some(block), behind);
        }
        k := k + 1;
      }
      NormLive(chunks, 0);
      TiledIsSeparate(mem[..], chunks);
    }
  }
}
