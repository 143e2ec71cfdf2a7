/** Whole runs of a memory pool: any calls in any order, with the client writing to its blocks in between. */
module MpoolRuns {
  import opened Options
  import opened Chunks
  import opened Mpool

  /** What a client may do. `Store` is its own write to word `at` of a block that it holds. */
  datatype Call =
    | Alloc(request: nat)
    | Free(block: nat)
    | Resize(block: nat, request: nat)
    | Store(block: nat, at: nat, value: Word)

  /** Either nothing was done, or the pool has answered. */
  datatype Reply = NotMade | Made(answer: Answer)

  /**
   The calls that are not made: one that names no live block, and one that names the last chunk and for
   which the source would take `behind`, the word behind the arena, for a free chunk to merge with.
   That is a release, or a resize to no less than the block's size by less than that chunk offers.
   */
  ghost predicate Refused(cs: seq<Chunk>, c: Call, behind: Word) {
    Named(c).Some? &&
    ((forall n :: (Named(c).value, n) !in Live(cs, 0)) ||
     exists n :: (Named(c).value, n) in Live(cs, 0) && Named(c).value + n == Span(cs) && Merges(c, n, behind))
  }

  /** The call `c` on a last block of `n` words would merge it with what lies behind the arena. */
  predicate Merges(c: Call, n: nat, behind: Word) {
    !IsUsed(behind) &&
    match c
    case Free(_) => true
    case Resize(_, request) => request == 0 || (n <= request && 4 * (request - n) < behind + 4)
    case _ => false
  }

  /** The block that a call names. */
  function Named(c: Call): Option<nat> {
    match c
    case Alloc(_) => None
    case Free(block) => Some(block)
    case Resize(block, _) => Some(block)
    case Store(block, _, _) => Some(block)
  }

  /** What one call does to the live blocks and to the words of the block that it names. */
  ghost predicate Effect(a: State, b: State, c: Call, r: Reply, behind: Word) {
    && Keeps(a, b, Named(c))
    && (r.NotMade? <==> Refused(a.chunks, c, behind))
    && (r.NotMade? ==> b == a)
    && (r.Made? && Named(c).Some? ==>
          exists n :: (Named(c).value, n) in Live(a.chunks, 0) && NamedEffect(a, b, c, r.answer, n))
    && (r.Made? && Named(c).None? ==>
          && r.answer == Block(FirstFit(Norm(a.chunks), c.request, 0))
          && Live(b.chunks, 0) == Live(a.chunks, 0) + if r.answer.at.Some? then {(r.answer.at.value, c.request)}
             else {})
  }

  /** What becomes of the named block, of size `n`. */
  ghost predicate NamedEffect(a: State, b: State, c: Call, answer: Answer, n: nat)
    requires Named(c).Some?
  {
    var block := Named(c).value;
    match c
    case Free(_) => answer == Block(None) && Live(b.chunks, 0) == Live(a.chunks, 0) - {(block, n)}
    case Resize(_, request) =>
      if request == 0 then answer == Block(None) && Live(b.chunks, 0) == Live(a.chunks, 0) - {(block, n)}
      else if answer == MustMove then b == a
      else
        answer == Block(Some(block)) &&
        exists m: nat :: request <= m <= request + 2 && Resized(a, b, block, n, m, request)
    case Store(_, at, value) =>
      && answer == Block(Some(block)) && b.chunks == a.chunks
      && (if at < n && block + at < |a.mem| then b.mem == a.mem[block + at := value] else b.mem == a.mem)
    case Alloc(_) => false
  }

  ghost predicate Resized(a: State, b: State, block: nat, n: nat, m: nat, request: nat) {
    && Live(b.chunks, 0) == Live(a.chunks, 0) - {(block, n)} + {(block, m)}
    && forall w :: block <= w < block + n && w < block + request && w < |a.mem| && w < |b.mem| ==> b.mem[w] == a.mem[w]
  }

  // -------------------------------------------------------------------------
  // One call

  lemma SpanStep(cs: seq<Chunk>, k: nat)
    requires k < |cs|
    ensures Span(cs[..k + 1]) == Span(cs[..k]) + HEADER + cs[k].size
  {
    hide Span, FreeWords;
    assert cs[..k + 1] == cs[..k] + [cs[k]];
    SpanConcat(cs[..k], [cs[k]]);
    OneSpan(cs[k]);
  }

  lemma {:induction false} SpanGrows(cs: seq<Chunk>, k: nat, i: nat)
    requires k <= i <= |cs|
    ensures Span(cs[..k]) <= Span(cs[..i]) && (k < i ==> Span(cs[..k]) < Span(cs[..i]))
    decreases i
  {
    hide Span;
    if k < i {
      SpanGrows(cs, k, i - 1);
      SpanStep(cs, i - 1);
    }
  }

  /** Walk the headers: is `block` a live block, of what size, and is it the last chunk? */
  method Locate(p: Pool, block: nat) returns (found: bool, size: nat, last: bool, ghost i: int)
    requires p.Valid()
    ensures found <==> exists n :: (block, n) in Live(p.chunks, 0)
    ensures found ==> IsBlock(p.chunks, i, block) && 0 <= i < |p.chunks| && p.chunks[i].size == size
    ensures found ==>
      (block, size) in Live(p.chunks, 0) && last == (i + 1 == |p.chunks|) == (block + size == Span(p.chunks))
  {
    hide Tiles, Span, Live, FreeWords, Norm, SizeOf, IsUsed, IsBlock;
    ghost var cs := p.chunks;
    ghost var t := Target(cs, block);
    var q := 0;
    ghost var k := 0;
    StartOfArena(cs);
    while q < p.size && q + HEADER < block
      invariant 0 <= k <= |cs| && q == Span(cs[..k]) && (t >= 0 ==> k <= t)
      decreases |cs| - k
    {
      NotTheEnd(cs, k);
      CutAt(cs, k);
      HeaderAt(p.mem[..], cs[..k], cs[k], cs[k + 1..]);
      SpanStep(cs, k);
      if t >= 0 && k == t {
        TargetFacts(cs, block, t);
        assert false;
      }
      q := q + HEADER + SizeOf(p.mem[q]);
      k := k + 1;
    }
    found, size, last, i := false, 0, false, k;
    if q < p.size && q + HEADER == block {
      NotTheEnd(cs, k);
      CutAt(cs, k);
      HeaderAt(p.mem[..], cs[..k], cs[k], cs[k + 1..]);
      size := SizeOf(p.mem[q]);
      found := IsUsed(p.mem[q]);
      last := q + HEADER + size == p.size;
    }
    AllPassed(cs, k);
    LocateDone(cs, block, t, k, found);
  }

  /** The index of the block, or -1. */
  lemma Target(cs: seq<Chunk>, block: nat) returns (t: int)
    ensures (exists n :: (block, n) in Live(cs, 0)) <==> t >= 0
    ensures t >= 0 ==> IsBlock(cs, t, block)
  {
    hide Live, Span;
    t := -1;
    if n :| (block, n) in Live(cs, 0) {
      t := FindBlock(cs, 0, block, n);
    }
  }

  lemma TargetFacts(cs: seq<Chunk>, block: nat, t: int)
    requires IsBlock(cs, t, block)
    ensures 0 <= t < |cs| && cs[t].used && Span(cs[..t]) + HEADER == block
  {
  }

  lemma StartOfArena(cs: seq<Chunk>)
    ensures Span(cs[..0]) == 0
  {
  }

  lemma NotTheEnd(cs: seq<Chunk>, k: nat)
    requires k <= |cs| && Span(cs[..k]) < Span(cs)
    ensures k < |cs|
  {
    assert cs[..|cs|] == cs;
  }

  lemma AllPassed(cs: seq<Chunk>, k: nat)
    requires k <= |cs|
    ensures k < |cs| ==> Span(cs[..k]) < Span(cs)
  {
    hide Span;
    SpanGrows(cs, k, |cs|);
    assert cs[..|cs|] == cs;
  }

  /** A live block is the last chunk exactly if it reaches the end of the arena. */
  lemma LastIs(cs: seq<Chunk>, k: nat, block: nat)
    requires IsBlock(cs, k, block)
    ensures (block, cs[k].size) in Live(cs, 0) && (k + 1 == |cs| <==> block + cs[k].size == Span(cs))
  {
    hide Live, Span;
    BlockIsLive(cs, k, block);
    SpanStep(cs, k);
    assert cs[..|cs|] == cs;
    SpanGrows(cs, k + 1, |cs|);
  }

  lemma LocateDone(cs: seq<Chunk>, block: nat, t: int, k: nat, found: bool)
    requires k <= |cs| && (t >= 0 ==> IsBlock(cs, t, block) && k <= t)
    requires Span(cs[..k]) >= Span(cs) || Span(cs[..k]) + HEADER >= block
    requires found <==> k < |cs| && Span(cs[..k]) + HEADER == block && cs[k].used
    requires (exists n :: (block, n) in Live(cs, 0)) <==> t >= 0
    ensures found <==> t >= 0
    ensures found ==> IsBlock(cs, k, block) && (block, cs[k].size) in Live(cs, 0)
    ensures found ==> (k + 1 == |cs| <==> block + cs[k].size == Span(cs))
  {
    hide Live, Span;
    if found {
      LastIs(cs, k, block);
    }
    if t >= 0 {
      SpanStep(cs, t);
      SpanGrows(cs, k, t);
      SpanGrows(cs, t + 1, |cs|);
      assert cs[..|cs|] == cs;
    }
  }

  /** A write to a word of a payload is not a write to a header. */
  lemma {:induction false} PayloadWrite(mem: seq<Word>, at: nat, cs: seq<Chunk>, x: (nat, nat), w: nat, v: Word)
    requires Tiles(mem, at, cs) && x in Live(cs, at) && x.0 <= w < x.0 + x.1 && w < |mem|
    ensures Tiles(mem[w := v], at, cs)
    decreases |cs|
  {
    var c, rest, next := cs[0], cs[1..], at + HEADER + cs[0].size;
    if c.used && x == (at + HEADER, c.size) {
      TilesFrame(mem, mem[w := v], next, rest);
    } else {
      LiveInSpan(rest, next, x);
      PayloadWrite(mem, next, rest, x, w, v);
    }
  }

  /** A write to a block keeps the words of every other block. */
  lemma StoreKeeps(a: State, block: nat, n: nat, at: nat, v: Word)
    requires Tiles(a.mem, 0, a.chunks) && Span(a.chunks) == |a.mem| && (block, n) in Live(a.chunks, 0) && at < n
    ensures block + at < |a.mem|
    ensures Keeps(a, State(a.mem[block + at := v], a.chunks), Some(block))
  {
    hide Tiles, Span, Live;
    LiveInSpan(a.chunks, 0, (block, n));
    PayloadWrite(a.mem, 0, a.chunks, (block, n), block + at, v);
    KeepsWhen(a, State(a.mem[block + at := v], a.chunks), Some(block), n, block + at, block + at + 1);
  }

  lemma NothingKeeps(a: State, named: Option<nat>)
    requires Tiles(a.mem, 0, a.chunks) && Span(a.chunks) == |a.mem|
    ensures Keeps(a, a, named)
  {
    hide Tiles, Span, Live;
    KeepsWhen(a, a, named, 0, 0, 0);
  }

  ghost function Now(p: Pool): State
    reads p, p.mem
  {
    State(p.mem[..], p.chunks)
  }

  /** One call of a client, through `mpool_realloc`; `behind` is what the word behind the arena holds then. */
  method Perform(p: Pool, c: Call, behind: Word) returns (r: Reply)
    requires p.Valid()
    modifies p, p.mem
    ensures p.Valid() && p.size == old(p.size) && Effect(old(Now(p)), Now(p), c, r, behind)
    ensures !c.Resize? ==> p.Drift() == old(p.Drift())
  {
    hide Tiles, Span, Live, Norm, Keeps, FirstFit, EagerAlloc, Release, IsBlock, Pool.Drift, Merges;
    match c {
      case Alloc(request) =>
        var answer;
        ghost var m;
        answer, m := p.Realloc(None, request, behind, 0);
        r := Made(answer);
      case Free(block) =>
        r := PerformOn(p, c, block, 0, behind);
      case Resize(block, request) =>
        r := PerformOn(p, c, block, request, behind);
      case Store(block, at, value) =>
        r := PerformStore(p, block, at, value, behind);
    }
  }

  /** A release or a resize, if the block is there and the call does not reach behind the arena. */
  method PerformOn(p: Pool, c: Call, block: nat, request: nat, behind: Word) returns (r: Reply)
    requires p.Valid() && ((c == Free(block) && request == 0) || c == Resize(block, request))
    modifies p, p.mem
    ensures p.Valid() && p.size == old(p.size) && Effect(old(Now(p)), Now(p), c, r, behind)
    ensures request == 0 ==> p.Drift() == old(p.Drift())
  {
    hide Tiles, Span, Live, Norm, Keeps, FirstFit, EagerAlloc, Release, IsBlock, Pool.Drift, Merges, Refused, Overruns;
    ghost var was := Now(p);
    var found, size, last;
    ghost var i;
    found, size, last, i := Locate(p, block);
    NothingKeeps(was, Some(block));
    if found {
      RefusedIs(p.chunks, c, block, size, behind);
    } else {
      RefusedUnknown(p.chunks, c, behind);
    }
    if !found || (last && Merges(c, size, behind)) {
      return NotMade;
    }
    MergesIs(p.chunks, i, c, block, request, behind);
    var answer;
    ghost var m;
    answer, m := p.Realloc(Some(block), request, behind, i);
    r := Made(answer);
    NamedIs(was, Now(p), c, answer, block, size, m, request);
  }

  /** Of a live block, only its being last and the word behind it decide. */
  lemma RefusedIs(cs: seq<Chunk>, c: Call, block: nat, n: nat, behind: Word)
    requires Named(c) == Some(block) && (block, n) in Live(cs, 0)
    ensures Refused(cs, c, behind) <==> block + n == Span(cs) && Merges(c, n, behind)
  {
    hide Live, Span, Merges;
    OneSize(cs, block, n);
  }

  lemma RefusedUnknown(cs: seq<Chunk>, c: Call, behind: Word)
    requires Named(c).Some? && forall n :: (Named(c).value, n) !in Live(cs, 0)
    ensures Refused(cs, c, behind)
  {
    hide Live, Span, Merges;
  }

  lemma MergesIs(cs: seq<Chunk>, i: int, c: Call, block: nat, request: nat, behind: Word)
    requires 0 <= i < |cs| && ((c == Free(block) && request == 0) || c == Resize(block, request))
    requires !(i + 1 == |cs| && Merges(c, cs[i].size, behind))
    ensures !Overruns(cs, i, request, behind)
  {
    hide IsUsed;
  }

  lemma NamedIs(a: State, b: State, c: Call, answer: Answer, block: nat, n: nat, m: nat, request: nat)
    requires (c == Free(block) && request == 0) || c == Resize(block, request)
    requires request == 0 ==> answer == Block(None) && Live(b.chunks, 0) == Live(a.chunks, 0) - {(block, n)}
    requires request > 0 ==> answer == Block(Some(block)) || (answer == MustMove && b == a)
    requires request > 0 && answer != MustMove ==> request <= m <= request + 2 && Resized(a, b, block, n, m, request)
    ensures NamedEffect(a, b, c, answer, n)
  {
    hide Live, Resized;
    if request > 0 && answer != MustMove {
      assert request <= m <= request + 2 && Resized(a, b, block, n, m, request);
    }
  }

  /** The client's own write, if the block is there and the word is in it. */
  method PerformStore(p: Pool, block: nat, at: nat, value: Word, behind: Word) returns (r: Reply)
    requires p.Valid()
    modifies p.mem
    ensures p.Valid() && Effect(old(Now(p)), Now(p), Store(block, at, value), r, behind)
  {
    hide Tiles, Span, Live, Norm, Keeps, FirstFit, IsBlock, Refused;
    ghost var was := Now(p);
    var found, size, last;
    ghost var i;
    found, size, last, i := Locate(p, block);
    NothingKeeps(was, Some(block));
    if !found {
      RefusedUnknown(p.chunks, Store(block, at, value), behind);
      return NotMade;
    }
    RefusedIs(p.chunks, Store(block, at, value), block, size, behind);
    if at < size {
      StoreKeeps(was, block, size, at, value);
      PayloadInside(p.mem[..], p.chunks, (block, size), block + at, value);
      p.mem[block + at] := value;
      assert p.mem[..] == was.mem[block + at := value];
    }
    r := Made(Block(Some(block)));
    assert NamedEffect(was, Now(p), Store(block, at, value), r.answer, size);
  }

  lemma PayloadInside(mem: seq<Word>, cs: seq<Chunk>, x: (nat, nat), w: nat, v: Word)
    requires Tiles(mem, 0, cs) && Span(cs) == |mem| && x in Live(cs, 0) && x.0 <= w < x.0 + x.1
    ensures w < |mem| && Tiles(mem[w := v], 0, cs)
  {
    hide Tiles, Span, Live;
    LiveInSpan(cs, 0, x);
    PayloadWrite(mem, 0, cs, x, w, v);
  }

  // -------------------------------------------------------------------------
  // Any calls

  /** What the word behind the arena holds at each call. */
  type Outside = nat -> Word

  /** A run: each call takes one state to the next. */
  ghost predicate IsRun(states: seq<State>, calls: seq<Call>, replies: seq<Reply>, behind: Outside) {
    && |states| == |calls| + 1 && |replies| == |calls|
    && forall k :: 0 <= k < |calls| ==> Effect(states[k], states[k + 1], calls[k], replies[k], behind(k))
  }

  /** Make the calls one after the other. */
  method Run(p: Pool, calls: seq<Call>, behind: Outside) returns (replies: seq<Reply>, ghost states: seq<State>)
    requires p.Valid()
    modifies p, p.mem
    ensures p.Valid() && p.size == old(p.size) && IsRun(states, calls, replies, behind)
    ensures states[0] == old(Now(p)) && states[|calls|] == Now(p)
    ensures Separate(p.mem[..], p.chunks)
    ensures (forall k :: 0 <= k < |calls| ==> !calls[k].Resize?) ==> p.Drift() == old(p.Drift())
    ensures forall x :: x in old(Live(p.chunks, 0)) && Unnamed(calls, x.0, 0, |calls|) ==>
      x in Live(p.chunks, 0) && SameWords(old(p.mem[..]), p.mem[..], x)
  {
    hide Tiles, Span, Live, Effect, Separate, SameWords, Pool.Drift, Unnamed;
    replies, states := [], [Now(p)];
    for k := 0 to |calls|
      invariant p.Valid() && p.size == old(p.size) && |states| == k + 1 && |replies| == k
      invariant states[0] == old(Now(p)) && states[k] == Now(p)
      invariant forall j :: 0 <= j < k ==> Effect(states[j], states[j + 1], calls[j], replies[j], behind(j))
      invariant (forall j :: 0 <= j < k ==> !calls[j].Resize?) ==> p.Drift() == old(p.Drift())
    {
      var r := Perform(p, calls[k], behind(k));
      states, replies := states + [Now(p)], replies + [r];
    }
    TiledIsSeparate(p.mem[..], p.chunks);
    forall x | x in old(Live(p.chunks, 0)) && Unnamed(calls, x.0, 0, |calls|)
      ensures x in Live(p.chunks, 0) && SameWords(old(p.mem[..]), p.mem[..], x)
    {
      InArena(old(p.chunks), x);
      Survives(states, calls, replies, behind, x, 0, |calls|);
    }
  }

  lemma InArena(cs: seq<Chunk>, x: (nat, nat))
    requires x in Live(cs, 0)
    ensures x.0 + x.1 <= Span(cs)
  {
    hide Span, Live;
    LiveInSpan(cs, 0, x);
  }

  /** None of the calls from `i` up to `j` names the block. */
  ghost predicate Unnamed(calls: seq<Call>, block: nat, i: nat, j: nat) {
    forall k :: i <= k < j && k < |calls| ==> Named(calls[k]) != Some(block)
  }

  /** A block that no call names stays live where it is, with every word of its payload. */
  lemma {:induction false} Survives(states: seq<State>, calls: seq<Call>, replies: seq<Reply>, behind: Outside,
                                    x: (nat, nat), i: nat, j: nat)
    requires IsRun(states, calls, replies, behind) && i <= j <= |calls| && Unnamed(calls, x.0, i, j)
    requires x in Live(states[i].chunks, 0) && x.0 + x.1 <= |states[i].mem|
    ensures x in Live(states[j].chunks, 0) && SameWords(states[i].mem, states[j].mem, x)
    decreases j
  {
    hide Live, Norm, FirstFit, Tiles, Span, NamedEffect, Refused;
    if i < j {
      Survives(states, calls, replies, behind, x, i, j - 1);
      assert Effect(states[j - 1], states[j], calls[j - 1], replies[j - 1], behind(j - 1));
    }
  }

  /**
   What an allocation hands out is the client's: until some call names it the block stays live, with its
   words as the allocation left them, and apart from every other live block.
   */
  lemma HandedOutLasts(states: seq<State>, calls: seq<Call>, replies: seq<Reply>, behind: Outside, i: nat, j: nat)
    requires IsRun(states, calls, replies, behind) && i < j <= |calls| && calls[i].Alloc? && replies[i].Made?
    requires replies[i].answer.Block? && replies[i].answer.at.Some?
    requires Unnamed(calls, replies[i].answer.at.value, i + 1, j)
    ensures var x := (replies[i].answer.at.value, calls[i].request);
      && x in Live(states[j].chunks, 0) && SameWords(states[i + 1].mem, states[j].mem, x)
      && forall y :: y in Live(states[j].chunks, 0) && y != x ==> Apart(x, y)
  {
    hide Live, Norm, FirstFit, Tiles, Span, NamedEffect, Refused;
    assert Effect(states[i], states[i + 1], calls[i], replies[i], behind(i));
    var x := (replies[i].answer.at.value, calls[i].request);
    InArena(states[i + 1].chunks, x);
    Survives(states, calls, replies, behind, x, i + 1, j);
    forall y | y in Live(states[j].chunks, 0) && y != x
      ensures Apart(x, y)
    {
      LiveDisjoint(states[j].chunks, 0, x, y);
    }
  }

  /** A released block is gone until an allocation hands its place out again. */
  lemma ReleasedIsGone(states: seq<State>, calls: seq<Call>, replies: seq<Reply>, behind: Outside, i: nat)
    requires IsRun(states, calls, replies, behind) && i < |calls| && calls[i].Free? && replies[i].Made?
    ensures forall n :: (calls[i].block, n) !in Live(states[i + 1].chunks, 0)
  {
    hide Live, Norm, FirstFit, Tiles, Span, Keeps, Refused;
    assert Effect(states[i], states[i + 1], calls[i], replies[i], behind(i));
    var n :| (calls[i].block, n) in Live(states[i].chunks, 0) &&
      NamedEffect(states[i], states[i + 1], calls[i], replies[i].answer, n);
    OneSize(states[i].chunks, calls[i].block, n);
  }

  // -------------------------------------------------------------------------
  // Where `free` goes wrong

  lemma {:induction false} NormShorter(cs: seq<Chunk>)
    ensures |Norm(cs)| <= |cs| && (|Norm(cs)| == |cs| ==> Norm(cs) == cs)
  {
    if cs != [] {
      NormShorter(cs[1..]);
      Uncons(cs);
    }
  }

  lemma OneFreeChunk(n: nat, request: nat)
    requires request + HEADER < n
    ensures Norm([Chunk(n, false)]) == [Chunk(n, false)]
    ensures FirstFit([Chunk(n, false)], request, 0) == Some(HEADER)
    ensures EagerAlloc([Chunk(n, false)], request) == [Chunk(request, true), Chunk(n - request - HEADER, false)]
  {
    assert [Chunk(n, false)][1..] == [];
    assert Carve(Chunk(n, false), request) + [] == [Chunk(request, true), Chunk(n - request - HEADER, false)];
  }

  /**
   An arena of six words: a block of one word that grows by exactly the three words of the free chunk
   behind it leaves nothing free, and `free` at 2^32 - 4.
   */
  method CounterGoesWrong() returns (p: Pool)
    ensures fresh(p) && fresh(p.mem) && p.Valid() && FreeWords(p.chunks) == 0 && p.free == 0xFFFF_FFFC
  {
    hide Tiles, Norm, FirstFit, EagerAlloc, Live, FreeWords, Wrap, Pool.Drift, Span;
    var mem := new Word[6](_ => 0);
    p := new Pool(mem);
    OneFreeChunk(5, 1);
    var r := p.Alloc(1);
    NormShorter(p.chunks);
    assert p.chunks == [Chunk(1, true), Chunk(3, false)];
    FirstBlock(p.chunks);
    var a;
    ghost var n;
    a, n := p.Resize(1, 4, 0, 0);
    ghost var cs := p.chunks;
    GrownWhole(p.mem[..], cs, n);
    LessFour();
    DriftIs(p);
  }

  lemma FirstBlock(cs: seq<Chunk>)
    requires |cs| == 2 && cs[0] == Chunk(1, true)
    ensures IsBlock(cs, 0, 1) && Live(cs, 0) == {(1, 1)} + Live(cs[1..], 2)
  {
    assert cs[..0] == [];
  }

  /** A block that fills the arena leaves nothing free. */
  lemma GrownWhole(mem: seq<Word>, cs: seq<Chunk>, n: nat)
    requires Tiles(mem, 0, cs) && Span(cs) == |mem| == 6 && (1, n) in Live(cs, 0) && n >= 4
    ensures FreeWords(cs) == 0
  {
    hide Live, Tiles, Span, FreeWords;
    var i := FindBlock(cs, 0, 1, n);
    StartOfArena(cs);
    SpanGrows(cs, 0, i);
    CutAt(cs, 0);
    SpanConcat3([], [cs[0]], cs[1..]);
    assert cs == [] + [cs[0]] + cs[1..];
    OneSpan(cs[0]);
    StartOfArena([]);
    FreeInSpan(cs[1..]);
    FreeInSpan([]);
  }

  lemma {:induction false} FreeInSpan(cs: seq<Chunk>)
    ensures FreeWords(cs) + |cs| <= Span(cs) && (cs == [] ==> FreeWords(cs) == 0 == Span(cs))
  {
    if cs != [] {
      FreeInSpan(cs[1..]);
    }
  }

  lemma LessFour()
    ensures Wrap(0 - 4) == 0xFFFF_FFFC
  {
  }

  lemma DriftIs(p: Pool)
    requires p.Drift() == 0xFFFF_FFFC && FreeWords(p.chunks) == 0
    ensures p.free == 0xFFFF_FFFC
  {
  }

  // -------------------------------------------------------------------------
  // Where a release goes wrong

  lemma WholeArena(n: nat)
    ensures Norm([Chunk(n, false)]) == [Chunk(n, false)]
    ensures FirstFit([Chunk(n, false)], n, 0) == Some(HEADER)
    ensures EagerAlloc([Chunk(n, false)], n) == [Chunk(n, true)]
    ensures Live([Chunk(n, true)], 0) == {(HEADER, n)} && Span([Chunk(n, true)]) == HEADER + n
  {
    assert [Chunk(n, false)][1..] == [] && [Chunk(n, true)][1..] == [];
    assert Carve(Chunk(n, false), n) + [] == [Chunk(n, true)];
  }

  /**
   A block that is the whole arena, released while the word behind the arena is zero: no list of chunks
   tiles the arena any more without a block at that address.
   */
  method LastBlockReleased() returns (p: Pool)
    ensures fresh(p) && fresh(p.mem)
    ensures !exists cs: seq<Chunk> ::
      Tiles(p.mem[..], 0, cs) && Span(cs) == p.mem.Length && forall n :: (HEADER, n) !in Live(cs, 0)
  {
    hide Tiles, Norm, FirstFit, EagerAlloc, Live, FreeWords, Wrap, Pool.Drift, Span;
    var mem := new Word[6](_ => 0);
    p := new Pool(mem);
    WholeArena(5);
    var r := p.Alloc(5);
    NormLive(p.chunks, 0);
    NormSpan(p.chunks);
    p.Free(r, 0);
  }

  /**
   A block can grow in place into its neighbour once that is released, as far as the neighbour and the free
   chunk behind it reach, and no further.
   */
  method GrowIntoReleased(p: Pool, x: nat, y: nat, request: nat, behind: Word, ghost i: nat) returns (r: Answer)
    requires p.Valid() && IsBlock(p.chunks, i, x) && IsBlock(p.chunks, i + 1, y) && request > 0
    requires i + 2 < |p.chunks| || IsUsed(behind)
    modifies p, p.mem
    ensures p.Valid()
    ensures var cs := old(p.chunks);
      var more := if i + 2 < |cs| && !cs[i + 2].used then HEADER + cs[i + 2].size else 0;
      r == if request <= cs[i].size + cs[i + 1].size + more then Block(Some(x)) else MustMove
  {
    hide Tiles, Span, Norm, Live, FreeWords, Release, Owned, Wrap, IsUsed, Freeable, Cut, Keeps;
    BlockIsLive(p.chunks, i + 1, y);
    FreeableIs(p.chunks, i + 1, y, IsUsed(behind));
    p.Free(Some(y), behind);
    assert p.chunks[..i] == old(p.chunks)[..i];
    ghost var n;
    r, n := p.Resize(x, request, behind, i);
  }
}
