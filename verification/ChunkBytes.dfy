/** The chunks of a chunk queue (chunkq/chunkq.c) as a list, and the bytes that they hold. */
module ChunkBytes {
  import opened Bytes
  import Copy = PageBytes

  datatype Chunk = Chunk(data: seq<byte>, offset: nat, size: nat)

  /** What a chunk adds to the queue. */
  function Part(c: Chunk): seq<byte> {
    if c.offset + c.size <= |c.data| then c.data[c.offset..c.offset + c.size] else []
  }

  /** The bytes in the queue, oldest first. */
  function Contents(cs: seq<Chunk>): seq<byte> {
    if cs == [] then [] else Part(cs[0]) + Contents(cs[1..])
  }

  /**
   The shape of the list: every chunk lies within its buffer, only the first one has an offset, and all
   but the last one are written up to the end.
   */
  ghost predicate Shape(cs: seq<Chunk>, chunk: nat) {
    && (forall i :: 0 <= i < |cs| ==> |cs[i].data| == chunk && cs[i].offset + cs[i].size <= chunk)
    && (forall i :: 0 < i < |cs| ==> cs[i].offset == 0)
    && (forall i :: 0 <= i < |cs| - 1 ==> cs[i].offset + cs[i].size == chunk)
  }

  /** A chunk holds something, unless it is the only one. */
  ghost predicate NoneEmpty(cs: seq<Chunk>) {
    forall i :: 0 <= i < |cs| ==> cs[i].size > 0 || (|cs| == 1 && cs[i].offset == 0)
  }

  /** The last chunk has no room left. */
  predicate TailFull(cs: seq<Chunk>, chunk: nat) {
    cs != [] && cs[|cs| - 1].offset + cs[|cs| - 1].size == chunk
  }

  lemma {:induction false} ContentsConcat(a: seq<Chunk>, b: seq<Chunk>)
    ensures Contents(a + b) == Contents(a) + Contents(b)
  {
    if a == [] {
      assert a + b == b;
    } else {
      assert (a + b)[1..] == a[1..] + b;
      ContentsConcat(a[1..], b);
    }
  }

  lemma ContentsOne(c: Chunk)
    ensures Contents([c]) == Part(c)
  {
    assert [c][1..] == [];
  }

  lemma ContentsThree(a: seq<Chunk>, c: Chunk, b: seq<Chunk>)
    ensures Contents(a + [c]) == Contents(a) + Part(c)
    ensures Contents(a + [c] + b) == Contents(a) + Part(c) + Contents(b)
  {
    hide Contents, Part;
    ContentsConcat(a, [c]);
    ContentsConcat(a + [c], b);
    ContentsOne(c);
  }

  lemma CutAt<T>(cs: seq<T>, i: nat)
    requires i < |cs|
    ensures cs[..i + 1] == cs[..i] + [cs[i]] && cs == cs[..i] + [cs[i]] + cs[i + 1..]
  {
  }

  /** The contents, cut at chunk `i`. */
  lemma ContentsAt(cs: seq<Chunk>, i: nat)
    requires i < |cs|
    ensures Contents(cs[..i + 1]) == Contents(cs[..i]) + Part(cs[i])
    ensures Contents(cs) == Contents(cs[..i]) + Part(cs[i]) + Contents(cs[i + 1..])
  {
    hide Contents, Part;
    ContentsThree(cs[..i], cs[i], cs[i + 1..]);
    CutAt(cs, i);
  }

  // -------------------------------------------------------------------------
  // One step of each loop

  /** Take `n` bytes off the first chunk, and the chunk off the list when it is used up. */
  function Taken(cs: seq<Chunk>, n: nat): (r: seq<Chunk>)
    requires cs != [] && n <= cs[0].size
  {
    var c := cs[0].(offset := cs[0].offset + n, size := cs[0].size - n);
    if c.size == 0 then cs[1..] else [c] + cs[1..]
  }

  lemma TakenFacts(cs: seq<Chunk>, chunk: nat, n: nat)
    requires Shape(cs, chunk) && NoneEmpty(cs) && cs != [] && n <= cs[0].size && (n == 0 ==> cs[0].size == 0)
    ensures Shape(Taken(cs, n), chunk) && NoneEmpty(Taken(cs, n))
    ensures Contents(cs) == cs[0].data[cs[0].offset..cs[0].offset + n] + Contents(Taken(cs, n))
  {
    TakenShape(cs, chunk, n);
    TakenContents(cs, n);
  }

  /** What is left of the list holds something, if it has a chunk at all. */
  lemma TakenHolds(cs: seq<Chunk>, chunk: nat, n: nat)
    requires Shape(cs, chunk) && NoneEmpty(cs) && cs != [] && n <= cs[0].size
    ensures Taken(cs, n) != [] ==> Contents(Taken(cs, n)) != []
  {
    var t := Taken(cs, n);
    if t != [] {
      assert cs[0].size == n ==> t[0] == cs[1];
      assert t[0].size > 0 && t[0].offset + t[0].size <= |t[0].data|;
      assert Part(t[0]) != [];
    }
  }

  lemma TakenShape(cs: seq<Chunk>, chunk: nat, n: nat)
    requires Shape(cs, chunk) && NoneEmpty(cs) && cs != [] && n <= cs[0].size && (n == 0 ==> cs[0].size == 0)
    ensures Shape(Taken(cs, n), chunk) && NoneEmpty(Taken(cs, n))
  {
    hide Shape, NoneEmpty;
    var c := cs[0].(offset := cs[0].offset + n, size := cs[0].size - n);
    if c.size == 0 {
      TailShape(cs, chunk);
    } else {
      HeadShape(cs, chunk, c);
    }
  }

  lemma TailShape(cs: seq<Chunk>, chunk: nat)
    requires Shape(cs, chunk) && NoneEmpty(cs) && cs != []
    ensures Shape(cs[1..], chunk) && NoneEmpty(cs[1..])
  {
    var t := cs[1..];
    assert forall i :: 0 <= i < |t| ==> t[i] == cs[i + 1];
  }

  lemma HeadShape(cs: seq<Chunk>, chunk: nat, c: Chunk)
    requires Shape(cs, chunk) && NoneEmpty(cs) && cs != []
    requires c.size > 0 && c.data == cs[0].data && c.offset + c.size == cs[0].offset + cs[0].size
    ensures Shape([c] + cs[1..], chunk) && NoneEmpty([c] + cs[1..])
  {
    var t := [c] + cs[1..];
    assert forall i :: 1 <= i < |t| ==> t[i] == cs[i];
  }

  lemma TakenContents(cs: seq<Chunk>, n: nat)
    requires cs != [] && n <= cs[0].size && cs[0].offset + cs[0].size <= |cs[0].data|
    ensures Contents(cs) == cs[0].data[cs[0].offset..cs[0].offset + n] + Contents(Taken(cs, n))
  {
    hide Contents, Part;
    var c := cs[0].(offset := cs[0].offset + n, size := cs[0].size - n);
    PartSplit(cs[0], c, n);
    TakenParts(cs[0], c, cs[1..], cs[0].data[cs[0].offset..cs[0].offset + n]);
    assert cs == [cs[0]] + cs[1..];
  }

  lemma TakenParts(b: Chunk, c: Chunk, rest: seq<Chunk>, head: seq<byte>)
    requires Part(b) == head + Part(c)
    ensures Contents([b] + rest) == head + Contents([c] + rest)
    ensures Part(c) == [] ==> Contents([c] + rest) == Contents(rest)
  {
    hide Contents, Part;
    ContentsConcat([b], rest);
    ContentsConcat([c], rest);
    ContentsOne(b);
    ContentsOne(c);
    Three(head, Part(c), Contents(rest));
  }

  lemma PartSplit(b: Chunk, c: Chunk, n: nat)
    requires n <= b.size && b.offset + b.size <= |b.data| && c == b.(offset := b.offset + n, size := b.size - n)
    ensures Part(b) == b.data[b.offset..b.offset + n] + Part(c) && (c.size == 0 ==> Part(c) == [])
  {
  }

  lemma Three(a: seq<byte>, b: seq<byte>, c: seq<byte>)
    ensures a + (b + c) == a + b + c && (b == [] ==> b + c == c)
  {
  }

  /** Write `bytes` behind what the last chunk holds. */
  function Filled(cs: seq<Chunk>, bytes: seq<byte>): (r: seq<Chunk>)
    requires cs != []
  {
    var t := cs[|cs| - 1];
    if t.offset + t.size + |bytes| > |t.data| then cs else
      cs[|cs| - 1 := t.(data := Copy.Patch(t.data, t.offset + t.size, bytes), size := t.size + |bytes|)]
  }

  lemma FilledFacts(cs: seq<Chunk>, chunk: nat, bytes: seq<byte>)
    requires Shape(cs, chunk) && cs != [] && bytes != [] && forall i :: 0 <= i < |cs| - 1 ==> cs[i].size > 0
    requires cs[|cs| - 1].offset + cs[|cs| - 1].size + |bytes| <= chunk
    ensures Shape(Filled(cs, bytes), chunk) && NoneEmpty(Filled(cs, bytes)) && |Filled(cs, bytes)| == |cs|
    ensures Contents(Filled(cs, bytes)) == Contents(cs) + bytes
  {
    hide Part, Contents, Shape, NoneEmpty, Copy.Patch;
    var n := |cs| - 1;
    var t := cs[n];
    ShapeAt(cs, chunk, n);
    var t' := t.(data := Copy.Patch(t.data, t.offset + t.size, bytes), size := t.size + |bytes|);
    var r := cs[n := t'];
    FilledPart(t, bytes);
    FilledContents(cs, r, bytes);
    FilledShape(cs, chunk, t');
  }

  lemma FilledShape(cs: seq<Chunk>, chunk: nat, t: Chunk)
    requires Shape(cs, chunk) && cs != [] && forall i :: 0 <= i < |cs| - 1 ==> cs[i].size > 0
    requires |t.data| == chunk && t.offset == cs[|cs| - 1].offset && t.size > 0 && t.offset + t.size <= chunk
    ensures Shape(cs[|cs| - 1 := t], chunk) && NoneEmpty(cs[|cs| - 1 := t])
  {
    var r := cs[|cs| - 1 := t];
    assert forall i :: 0 <= i < |cs| - 1 ==> r[i] == cs[i];
  }

  lemma FilledPart(t: Chunk, bytes: seq<byte>)
    requires t.offset + t.size + |bytes| <= |t.data|
    ensures Part(t.(data := Copy.Patch(t.data, t.offset + t.size, bytes), size := t.size + |bytes|)) == Part(t) + bytes
  {
    var at := t.offset + t.size;
    var d := Copy.Patch(t.data, at, bytes);
    assert d[..at] == t.data[..at];
    assert d[at..at + |bytes|] == bytes;
    assert d[t.offset..at] == d[..at][t.offset..];
    assert d[t.offset..at + |bytes|] == d[t.offset..at] + d[at..at + |bytes|];
  }

  lemma FilledContents(cs: seq<Chunk>, r: seq<Chunk>, bytes: seq<byte>)
    requires |r| == |cs| > 0 && r[..|cs| - 1] == cs[..|cs| - 1] && Part(r[|cs| - 1]) == Part(cs[|cs| - 1]) + bytes
    ensures Contents(r) == Contents(cs) + bytes
  {
    hide Contents, Part;
    var n := |cs| - 1;
    assert cs == cs[..n] + [cs[n]];
    assert r == cs[..n] + [r[n]];
    ContentsConcat(cs[..n], [cs[n]]);
    ContentsConcat(cs[..n], [r[n]]);
    ContentsOne(cs[n]);
    ContentsOne(r[n]);
  }

  /** The list with a new, empty chunk at its end. */
  lemma GrownFacts(cs: seq<Chunk>, chunk: nat, junk: seq<byte>)
    requires Shape(cs, chunk) && |junk| == chunk
    requires cs != [] ==> TailFull(cs, chunk)
    ensures Shape(cs + [Chunk(junk, 0, 0)], chunk) && Contents(cs + [Chunk(junk, 0, 0)]) == Contents(cs)
  {
    hide Contents;
    var c := Chunk(junk, 0, 0);
    ContentsConcat(cs, [c]);
    ContentsOne(c);
    assert Part(c) == [];
    GrownShape(cs, chunk, c);
  }

  lemma GrownShape(cs: seq<Chunk>, chunk: nat, c: Chunk)
    requires Shape(cs, chunk) && |c.data| == chunk && c.offset == 0 && c.size <= chunk
    requires (cs != [] ==> TailFull(cs, chunk))
    ensures Shape(cs + [c], chunk)
  {
    var r := cs + [c];
    assert forall i :: 0 <= i < |r| - 1 ==> r[i] == cs[i];
  }

  lemma Extend(s: seq<byte>, i: nat, j: nat, k: nat)
    requires i <= j <= k <= |s|
    ensures s[i..j] + s[j..k] == s[i..k]
  {
  }

  lemma StartContents(cs: seq<Chunk>)
    ensures Contents(cs[..0]) == []
  {
  }

  lemma ShapeAt(cs: seq<Chunk>, chunk: nat, i: nat)
    requires Shape(cs, chunk) && i < |cs|
    ensures |cs[i].data| == chunk && cs[i].offset + cs[i].size <= chunk && (i > 0 ==> cs[i].offset == 0)
    ensures |Part(cs[i])| == cs[i].size
  {
  }

  /** Bytes from the middle of chunk `i`. */
  lemma FirstSlice(cs: seq<Chunk>, chunk: nat, i: nat, local: nat, n: nat)
    requires Shape(cs, chunk) && i < |cs| && local + n <= cs[i].size && cs[i].offset + cs[i].size <= |cs[i].data|
    ensures var at := |Contents(cs[..i])| + local;
      && at + n <= |Contents(cs)|
      && cs[i].data[cs[i].offset + local..cs[i].offset + local + n] == Contents(cs)[at..at + n]
    ensures |Contents(cs[..i + 1])| == |Contents(cs[..i])| + cs[i].size
  {
    hide Contents, Part, Shape;
    ContentsAt(cs, i);
    PartSlice(cs[i], local, n);
    Middle(Contents(cs[..i]), Part(cs[i]), Contents(cs[i + 1..]), local, n);
  }

  lemma PartSlice(c: Chunk, local: nat, n: nat)
    requires local + n <= c.size && c.offset + c.size <= |c.data|
    ensures |Part(c)| == c.size && Part(c)[local..local + n] == c.data[c.offset + local..c.offset + local + n]
  {
    SliceOf(c.data, c.offset, c.size, local, n);
  }

  lemma Middle(a: seq<byte>, b: seq<byte>, c: seq<byte>, local: nat, n: nat)
    requires local + n <= |b|
    ensures (a + b + c)[|a| + local..|a| + local + n] == b[local..local + n]
  {
  }

  /** Bytes from the start of a chunk that is not the first. */
  lemma NextSlice(cs: seq<Chunk>, chunk: nat, i: nat, n: nat)
    requires Shape(cs, chunk) && 0 < i < |cs| && n <= cs[i].size && cs[i].size <= |cs[i].data|
    ensures var at := |Contents(cs[..i])|;
      at + n <= |Contents(cs)| && cs[i].data[..n] == Contents(cs)[at..at + n]
    ensures |Contents(cs[..i + 1])| == |Contents(cs[..i])| + cs[i].size
  {
    hide Contents;
    ShapeAt(cs, chunk, i);
    FirstSlice(cs, chunk, i, 0, n);
  }

  lemma NoContents(cs: seq<Chunk>)
    ensures cs == [] ==> Contents(cs) == []
  {
  }
}
