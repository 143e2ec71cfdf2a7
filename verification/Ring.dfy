/** Circular doubly linked lists in a memory of addressed nodes. */
module Ring {
  import opened Links

  function Succ(i: nat, n: nat): nat { if i + 1 == n then 0 else i + 1 }

  /** `next` runs through `ring` in a circle and `prev` runs back. */
  ghost predicate IsRing(next: map<Addr, Addr>, prev: map<Addr, Addr>, ring: seq<Addr>) {
    ring != [] && Distinct(ring) &&
    forall i :: 0 <= i < |ring| ==> Linked(next, prev, ring[i], ring[Succ(i, |ring|)])
  }

  ghost predicate Linked(next: map<Addr, Addr>, prev: map<Addr, Addr>, a: Addr, b: Addr) {
    a in next && b in prev && next[a] == b && prev[b] == a
  }

  /** The neighbours of position `i`. */
  lemma RingAt(next: map<Addr, Addr>, prev: map<Addr, Addr>, ring: seq<Addr>, i: nat)
    requires IsRing(next, prev, ring) && i < |ring|
    ensures var n := |ring|;
      && ring[i] in next && ring[i] in prev
      && next[ring[i]] == ring[Succ(i, n)] && prev[ring[i]] == ring[if i == 0 then n - 1 else i - 1]
  {
    assert Linked(next, prev, ring[i], ring[Succ(i, |ring|)]);
    var j := if i == 0 then |ring| - 1 else i - 1;
    assert Linked(next, prev, ring[j], ring[Succ(j, |ring|)]);
  }

  lemma RingSome(next: map<Addr, Addr>, prev: map<Addr, Addr>, ring: seq<Addr>)
    requires IsRing(next, prev, ring)
    ensures ring != []
  {
  }

  /** A ring may be entered anywhere: here at its last node. */
  lemma Rotate(next: map<Addr, Addr>, prev: map<Addr, Addr>, ring: seq<Addr>)
    requires IsRing(next, prev, ring)
    ensures IsRing(next, prev, [ring[|ring| - 1]] + ring[..|ring| - 1])
  {
    var n := |ring|;
    var r := [ring[n - 1]] + ring[..n - 1];
    forall i | 0 <= i < n
      ensures Linked(next, prev, r[i], r[Succ(i, n)])
    {
      var j := if i == 0 then n - 1 else i - 1;
      assert Linked(next, prev, ring[j], ring[Succ(j, n)]);
      assert r[i] == ring[j] && r[Succ(i, n)] == ring[Succ(j, n)];
    }
  }

  lemma Unlink(next: map<Addr, Addr>, prev: map<Addr, Addr>, ring: seq<Addr>, i: nat)
    requires IsRing(next, prev, ring) && i < |ring| && 1 < |ring|
    ensures var a := ring[i];
      && a in next && a in prev
      && IsRing(next[prev[a] := next[a]], prev[next[a] := prev[a]], Skip(ring, i))
  {
    hide Skip;
    SkipIs(ring, i);
    RingAt(next, prev, ring, i);
    var n, a, r := |ring|, ring[i], Skip(ring, i);
    var next', prev' := next[prev[a] := next[a]], prev[next[a] := prev[a]];
    forall k | 0 <= k < n - 1
      ensures Linked(next', prev', r[k], r[Succ(k, n - 1)])
    {
      var x := if k < i then k else k + 1;
      var y := if Succ(k, n - 1) < i then Succ(k, n - 1) else Succ(k, n - 1) + 1;
      assert r[k] == ring[x] && r[Succ(k, n - 1)] == ring[y];
      RingAt(next, prev, ring, x);
      RingAt(next, prev, ring, y);
    }
  }

  /** A node linked in before the head comes last. */
  lemma LinkLast(next: map<Addr, Addr>, prev: map<Addr, Addr>, ring: seq<Addr>, a: Addr)
    requires IsRing(next, prev, ring) && a !in ring
    ensures var tail := ring[|ring| - 1];
      IsRing(next[tail := a][a := ring[0]], prev[a := tail][ring[0] := a], ring + [a])
  {
    var n, r, tail := |ring|, ring + [a], ring[|ring| - 1];
    var next', prev' := next[tail := a][a := ring[0]], prev[a := tail][ring[0] := a];
    assert ring[0] in ring && tail in ring;
    forall k | 0 <= k < n + 1
      ensures Linked(next', prev', r[k], r[Succ(k, n + 1)])
    {
      if k < n - 1 {
        RingAt(next, prev, ring, k);
        RingAt(next, prev, ring, k + 1);
        assert ring[k] in ring && ring[k + 1] in ring;
      }
    }
  }
}
