/** Singly linked lists in a memory of addressed nodes, whose `next` fields are a map from addresses. */
module Links {
  import opened Options

  type Addr = nat

  predicate Distinct(s: seq<Addr>) {
    forall i, j :: 0 <= i < j < |s| ==> s[i] != s[j]
  }

  ghost function Elems(s: seq<Addr>): set<Addr> { set a | a in s }

  /** What follows position `i` of a list. */
  function Following(s: seq<Addr>, i: int): Option<Addr> {
    if 0 <= i + 1 < |s| then Some(s[i + 1]) else None
  }

  /** Following `next` from `first` visits exactly `s`. */
  ghost predicate IsChain(next: map<Addr, Option<Addr>>, first: Option<Addr>, s: seq<Addr>) {
    first == Following(s, -1) && Distinct(s) &&
    forall i :: 0 <= i < |s| ==> s[i] in next && next[s[i]] == Following(s, i)
  }

  lemma Apart(s: seq<Addr>, i: nat, j: nat)
    requires Distinct(s) && i < |s| && j < |s| && i != j
    ensures s[i] != s[j]
  {
  }

  lemma DistinctTail(s: seq<Addr>)
    requires Distinct(s) && s != []
    ensures Distinct(s[1..]) && s[0] !in s[1..] && Elems(s[1..]) == Elems(s) - {s[0]}
  {
    assert s == [s[0]] + s[1..];
  }

  lemma DistinctCons(s: seq<Addr>, a: Addr)
    requires Distinct(s) && a !in s
    ensures Distinct([a] + s)
  {
    var t := [a] + s;
    assert forall i :: 1 <= i < |t| ==> t[i] == s[i - 1];
  }

  lemma DistinctSnoc(s: seq<Addr>, a: Addr)
    requires Distinct(s) && a !in s
    ensures Distinct(s + [a])
  {
  }

  lemma ElemsGrow(s: seq<Addr>, a: Addr)
    ensures Elems(s + [a]) == Elems(s) + {a} == Elems([a] + s)
  {
  }

  lemma NoElems(s: seq<Addr>)
    ensures s == [] ==> Elems(s) == {}
  {
  }

  /** The first node of one of two separate lists. */
  lemma FirstOut(keys: set<Addr>, s: seq<Addr>, t: seq<Addr>)
    requires s != [] && Distinct(s) && keys == Elems(s) + Elems(t) && Elems(s) !! Elems(t)
    ensures s[0] in keys && s[0] !in s[1..] && s[0] !in t
    ensures keys - {s[0]} == Elems(s[1..]) + Elems(t) && Elems(s[1..]) !! Elems(t)
    ensures keys == Elems(s[1..]) + Elems(t) + {s[0]} && s[0] !in Elems(s[1..]) && s[0] !in Elems(t)
  {
    DistinctTail(s);
    assert s[0] in Elems(s);
  }

  /** An address outside both lists. */
  lemma NotListed(s: seq<Addr>, t: seq<Addr>, a: Addr)
    requires a !in Elems(s) && a !in Elems(t)
    ensures a !in s && a !in t
  {
  }

  /** The last node is in the list and in no other. */
  lemma LastListed(nodes: seq<Addr>, spare: seq<Addr>, node: Addr)
    requires nodes != [] && Elems(nodes) !! Elems(spare) !! {node}
    ensures var l := nodes[|nodes| - 1]; l in Elems(nodes) && l !in spare && l != node
  {
    assert nodes[|nodes| - 1] in Elems(nodes);
  }

  // -------------------------------------------------------------------------
  // Reading a chain

  lemma NoChain(next: map<Addr, Option<Addr>>)
    ensures IsChain(next, None, [])
  {
  }

  lemma ChainStart(next: map<Addr, Option<Addr>>, first: Option<Addr>, s: seq<Addr>)
    requires IsChain(next, first, s)
    ensures first == Following(s, -1) && Distinct(s)
  {
  }

  lemma ChainAt(next: map<Addr, Option<Addr>>, first: Option<Addr>, s: seq<Addr>, i: nat)
    requires IsChain(next, first, s) && i < |s|
    ensures Distinct(s) && s[i] in next && next[s[i]] == Following(s, i)
  {
  }

  /** The first node, and the chain behind it. */
  lemma ChainHead(next: map<Addr, Option<Addr>>, first: Option<Addr>, s: seq<Addr>)
    requires IsChain(next, first, s)
    ensures first.None? <==> s == []
    ensures s != [] ==> first == Some(s[0]) && s[0] in next && IsChain(next, next[s[0]], s[1..])
  {
    if s != [] {
      var t := s[1..];
      assert forall i :: 0 <= i < |t| ==> t[i] == s[i + 1];
      DistinctTail(s);
      forall i | 0 <= i < |t|
        ensures t[i] in next && next[t[i]] == Following(t, i)
      {
        ChainAt(next, first, s, i + 1);
      }
    }
  }

  // -------------------------------------------------------------------------
  // Changing links

  /** A chain depends on its own nodes only. */
  lemma ChainFrame(next: map<Addr, Option<Addr>>, next': map<Addr, Option<Addr>>, first: Option<Addr>, s: seq<Addr>)
    requires IsChain(next, first, s)
    requires forall a :: a in s ==> a in next' && next'[a] == next[a]
    ensures IsChain(next', first, s)
  {
    assert forall i :: 0 <= i < |s| ==> s[i] in s;
  }

  lemma ChainUpdate(next: map<Addr, Option<Addr>>, first: Option<Addr>, s: seq<Addr>, p: Addr, v: Option<Addr>)
    requires IsChain(next, first, s) && p !in s
    ensures IsChain(next[p := v], first, s)
  {
    ChainFrame(next, next[p := v], first, s);
  }

  lemma ChainDrop(next: map<Addr, Option<Addr>>, first: Option<Addr>, s: seq<Addr>, p: Addr)
    requires IsChain(next, first, s) && p !in s
    ensures IsChain(next - {p}, first, s)
  {
    ChainFrame(next, next - {p}, first, s);
  }

  /** A node in front of the first one. */
  lemma ChainPush(next: map<Addr, Option<Addr>>, first: Option<Addr>, s: seq<Addr>, a: Addr)
    requires IsChain(next, first, s) && a !in s
    ensures IsChain(next[a := first], Some(a), [a] + s)
  {
    hide IsChain, Distinct;
    var next', t := next[a := first], [a] + s;
    ChainStart(next, first, s);
    DistinctCons(s, a);
    forall i | 0 <= i < |t|
      ensures t[i] in next' && next'[t[i]] == Following(t, i)
    {
      if i > 0 {
        assert t[i] == s[i - 1] && s[i - 1] in s;
        ChainAt(next, first, s, i - 1);
      }
    }
    ChainMade(next', Some(a), t);
  }

  lemma ChainMade(next: map<Addr, Option<Addr>>, first: Option<Addr>, s: seq<Addr>)
    requires first == Following(s, -1) && Distinct(s)
    requires forall i :: 0 <= i < |s| ==> s[i] in next && next[s[i]] == Following(s, i)
    ensures IsChain(next, first, s)
  {
  }

  /** A node behind the last one. */
  lemma ChainSnoc(next: map<Addr, Option<Addr>>, first: Option<Addr>, s: seq<Addr>, a: Addr)
    requires IsChain(next, first, s) && a !in s
    ensures s == [] ==> IsChain(next[a := None], Some(a), [a])
    ensures s != [] ==> IsChain(next[s[|s| - 1] := Some(a)][a := None], first, s + [a])
  {
    hide IsChain, Distinct;
    var n, t := |s|, s + [a];
    ChainStart(next, first, s);
    DistinctSnoc(s, a);
    if n == 0 {
      assert t == [a];
      ChainMade(next[a := None], Some(a), [a]);
    } else {
      var next' := next[s[n - 1] := Some(a)][a := None];
      forall i | 0 <= i < |t|
        ensures t[i] in next' && next'[t[i]] == Following(t, i)
      {
        if i < n - 1 {
          assert t[i] == s[i] && s[i] in s;
          Apart(s, i, n - 1);
          ChainAt(next, first, s, i);
        } else if i == n - 1 {
          assert t[i] == s[i] && s[i] in s;
        }
      }
      ChainMade(next', first, t);
    }
  }

  /** The list without the node at position `k`. */
  function Skip(s: seq<Addr>, k: nat): seq<Addr>
    requires k < |s|
  {
    s[..k] + s[k + 1..]
  }

  lemma SkipIs(s: seq<Addr>, k: nat)
    requires k < |s|
    ensures |Skip(s, k)| == |s| - 1
    ensures forall i :: 0 <= i < |s| - 1 ==> Skip(s, k)[i] == s[if i < k then i else i + 1]
    ensures Distinct(s) ==> Distinct(Skip(s, k))
    ensures forall a :: a in Skip(s, k) ==> a in s
  {
  }

  lemma BypassAt(next: map<Addr, Option<Addr>>, first: Option<Addr>, s: seq<Addr>, j: nat, i: nat)
    requires IsChain(next, first, s) && j + 1 < |s| && i + 1 < |s|
    ensures s[j + 1] in next
    ensures var next', t := next[s[j] := next[s[j + 1]]], Skip(s, j + 1);
      t[i] in next' && next'[t[i]] == Following(t, i)
  {
    hide Skip, IsChain, Distinct;
    SkipIs(s, j + 1);
    var x := if i < j + 1 then i else i + 1;
    ChainAt(next, first, s, x);
    ChainAt(next, first, s, j + 1);
    if x != j {
      Apart(s, x, j);
    }
  }

  /** Bypassing the node behind position `j`. */
  lemma ChainBypass(next: map<Addr, Option<Addr>>, first: Option<Addr>, s: seq<Addr>, j: nat)
    requires IsChain(next, first, s) && j + 1 < |s|
    ensures s[j + 1] in next && IsChain(next[s[j] := next[s[j + 1]]], first, Skip(s, j + 1))
  {
    hide Skip, IsChain, Distinct;
    ChainAt(next, first, s, j + 1);
    ChainStart(next, first, s);
    SkipIs(s, j + 1);
    var next', t := next[s[j] := next[s[j + 1]]], Skip(s, j + 1);
    forall i | 0 <= i < |t|
      ensures t[i] in next' && next'[t[i]] == Following(t, i)
    {
      BypassAt(next, first, s, j, i);
    }
    ChainMade(next', first, t);
  }
}
