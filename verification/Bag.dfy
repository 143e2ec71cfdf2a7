/** The bag (bag/bag.c) as a multiset of key classes. */
module Bags {
  import opened Options
  import opened Bits
  import opened Sizing
  import opened Links
  import opened Chains
  import opened LinkedChains
  import opened Tables

  /** A call that changed the bag. */
  datatype Event<C> = Put(c: C) | Taken(c: C) | Cleared

  /** A plain multiset that goes through the same calls. */
  ghost function Replay<C(!new)>(log: seq<Event<C>>): multiset<C> {
    if log == [] then multiset{} else
      var m := Replay(log[..|log| - 1]);
      match log[|log| - 1]
      case Put(c) => m + multiset{c}
      case Taken(c) => m - multiset{c}
      case Cleared => multiset{}
  }

  /** Every call that took something found it there. */
  ghost predicate Possible<C(!new)>(log: seq<Event<C>>) {
    forall i :: 0 <= i < |log| && log[i].Taken? ==> log[i].c in Replay(log[..i])
  }

  /** How often `c` was put in and not cleared, and how often it was taken out. */
  function Tally<C(==)>(log: seq<Event<C>>, c: C): int {
    if log == [] then 0 else
      var n := Tally(log[..|log| - 1], c);
      match log[|log| - 1]
      case Put(d) => if d == c then n + 1 else n
      case Taken(d) => if d == c then n - 1 else n
      case Cleared => 0
  }

  /** The same for all items together. */
  function Total<C>(log: seq<Event<C>>): int {
    if log == [] then 0 else
      var n := Total(log[..|log| - 1]);
      match log[|log| - 1]
      case Put(_) => n + 1
      case Taken(_) => n - 1
      case Cleared => 0
  }

  /** Over any calls, multiplicity is puts minus takes, for each key and in all. */
  lemma {:induction false} Conserved<C(!new)>(log: seq<Event<C>>, c: C)
    requires Possible(log)
    ensures Replay(log)[c] == Tally(log, c) && |Replay(log)| == Total(log)
  {
    hide Possible;
    if log != [] {
      var n := |log| - 1;
      PossibleBefore(log);
      Conserved(log[..n], c);
      Changed(Replay(log[..n]), log[n], c);
    }
  }

  /** The calls of this kind, by their place in the log, that no clear has come after. */
  ghost function Standing<C(!new)>(log: seq<Event<C>>, e: Event<C>): set<nat> {
    set i: nat | i < |log| && log[i] == e && forall j :: i < j < |log| ==> !log[j].Cleared?
  }

  /** One call more. */
  lemma StandingOn<C(!new)>(log: seq<Event<C>>, e: Event<C>)
    requires log != [] && !e.Cleared?
    ensures var n := |log| - 1;
      Standing(log, e) == if log[n].Cleared? then {} else if log[n] == e then Standing(log[..n], e) + {n}
        else Standing(log[..n], e)
    ensures |log| - 1 !in Standing(log[..|log| - 1], e)
  {
    var n := |log| - 1;
    assert forall i :: 0 <= i < n ==> log[..n][i] == log[i];
  }

  /** Over any calls, multiplicity is the number of puts less that of takes since the last clear. */
  lemma {:induction false} PutsLessTakes<C(!new)>(log: seq<Event<C>>, c: C)
    requires Possible(log)
    ensures Replay(log)[c] == |Standing(log, Put(c))| - |Standing(log, Taken(c))|
  {
    hide Possible, Standing;
    if log == [] {
      NoneStanding<C>(Put(c));
      NoneStanding<C>(Taken(c));
    } else {
      var n := |log| - 1;
      PossibleBefore(log);
      PutsLessTakes(log[..n], c);
      StandingOn(log, Put(c));
      StandingOn(log, Taken(c));
      Changed(Replay(log[..n]), log[n], c);
    }
  }

  lemma NoneStanding<C(!new)>(e: Event<C>)
    ensures Standing([], e) == {}
  {
  }

  lemma PossibleBefore<C(!new)>(log: seq<Event<C>>)
    requires Possible(log) && log != []
    ensures var n := |log| - 1; Possible(log[..n]) && (log[n].Taken? ==> log[n].c in Replay(log[..n]))
  {
    hide Replay;
    var n := |log| - 1;
    assert forall i :: 0 <= i < n ==> log[..n][i] == log[i] && log[..n][..i] == log[..i];
  }

  lemma Changed<C(!new)>(m: multiset<C>, e: Event<C>, c: C)
    requires e.Taken? ==> e.c in m
    ensures match e
      case Put(d) => (m + multiset{d})[c] == m[c] + (if d == c then 1 else 0) && |m + multiset{d}| == |m| + 1
      case Taken(d) => (m - multiset{d})[c] == m[c] - (if d == c then 1 else 0) && |m - multiset{d}| == |m| - 1
      case Cleared => true
  {
    match e
    case Put(d) =>
    case Taken(d) =>
      assert m == (m - multiset{d}) + multiset{d};
      assert |m| == |m - multiset{d}| + 1;
    case Cleared =>
  }

  /** The counts of the nodes are the multiplicities, and no node has count zero. */
  ghost predicate Counts<C(!new)>(m: map<C, nat>, items: multiset<C>) {
    && (forall c :: c in m ==> m[c] > 0 && items[c] == m[c])
    && (forall c :: c !in m ==> c !in items)
  }

  /** The distinct keys of a multiset are those with a node. */
  lemma DistinctKeys<C(!new)>(m: map<C, nat>, items: multiset<C>)
    requires Counts(m, items)
    ensures m.Keys == set c | c in items
  {
    forall c
      ensures c in m.Keys <==> c in items
    {
    }
  }

  lemma CountsPut<C(!new)>(m: map<C, nat>, items: multiset<C>, c: C)
    requires Counts(m, items)
    ensures Counts(m[c := if c in m then m[c] + 1 else 1], items + multiset{c})
    ensures c in m <==> c in items
  {
  }

  lemma CountsTaken<C(!new)>(m: map<C, nat>, items: multiset<C>, c: C)
    requires Counts(m, items) && c in m
    ensures m[c] == items[c] > 0
    ensures Counts(if m[c] == 1 then m - {c} else m[c := m[c] - 1], items - multiset{c})
  {
  }

  class Bag<K(!new), C(==, !new)> {
    const table: Table<K, nat, C>
    /** The calls so far. */
    ghost var log: seq<Event<C>>

    ghost predicate Valid()
      reads this, table
    {
      table.Valid() && Possible(log) && Counts(table.contents, Replay(log))
    }

    constructor (size: nat, hash: K -> hash64, same: (K, K) -> bool, ghost keys: Classes<K, C>)
      requires size < Pow2(WORD) && Granted(RoundUp(size), true) && Agree(keys, hash, same)
      ensures Valid() && log == [] && fresh(table) && table.keys == keys && table.size == RoundUp(size)
    {
      table := new Table(size, hash, same, keys);
      log := [];
    }

    /** `bag_insert`; `memory` and `given` are what the allocator answers for new buckets and for a new node. */
    method Insert(key: K, memory: bool, given: Option<Addr>) returns (code: int)
      requires Valid() && (given.Some? ==> given.value !in table.mem.next)
      modifies this, table
      ensures Valid() && (code == 0 || code == -1 || code == -2)
      ensures log == if code == 0 then old(log) + [Put(table.keys.of(key))] else old(log)
      ensures if old(table.keys.of(key) in Replay(log)) then code == 0 && table.used == old(table.used)
        else
          var full := old(table.used > table.size + table.size / 8);
          && (code == -1 <==> full && !Granted(2 * old(table.size), memory))
          && (code != -1 ==> (code == -2 <==> given.None? && old(table.pool).None?))
          && table.used == old(table.used) + if code == 0 then 1 else 0
      ensures table.size ==
        if code != -1 && old(table.keys.of(key) !in Replay(log) && table.used > table.size + table.size / 8)
        then 2 * old(table.size) else old(table.size)
      ensures code == -1 ==> table.bucket == old(table.bucket) && table.mem == old(table.mem)
      ensures table.released == old(table.released)
    {
      hide Holds, AllAddrs, Agree, SizeOk, Accounted, Lists, Whole, Fill, IsChain, LinkAt, Replay, Possible, Counts;
      CountsPut(table.contents, Replay(log), table.keys.of(key));
      var link, node;
      ghost var b, i;
      link, node, b, i := table.Lookup(key);
      if node.Some? {
        table.Replace(node.value, table.mem.load[node.value] + 1, b, i);
        Record(Put(table.keys.of(key)));
        return 0;
      }
      code := InsertNew(key, link, memory, given, b);
      if code == 0 {
        Record(Put(table.keys.of(key)));
      }
    }

    /** A node with count 1 for a key that has none. */
    method InsertNew(key: K, link: Link, memory: bool, given: Option<Addr>, ghost b: nat) returns (code: int)
      requires table.Valid() && (given.Some? ==> given.value !in table.mem.next)
      requires table.keys.of(key) !in table.contents
      requires b < |table.nodes| && b == table.keys.code(table.keys.of(key)) % |table.nodes|
      requires link == LinkAt(table.nodes, b, |table.nodes[b]|)
      modifies table
      ensures table.Valid() && (code == 0 || code == -1 || code == -2)
      ensures table.contents == if code == 0 then old(table.contents)[table.keys.of(key) := 1] else old(table.contents)
      ensures var full := old(table.used > table.size + table.size / 8);
        && (code == -1 <==> full && !Granted(2 * old(table.size), memory))
        && (code != -1 ==> (code == -2 <==> given.None? && old(table.pool).None?))
        && table.used == old(table.used) + (if code == 0 then 1 else 0)
        && table.size == if full && code != -1 then 2 * old(table.size) else old(table.size)
      ensures code == -1 ==> table.bucket == old(table.bucket) && table.mem == old(table.mem)
      ensures table.released == old(table.released)
    {
      hide Holds, AllAddrs, Agree, SizeOk, Accounted, Lists, Whole, Fill, IsChain, LinkAt;
      var place;
      ghost var c;
      code, place, c := table.MakeRoom(key, link, memory, b);
      if code != 0 {
        return;
      }
      var ok := table.AddNode(key, 1, place, given, c);
      if !ok {
        code := -2;
      }
    }

    ghost method Record(e: Event<C>)
      requires Possible(log) && (e.Taken? ==> e.c in Replay(log))
      modifies this`log
      ensures log == old(log) + [e] && Possible(log)
      ensures Replay(log) ==
        var m := old(Replay(log));
        match e case Put(c) => m + multiset{c} case Taken(c) => m - multiset{c} case Cleared => multiset{}
    {
      log := log + [e];
      var was := old(log);
      assert log[..|log| - 1] == was;
      assert forall i :: 0 <= i < |was| ==> log[i] == was[i] && log[..i] == was[..i];
    }

    /** Decrement the count of a node, and remove the node when it reaches zero. */
    method TakeOne(link: Link, node: Addr, memory: bool, ghost b: nat, ghost i: nat)
      requires table.Valid() && b < |table.nodes| && i < |table.nodes[b]| && link == LinkAt(table.nodes, b, i)
      requires node == table.nodes[b][i].addr && node in table.mem.load
      requires table.mem.load[node] == table.nodes[b][i].load > 0
      modifies table
      ensures table.Valid()
      ensures var c, n := old(table.keys.of(table.nodes[b][i].key)), old(table.nodes[b][i].load);
        && table.contents == (if n == 1 then old(table.contents) - {c} else old(table.contents)[c := n - 1])
        && table.used == old(table.used) - (if n == 1 then 1 else 0)
        && table.released == old(table.released) + if n == 1 then [(old(table.nodes[b][i].key), 0)] else []
      ensures var was := old(table.size);
        table.size == if old(table.nodes[b][i].load) == 1 && table.used < was / 2 - was / 4 && memory && was > 8
          then was / 2 else was
    {
      hide Holds, AllAddrs, Agree, IsPow2, Accounted, AllLinked, IsChain;
      table.Replace(node, table.mem.load[node] - 1, b, i);
      if table.mem.load[node] == 0 {
        table.Unlink(link, node, memory, b, i);
      }
    }

    /** `bag_remove` */
    method Remove(key: K, memory: bool) returns (code: int)
      requires Valid()
      modifies this, table
      ensures Valid()
      ensures code == if old(table.keys.of(key) in Replay(log)) then 0 else -1
      ensures log == if code == 0 then old(log) + [Taken(table.keys.of(key))] else old(log)
      ensures table.used == old(table.used) - if old(Replay(log)[table.keys.of(key)]) == 1 then 1 else 0
      ensures var was := old(table.size);
        var last := old(Replay(log)[table.keys.of(key)]) == 1;
        table.size == if last && table.used < was / 2 - was / 4 && memory && was > 8 then was / 2 else was
      ensures if old(Replay(log)[table.keys.of(key)]) == 1 then
          |table.released| == |old(table.released)| + 1 &&
            table.released[..|old(table.released)|] == old(table.released) &&
          table.keys.of(table.released[|old(table.released)|].0) == table.keys.of(key)
        else table.released == old(table.released)
    {
      hide Holds, AllAddrs, Agree, SizeOk, Accounted, Lists, Whole, Fill, IsChain, LinkAt, Replay, Possible, Counts;
      CountsPut(table.contents, Replay(log), table.keys.of(key));
      var link, node;
      ghost var b, i;
      link, node, b, i := table.Lookup(key);
      if node.None? {
        return -1;
      }
      CountsTaken(table.contents, Replay(log), table.keys.of(key));
      TakeOne(link, node.value, memory, b, i);
      Record(Taken(table.keys.of(key)));
      return 0;
    }

    /** `bag_clear` */
    method Clear(memory: bool)
      requires Valid()
      modifies this, table
      ensures Valid() && log == old(log) + [Cleared] && table.used == 0
      ensures table.size == if old(table.size) > 1024 && memory then old(table.size) / 8 else old(table.size)
      ensures old(table.released) <= table.released
      ensures Handed(table.keys, table.released, old(|table.released|), old(table.contents))
    {
      hide Holds, AllAddrs, Agree, SizeOk, Accounted, Lists, Whole, Fill, IsChain, LinkAt, Replay, Possible;
      table.Clear(memory);
      Record(Cleared);
    }

    /** `bag_contains`: the number of inserts that have not been undone. */
    method Contains(key: K) returns (n: nat)
      requires Valid()
      ensures n == Replay(log)[table.keys.of(key)] == Tally(log, table.keys.of(key))
      ensures var c := table.keys.of(key);
        n == |Standing(log, Put(c))| - |Standing(log, Taken(c))|
    {
      hide Holds, AllAddrs, Agree, SizeOk, Accounted, Lists, Whole, Fill, IsChain, LinkAt, Replay, Possible;
      var link, node;
      ghost var b, i;
      link, node, b, i := table.Lookup(key);
      n := if node.Some? then table.mem.load[node.value] else 0;
      Conserved(log, table.keys.of(key));
      PutsLessTakes(log, table.keys.of(key));
    }

    /** `bag_size`: the number of distinct keys. */
    method Size() returns (n: nat)
      requires Valid()
      ensures n == |set c | c in Replay(log)|
    {
      hide Holds, AllAddrs, Agree, SizeOk, Accounted, Lists, Whole, Fill, IsChain, LinkAt, Replay, Possible;
      n := table.used;
      DistinctKeys(table.contents, Replay(log));
      assert |table.contents| == |table.contents.Keys|;
    }
  }

  /** `bag_alloc`: a bag, or none if the bucket array cannot be allocated. */
  method Create<K(!new), C(==, !new)>(size: nat, memory: bool, hash: K -> hash64, same: (K, K) -> bool,
                                      ghost keys: Classes<K, C>)
    returns (t: Option<Bag<K, C>>)
    requires size < Pow2(WORD) && Agree(keys, hash, same)
    ensures t.Some? <==> Granted(RoundUp(size), memory)
    ensures t.Some? ==>
      fresh(t.value) && fresh(t.value.table) && t.value.Valid() && t.value.log == [] &&
      t.value.table.size == RoundUp(size)
  {
    hide Pow2, RoundUp, Agree, Replay;
    if !Granted(RoundUp(size), memory) {
      return None;
    }
    var bag := new Bag(size, hash, same, keys);
    return Some(bag);
  }
}
