/** The hash table (hashtable/hashtable.c) as a map from key classes to values. */
module HashTables {
  import opened Options
  import opened Bits
  import opened Sizing
  import opened Links
  import opened Chains
  import opened LinkedChains
  import opened Tables

  /** A call that changed the mapping. */
  datatype Event<C, V> = Stored(c: C, v: V) | Removed(c: C) | Cleared

  /** A plain map that goes through the same calls. */
  ghost function Replay<C(!new), V>(log: seq<Event<C, V>>): map<C, V> {
    if log == [] then map[] else
      var m := Replay(log[..|log| - 1]);
      match log[|log| - 1]
      case Stored(c, v) => m[c := v]
      case Removed(c) => m - {c}
      case Cleared => map[]
  }

  /** Call `i` stored something for `c`, and nothing since then has stored, removed or cleared `c`. */
  ghost predicate Current<C(!new), V>(log: seq<Event<C, V>>, c: C, i: nat) {
    && i < |log| && log[i].Stored? && log[i].c == c
    && forall j :: i < j < |log| ==> !Touches(log[j], c)
  }

  /** ... and what it stored was `v`. */
  ghost predicate LastStored<C(!new), V>(log: seq<Event<C, V>>, c: C, v: V, i: nat) {
    Current(log, c, i) && log[i].v == v
  }

  ghost predicate Touches<C(!new), V>(e: Event<C, V>, c: C) {
    match e case Stored(d, _) => d == c case Removed(d) => d == c case Cleared => true
  }

  /** After any calls, a class has a value exactly if some call stored it and none touched it later. */
  lemma {:induction false} LastOneWins<C(!new), V>(log: seq<Event<C, V>>, c: C, v: V)
    ensures c in Replay(log) && Replay(log)[c] == v <==> exists i: nat :: LastStored(log, c, v, i)
  {
    if log != [] {
      var n := |log| - 1;
      LastOneWins(log[..n], c, v);
      if i: nat :| LastStored(log[..n], c, v, i) && !Touches(log[n], c) {
        assert LastStored(log, c, v, i);
      }
      if i: nat :| LastStored(log, c, v, i) && i < n {
        assert LastStored(log[..n], c, v, i) && !Touches(log[n], c) by {
          assert forall j :: i < j < n ==> log[..n][j] == log[j];
        }
      }
      if log[n] == Stored(c, v) {
        assert LastStored(log, c, v, n);
      }
    }
  }

  /** So it is present exactly if some call stored it and none touched it later. */
  lemma KnownOnes<C(!new), V>(log: seq<Event<C, V>>, c: C)
    ensures c in Replay(log) <==> exists i: nat :: Current(log, c, i)
  {
    hide Replay, Current;
    if c in Replay(log) {
      LastOneWins(log, c, Replay(log)[c]);
    }
    if i: nat :| Current(log, c, i) {
      assert i < |log| && log[i].Stored? by { CurrentIsStored(log, c, i); }
      assert LastStored(log, c, log[i].v, i);
      LastOneWins(log, c, log[i].v);
    }
  }

  lemma CurrentIsStored<C(!new), V>(log: seq<Event<C, V>>, c: C, i: nat)
    requires Current(log, c, i)
    ensures i < |log| && log[i].Stored?
  {
  }

  class HashTable<K(!new), V(==), C(==, !new)> {
    const table: Table<K, V, C>
    /** The calls so far. */
    ghost var log: seq<Event<C, V>>

    ghost predicate Valid()
      reads this, table
    {
      table.Valid() && table.contents == Replay(log)
    }

    constructor (size: nat, hash: K -> hash64, same: (K, K) -> bool, ghost keys: Classes<K, C>)
      requires size < Pow2(WORD) && Granted(RoundUp(size), true) && Agree(keys, hash, same)
      ensures Valid() && log == [] && fresh(table) && table.keys == keys && table.size == RoundUp(size)
      ensures table.released == []
    {
      table := new Table(size, hash, same, keys);
      log := [];
    }

    /**
     `hashtable_insert`. `memory` and `given` are what the allocator answers for new buckets and for a new
     node; `freed` is the replaced value, if it goes to the value's free function.
     */
    method Insert(key: K, value: V, memory: bool, given: Option<Addr>) returns (code: int, freed: Option<V>)
      requires Valid() && (given.Some? ==> given.value !in table.mem.next)
      modifies this, table
      ensures Valid() && (code == 0 || code == -1 || code == -2)
      ensures log == if code == 0 then old(log) + [Stored(table.keys.of(key), value)] else old(log)
      ensures var was := old(Loaded(table.contents, table.keys.of(key)));
        && freed == (if was != None && was != Some(value) then was else None)
        && if was.Some? then code == 0 && table.size == old(table.size)
           else
             var full := old(table.used > table.size + table.size / 8);
             && (code == -1 <==> full && !Granted(2 * old(table.size), memory))
             && (code != -1 ==> (code == -2 <==> given.None? && old(table.pool).None?))
             && table.size == (if full && code != -1 then 2 * old(table.size) else old(table.size))
      ensures code == -1 ==> table.bucket == old(table.bucket) && table.mem == old(table.mem)
      ensures table.released == old(table.released)
    {
      hide Holds, AllAddrs, Agree, SizeOk, Accounted, Lists, Whole, Fill, IsChain, Replay, LinkAt;
      freed := None;
      var link, node;
      ghost var b, i;
      link, node, b, i := table.Lookup(key);
      if node.Some? {
        if table.mem.load[node.value] != value {
          freed := Some(table.mem.load[node.value]);
        }
        table.Replace(node.value, value, b, i);
        Record(Stored(table.keys.of(key), value));
        return 0, freed;
      }
      code, link, b := table.MakeRoom(key, link, memory, b);
      if code != 0 {
        return;
      }
      var ok := table.AddNode(key, value, link, given, b);
      if !ok {
        code := -2;
        return;
      }
      Record(Stored(table.keys.of(key), value));
    }

    ghost method Record(e: Event<C, V>)
      modifies this`log
      ensures log == old(log) + [e]
      ensures Replay(log) ==
        var m := old(Replay(log));
        match e case Stored(c, v) => m[c := v] case Removed(c) => m - {c} case Cleared => map[]
    {
      log := log + [e];
      assert log[..|log| - 1] == old(log);
    }

    /** `hashtable_remove`: the entry's key and value go to their free functions. */
    method Remove(key: K, memory: bool) returns (code: int)
      requires Valid()
      modifies this, table
      ensures Valid()
      ensures code == if old(table.keys.of(key) in table.contents) then 0 else -1
      ensures log == if code == 0 then old(log) + [Removed(table.keys.of(key))] else old(log)
      ensures code == 0 ==> table.used == old(table.used) - 1
      ensures var was := old(table.size);
        table.size == if code == 0 && table.used < was / 2 - was / 4 && memory && was > 8 then was / 2 else was
      ensures code == 0 ==> exists k ::
        table.keys.of(k) == table.keys.of(key) &&
          table.released == old(table.released) + [(k, old(table.contents)[table.keys.of(key)])]
      ensures code == -1 ==>
        table.bucket == old(table.bucket) && table.mem == old(table.mem) && table.released == old(table.released)
    {
      hide Holds, AllAddrs, Agree, SizeOk, Accounted, Lists, Whole, Fill, IsChain, Replay, LinkAt;
      var link, node;
      ghost var b, i;
      link, node, b, i := table.Lookup(key);
      if node.None? {
        return -1;
      }
      ghost var k := table.nodes[b][i].key;
      table.Unlink(link, node.value, memory, b, i);
      assert table.keys.of(k) == table.keys.of(key);
      Record(Removed(table.keys.of(key)));
      return 0;
    }

    /** `hashtable_clear`: every entry's key and value go to their free functions, once. */
    method Clear(memory: bool)
      requires Valid()
      modifies this, table
      ensures Valid() && log == old(log) + [Cleared] && table.used == 0
      ensures table.size == if old(table.size) > 1024 && memory then old(table.size) / 8 else old(table.size)
      ensures old(table.released) <= table.released
      ensures Handed(table.keys, table.released, old(|table.released|), old(table.contents))
    {
      hide Holds, AllAddrs, Agree, SizeOk, Accounted, Lists, Whole, Fill, IsChain, Replay, Handed;
      table.Clear(memory);
      Record(Cleared);
    }

    /** `hashtable_lookup`: the value stored last and not removed since. */
    method Lookup(key: K) returns (v: Option<V>)
      requires Valid()
      ensures forall x :: v == Some(x) <==> exists i: nat :: LastStored(log, table.keys.of(key), x, i)
    {
      hide Holds, AllAddrs, Agree, SizeOk, Accounted, Lists, Whole, Fill, IsChain, Replay, LastStored, LinkAt;
      var link, node;
      ghost var b, i;
      link, node, b, i := table.Lookup(key);
      v := if node.Some? then Some(table.mem.load[node.value]) else None;
      forall x
        ensures v == Some(x) <==> exists i: nat :: LastStored(log, table.keys.of(key), x, i)
      {
        LastOneWins(log, table.keys.of(key), x);
      }
    }

    /** `hashtable_contains` */
    method Contains(key: K) returns (found: bool)
      requires Valid()
      ensures found <==> exists i: nat :: Current(log, table.keys.of(key), i)
    {
      hide Holds, AllAddrs, Agree, SizeOk, Accounted, Lists, Whole, Fill, IsChain, Replay, Current, LinkAt;
      var link, node;
      ghost var b, i;
      link, node, b, i := table.Lookup(key);
      found := node.Some?;
      KnownOnes(log, table.keys.of(key));
    }

    /** `hashtable_size`: the number of distinct keys. */
    method Size() returns (n: nat)
      requires Valid()
      ensures n == |Replay(log)|
    {
      n := table.used;
    }
  }

  /** `hashtable_alloc`: a table, or none if the bucket array cannot be allocated. */
  method Create<K(!new), V(==), C(==, !new)>(size: nat, memory: bool, hash: K -> hash64, same: (K, K) -> bool,
                                             ghost keys: Classes<K, C>)
    returns (t: Option<HashTable<K, V, C>>)
    requires size < Pow2(WORD) && Agree(keys, hash, same)
    ensures t.Some? <==> Granted(RoundUp(size), memory)
    ensures t.Some? ==>
      fresh(t.value) && fresh(t.value.table) && t.value.Valid() && t.value.log == [] &&
      t.value.table.size == RoundUp(size)
  {
    hide Pow2, RoundUp, Agree, Replay;
    if !Granted(RoundUp(size), memory) {
      return None;
    }
    var table := new HashTable(size, hash, same, keys);
    return Some(table);
  }
}
