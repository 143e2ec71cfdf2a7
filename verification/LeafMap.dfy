/**
 A leaf page of the B-tree as a sorted finite map (btree/btree.c): binary search over
 the entries decides where an item goes, and inserting or removing there updates the map.
 */
module LeafMap {
  import opened Options
  import opened Orders
  import opened Bytes
  import opened PageBytes
  import opened LeafPage

  type Key = seq<byte>

  /** Keys strictly ascending. */
  ghost predicate Sorted(items: seq<Item>, cmp: (Key, Key) -> int) {
    forall i, j :: 0 <= i < j < |items| ==> cmp(items[i].key, items[j].key) < 0
  }

  /** The map: the value stored under a key that compares equal to `key`. */
  function Find(items: seq<Item>, cmp: (Key, Key) -> int, key: Key): Option<seq<byte>> {
    if items == [] then None
    else if cmp(items[0].key, key) == 0 then Some(items[0].value)
    else Find(items[1..], cmp, key)
  }

  /** `index` splits the keys into those below `key` and those above it. */
  ghost predicate Between(items: seq<Item>, cmp: (Key, Key) -> int, key: Key, index: nat) {
    index <= |items| &&
    (forall i :: 0 <= i < index ==> cmp(items[i].key, key) < 0) &&
    (forall i :: index <= i < |items| ==> cmp(items[i].key, key) > 0)
  }

  // -------------------------------------------------------------------------
  // The map as a list

  lemma {:induction false} FindNone(items: seq<Item>, cmp: (Key, Key) -> int, key: Key)
    ensures Find(items, cmp, key) == None <==> forall i :: 0 <= i < |items| ==> cmp(items[i].key, key) != 0
  {
    if items != [] {
      FindNone(items[1..], cmp, key);
      assert forall i :: 1 <= i < |items| ==> items[i] == items[1..][i - 1];
      assert forall i :: 0 <= i < |items| - 1 ==> items[1..][i] == items[i + 1];
    }
  }

  /** In a sorted page at most one key compares equal, so the map is the item at its index. */
  lemma {:induction false} FindAt(items: seq<Item>, cmp: (Key, Key) -> int, key: Key, i: nat)
    requires TotalOrder(cmp) && Sorted(items, cmp) && i < |items| && cmp(items[i].key, key) == 0
    ensures Find(items, cmp, key) == Some(items[i].value)
  {
    hide TotalOrder;
    if i > 0 {
      assert cmp(items[0].key, items[i].key) < 0;
      StrictTrans(cmp, items[0].key, items[i].key, key);
      assert forall x, y :: 0 <= x < y < |items| - 1 ==> items[1..][x] == items[x + 1] && items[1..][y] == items[y + 1];
      FindAt(items[1..], cmp, key, i - 1);
    }
  }

  /** The items after an insertion at `index`. */
  function Inserted(items: seq<Item>, index: nat, item: Item): seq<Item>
    requires index <= |items|
  {
    items[..index] + [item] + items[index..]
  }

  function Removed(items: seq<Item>, index: nat): seq<Item>
    requires index < |items|
  {
    items[..index] + items[index + 1..]
  }

  lemma Flips(items: seq<Item>, cmp: (Key, Key) -> int, key: Key)
    requires TotalOrder(cmp)
    ensures forall i :: 0 <= i < |items| ==> (cmp(items[i].key, key) > 0 <==> cmp(key, items[i].key) < 0)
  {
  }

  lemma InsertSorted(items: seq<Item>, cmp: (Key, Key) -> int, index: nat, item: Item)
    requires TotalOrder(cmp) && Sorted(items, cmp) && Between(items, cmp, item.key, index)
    ensures Sorted(Inserted(items, index, item), cmp)
  {
    hide TotalOrder;
    var r := Inserted(items, index, item);
    Flips(items, cmp, item.key);
    forall i, j | 0 <= i < j < |r|
      ensures cmp(r[i].key, r[j].key) < 0
    {
      if j < index {
        assert r[i] == items[i] && r[j] == items[j];
      } else if j == index {
        assert r[i] == items[i] && r[j] == item;
      } else {
        assert r[j] == items[j - 1];
        if i == index {
          assert r[i] == item;
        } else {
          assert r[i] == items[if i < index then i else i - 1];
        }
      }
    }
  }

  /** Two sorted pages that hold the same items apart from those whose keys equal `key` agree elsewhere. */
  lemma FindSame(xs: seq<Item>, ys: seq<Item>, cmp: (Key, Key) -> int, key: Key)
    requires TotalOrder(cmp) && Sorted(xs, cmp) && Sorted(ys, cmp)
    requires forall i :: 0 <= i < |xs| && cmp(xs[i].key, key) == 0 ==> xs[i] in ys
    requires forall i :: 0 <= i < |ys| && cmp(ys[i].key, key) == 0 ==> ys[i] in xs
    ensures Find(xs, cmp, key) == Find(ys, cmp, key)
  {
    hide Find, TotalOrder, Sorted;
    if i :| 0 <= i < |xs| && cmp(xs[i].key, key) == 0 {
      var j :| 0 <= j < |ys| && ys[j] == xs[i];
      FindAt(xs, cmp, key, i);
      FindAt(ys, cmp, key, j);
    } else {
      FindNone(xs, cmp, key);
      FindNone(ys, cmp, key);
    }
  }

  /** Inserting where the search says updates the map at one key and nowhere else. */
  lemma InsertUpdates(items: seq<Item>, cmp: (Key, Key) -> int, index: nat, item: Item, key: Key)
    requires TotalOrder(cmp) && Sorted(items, cmp) && Between(items, cmp, item.key, index)
    ensures Find(Inserted(items, index, item), cmp, key) ==
            if cmp(item.key, key) == 0 then Some(item.value) else Find(items, cmp, key)
  {
    hide Find, TotalOrder, Sorted;
    var r := Inserted(items, index, item);
    InsertSorted(items, cmp, index, item);
    if cmp(item.key, key) == 0 {
      assert r[index] == item;
      FindAt(r, cmp, key, index);
    } else {
      assert forall i :: 0 <= i < |items| ==> items[i] == r[if i < index then i else i + 1];
      FindSame(items, r, cmp, key);
    }
  }

  lemma RemoveSorted(items: seq<Item>, cmp: (Key, Key) -> int, index: nat)
    requires Sorted(items, cmp) && index < |items|
    ensures Sorted(Removed(items, index), cmp)
  {
    var r := Removed(items, index);
    assert forall i :: 0 <= i < |r| ==> r[i] == items[if i < index then i else i + 1];
  }

  /** No other key of a sorted page equals the one at `index`. */
  lemma OthersDiffer(items: seq<Item>, cmp: (Key, Key) -> int, index: nat, i: nat, key: Key)
    requires TotalOrder(cmp) && Sorted(items, cmp) && index < |items| && i < |items| && i != index
    requires cmp(items[index].key, key) == 0
    ensures cmp(items[i].key, key) != 0
  {
    hide TotalOrder;
    if i < index {
      StrictTrans(cmp, items[i].key, items[index].key, key);
    } else {
      Flip(cmp, items[index].key, key);
      StrictTrans(cmp, key, items[index].key, items[i].key);
    }
  }

  /** Removing an item deletes its key from the map and touches no other. */
  lemma RemoveDeletes(items: seq<Item>, cmp: (Key, Key) -> int, index: nat, key: Key)
    requires TotalOrder(cmp) && Sorted(items, cmp) && index < |items|
    ensures Find(Removed(items, index), cmp, key) ==
            if cmp(items[index].key, key) == 0 then None else Find(items, cmp, key)
  {
    hide Find, TotalOrder, Sorted;
    var r := Removed(items, index);
    RemoveSorted(items, cmp, index);
    if cmp(items[index].key, key) == 0 {
      forall i | 0 <= i < |r|
        ensures cmp(r[i].key, key) != 0
      {
        OthersDiffer(items, cmp, index, if i < index then i else i + 1, key);
      }
      FindNone(r, cmp, key);
    } else {
      assert forall i :: 0 <= i < |items| && i != index ==> items[i] == r[if i < index then i else i - 1];
      FindSame(items, r, cmp, key);
    }
  }

  // -------------------------------------------------------------------------
  // Pages

  /** `__index_search`: the index of the key, or the one that splits the keys around it. */
  method IndexSearch(page: Leaf, cmp: (Key, Key) -> int, key: Key) returns (found: bool, index: nat)
    requires page.Valid() && TotalOrder(cmp) && Sorted(page.content, cmp)
    ensures found ==> index < page.items && cmp(page.content[index].key, key) == 0
    ensures !found ==> Between(page.content, cmp, key, index)
    ensures found <==> Find(page.content, cmp, key).Some?
  {
    hide Find, TotalOrder, Laid, BodySize, FromLe32;
    FindNone(page.content, cmp, key);
    var low, high := 0, page.items - 1;
    while low <= high
      invariant 0 <= low <= high + 1 <= page.items
      invariant forall i :: 0 <= i < low ==> cmp(page.content[i].key, key) < 0
      invariant forall i :: high < i < page.items ==> cmp(page.content[i].key, key) > 0
      decreases high - low
    {
      var i := (low + high) / 2;
      page.EntryAt(i);
      var at := page.At(i);
      var c := cmp(page.data[..][at..at + page.keySize], key);
      if c == 0 {
        return true, i;
      }
      if c < 0 {
        forall j | 0 <= j < i
          ensures cmp(page.content[j].key, key) < 0
        {
          StrictTrans(cmp, page.content[j].key, page.content[i].key, key);
        }
        low := i + 1;
      } else {
        forall j | i < j < page.items
          ensures cmp(page.content[j].key, key) > 0
        {
          Flip(cmp, page.content[i].key, key);
          StrictTrans(cmp, key, page.content[i].key, page.content[j].key);
        }
        high := i - 1;
      }
    }
    return false, low;
  }

  /** `__leaf_search`: the value under `key`, read where its entry says. */
  method Lookup(page: Leaf, cmp: (Key, Key) -> int, key: Key) returns (r: Option<seq<byte>>)
    requires page.Valid() && TotalOrder(cmp) && Sorted(page.content, cmp)
    ensures r == Find(page.content, cmp, key)
  {
    hide Find, BodySize, FromLe32, TotalOrder, Sorted, Laid;
    var found, index := IndexSearch(page, cmp, key);
    if !found {
      return None;
    }
    FindAt(page.content, cmp, key, index);
    page.EntryAt(index);
    page.BodyAt(index);
    var at := page.At(index) + page.keySize;
    var offset := FromLe32(page.data[..][at..at + 4]);
    var size := FromLe32(page.data[..][at + 4..at + 8]);
    r := Some(page.data[..][offset..offset + size]);
  }

  /** Search, then insert where it says: the page stays a sorted map and changes at `key` only. */
  method Put(page: Leaf, cmp: (Key, Key) -> int, key: Key, value: seq<byte>) returns (stored: bool)
    requires page.Valid() && TotalOrder(cmp) && Sorted(page.content, cmp)
    requires Find(page.content, cmp, key).None? ==>
      |key| == page.keySize && page.keySize + ITEM_HEAD + |value| <= page.free
    modifies page, page.data
    ensures page.Valid() && Sorted(page.content, cmp)
    ensures stored <==> Find(old(page.content), cmp, key).None?
    ensures !stored ==> page.content == old(page.content) && page.data[..] == old(page.data[..])
    ensures stored ==>
      forall k :: Find(page.content, cmp, k) == if cmp(key, k) == 0 then Some(value)
        else Find(old(page.content), cmp, k)
  {
    hide Find, TotalOrder, Sorted, Laid, BodySize;
    var found, index := IndexSearch(page, cmp, key);
    if found {
      return false;
    }
    ghost var was := page.content;
    InsertSorted(was, cmp, index, Item(key, value));
    forall k
      ensures Find(Inserted(was, index, Item(key, value)), cmp, k) ==
              if cmp(key, k) == 0 then Some(value) else Find(was, cmp, k)
    {
      InsertUpdates(was, cmp, index, Item(key, value), k);
    }
    page.Insert(index, key, value);
    stored := true;
  }

  /** Search, then remove what it finds: the page stays a sorted map and loses that key only. */
  method Delete(page: Leaf, cmp: (Key, Key) -> int, key: Key) returns (gone: bool)
    requires page.Valid() && TotalOrder(cmp) && Sorted(page.content, cmp)
    requires forall i :: 0 <= i < page.items - 1 && i < |page.content| && cmp(page.content[i].key, key) == 0 ==>
      page.At(page.items + 1) <= page.data.Length
    modifies page, page.data
    ensures page.Valid() && Sorted(page.content, cmp)
    ensures gone <==> Find(old(page.content), cmp, key).Some?
    ensures !gone ==> page.content == old(page.content) && page.data[..] == old(page.data[..])
    ensures gone ==>
      forall k :: Find(page.content, cmp, k) == if cmp(key, k) == 0 then None else Find(old(page.content), cmp, k)
  {
    hide Find, TotalOrder, Sorted, Laid, BodySize;
    var found, index := IndexSearch(page, cmp, key);
    if !found {
      return false;
    }
    ghost var was := page.content;
    RemoveSorted(was, cmp, index);
    forall k
      ensures Find(Removed(was, index), cmp, k) == if cmp(key, k) == 0 then None else Find(was, cmp, k)
    {
      RemoveDeletes(was, cmp, index, k);
      SameClass(cmp, was[index].key, key, k);
    }
    page.Remove(index);
    gone := true;
  }

  lemma SameClass(cmp: (Key, Key) -> int, a: Key, b: Key, k: Key)
    requires TotalOrder(cmp) && cmp(a, b) == 0
    ensures cmp(a, k) == 0 <==> cmp(b, k) == 0
  {
    hide TotalOrder;
    Flip(cmp, a, b);
    Flip(cmp, a, k);
    Flip(cmp, b, k);
    Trans(cmp, b, a, k);
    Trans(cmp, k, a, b);
    Trans(cmp, a, b, k);
    Trans(cmp, k, b, a);
  }
}
