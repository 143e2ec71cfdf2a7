/** What the library asks of a comparison function. */
module Orders {
  /** A total preorder by the sign of the result. */
  ghost predicate TotalOrder<T(!new)>(cmp: (T, T) -> int) {
    (forall a, b :: cmp(a, b) < 0 <==> cmp(b, a) > 0) &&
    (forall a, b, c :: cmp(a, b) <= 0 && cmp(b, c) <= 0 ==> cmp(a, c) <= 0)
  }

  lemma Flip<T(!new)>(cmp: (T, T) -> int, a: T, b: T)
    requires TotalOrder(cmp)
    ensures cmp(a, b) < 0 <==> cmp(b, a) > 0
    ensures cmp(a, b) == 0 <==> cmp(b, a) == 0
  {
  }

  lemma Trans<T(!new)>(cmp: (T, T) -> int, a: T, b: T, c: T)
    requires TotalOrder(cmp)
    ensures cmp(a, b) <= 0 && cmp(b, c) <= 0 ==> cmp(a, c) <= 0
  {
  }

  lemma StrictTrans<T(!new)>(cmp: (T, T) -> int, a: T, b: T, c: T)
    requires TotalOrder(cmp) && cmp(a, b) <= 0 && cmp(b, c) <= 0 && (cmp(a, b) < 0 || cmp(b, c) < 0)
    ensures cmp(a, c) < 0 && cmp(c, a) > 0
  {
    hide TotalOrder;
    Flip(cmp, a, b);
    Flip(cmp, b, c);
    Flip(cmp, a, c);
    Trans(cmp, c, a, b);
    Trans(cmp, b, c, a);
  }
}

/** The order of `memcmp` on byte strings. */
module Memory {
  import opened Bytes
  import opened Orders

  function Memcmp(a: seq<byte>, b: seq<byte>): int {
    if a == [] || b == [] then |a| - |b|
    else if a[0] != b[0] then (a[0] as int) - (b[0] as int)
    else Memcmp(a[1..], b[1..])
  }

  lemma {:induction false} MemcmpFlip(a: seq<byte>, b: seq<byte>)
    ensures Memcmp(a, b) == -Memcmp(b, a)
  {
    if a != [] && b != [] && a[0] == b[0] {
      MemcmpFlip(a[1..], b[1..]);
    }
  }

  lemma {:induction false} MemcmpTrans(a: seq<byte>, b: seq<byte>, c: seq<byte>)
    requires Memcmp(a, b) <= 0 && Memcmp(b, c) <= 0
    ensures Memcmp(a, c) <= 0
  {
    if a != [] && b != [] && c != [] && a[0] == b[0] == c[0] {
      MemcmpTrans(a[1..], b[1..], c[1..]);
    }
  }

  lemma MemcmpOrder()
    ensures TotalOrder(Memcmp)
  {
    forall a, b
      ensures Memcmp(a, b) < 0 <==> Memcmp(b, a) > 0
    {
      MemcmpFlip(a, b);
    }
    forall a, b, c | Memcmp(a, b) <= 0 && Memcmp(b, c) <= 0
      ensures Memcmp(a, c) <= 0
    {
      MemcmpTrans(a, b, c);
    }
  }

  /** Byte strings of one length compare equal only when they are equal. */
  lemma {:induction false} MemcmpZero(a: seq<byte>, b: seq<byte>)
    requires |a| == |b|
    ensures Memcmp(a, b) == 0 <==> a == b
  {
    if a != [] {
      MemcmpZero(a[1..], b[1..]);
      assert a == [a[0]] + a[1..] && b == [b[0]] + b[1..];
    }
  }

  /** At the first byte in which they differ `a` has the smaller one. */
  ghost predicate LexLess(a: seq<byte>, b: seq<byte>) {
    exists i :: 0 <= i < |a| && i < |b| && a[..i] == b[..i] && a[i] < b[i]
  }

  /** `memcmp` is the order by the first byte that differs, the smaller byte first. */
  lemma {:induction false} MemcmpIsBytewise(a: seq<byte>, b: seq<byte>)
    requires |a| == |b|
    ensures Memcmp(a, b) < 0 <==> exists i :: 0 <= i < |a| && a[..i] == b[..i] && a[i] < b[i]
  {
    if a != [] {
      if a[0] == b[0] {
        MemcmpIsBytewise(a[1..], b[1..]);
        TailsLess(a, b);
      } else {
        FirstByteDecides(a, b);
      }
    }
  }

  lemma TailsLess(a: seq<byte>, b: seq<byte>)
    requires |a| == |b| > 0 && a[0] == b[0]
    ensures LexLess(a[1..], b[1..]) <==> LexLess(a, b)
  {
    var c, d := a[1..], b[1..];
    if i :| 0 <= i < |c| && c[..i] == d[..i] && c[i] < d[i] {
      assert a[..i + 1] == [a[0]] + c[..i] && b[..i + 1] == [b[0]] + d[..i];
      assert a[i + 1] < b[i + 1];
    }
    if i :| 0 <= i < |a| && a[..i] == b[..i] && a[i] < b[i] {
      assert c[..i - 1] == a[..i][1..] && d[..i - 1] == b[..i][1..];
      assert c[i - 1] < d[i - 1];
    }
  }

  lemma FirstByteDecides(a: seq<byte>, b: seq<byte>)
    requires |a| == |b| > 0 && a[0] != b[0]
    ensures LexLess(a, b) <==> a[0] < b[0]
  {
    if a[0] < b[0] {
      assert a[..0] == b[..0];
    }
    if i :| 0 <= i < |a| && a[..i] == b[..i] && a[i] < b[i] {
      assert i > 0 ==> a[..i][0] == b[..i][0];
    }
  }

  /** Ascending, byte by byte: of any two items the earlier one is the same or less. */
  ghost predicate AscendingBytes(s: seq<seq<byte>>) {
    forall i, j :: 0 <= i < j < |s| ==> s[i] == s[j] || LexLess(s[i], s[j])
  }

  lemma UpTo(a: seq<byte>, b: seq<byte>)
    requires |a| == |b|
    ensures Memcmp(a, b) <= 0 <==> a == b || LexLess(a, b)
  {
    hide Memcmp;
    MemcmpIsBytewise(a, b);
    MemcmpZero(a, b);
  }

  lemma AscendingIs(s: seq<seq<byte>>, size: nat)
    requires forall i :: 0 <= i < |s| ==> |s[i]| == size
    ensures AscendingBytes(s) <==> forall i, j :: 0 <= i < j < |s| ==> Memcmp(s[i], s[j]) <= 0
  {
    hide Memcmp, LexLess;
    forall i, j | 0 <= i < j < |s|
      ensures Memcmp(s[i], s[j]) <= 0 <==> s[i] == s[j] || LexLess(s[i], s[j])
    {
      UpTo(s[i], s[j]);
    }
  }
}
