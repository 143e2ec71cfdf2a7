/** Machine words as rows of bits, lowest bit first. */
module Bits {
  import opened Arithmetic

  type bits = seq<bool>

  function Pow2(k: nat): (r: nat)
    ensures r > 0
  {
    if k == 0 then 1 else 2 * Pow2(k - 1)
  }

  function Bit(b: bool): (r: nat) { if b then 1 else 0 }

  function Val(b: bits): nat {
    if b == [] then 0 else Bit(b[0]) + 2 * Val(b[1..])
  }

  function ToBits(n: nat, w: nat): (b: bits)
    ensures |b| == w
  {
    if w == 0 then [] else [n % 2 == 1] + ToBits(n / 2, w - 1)
  }

  function Shr(b: bits, k: nat): (r: bits)
    ensures |r| == |b|
  {
    seq(|b|, i requires 0 <= i < |b| => i + k < |b| && b[i + k])
  }

  function Or(a: bits, b: bits): (r: bits)
    requires |a| == |b|
    ensures |r| == |a|
  {
    seq(|a|, i requires 0 <= i < |a| => a[i] || b[i])
  }

  function And(a: bits, b: bits): (r: bits)
    requires |a| == |b|
    ensures |r| == |a|
  {
    seq(|a|, i requires 0 <= i < |a| => a[i] && b[i])
  }

  lemma {:induction false} ToBitsVal(n: nat, w: nat)
    requires n < Pow2(w)
    ensures Val(ToBits(n, w)) == n
  {
    if w > 0 {
      ToBitsVal(n / 2, w - 1);
      assert ToBits(n, w)[1..] == ToBits(n / 2, w - 1);
    }
  }

  lemma Doubles(k: nat)
    ensures Pow2(k + 1) == 2 * Pow2(k)
  {
  }

  lemma {:induction false} Pow2Add(i: nat, j: nat)
    ensures Pow2(i + j) == Pow2(i) * Pow2(j)
  {
    if i > 0 {
      Pow2Add(i - 1, j);
      Twofold(Pow2(i - 1), Pow2(j));
    }
  }

  lemma {:induction false} Pow2Mono(i: nat, j: nat)
    requires i <= j
    ensures Pow2(i) <= Pow2(j)
  {
    if i < j {
      Pow2Mono(i, j - 1);
    }
  }

  // -------------------------------------------------------------------------
  // Masking

  lemma HalfMod(h: nat, p: nat)
    requires p > 0
    ensures h % (2 * p) == h % 2 + 2 * ((h / 2) % p)
  {
    var q, r := (h / 2) / p, (h / 2) % p;
    assert h == (2 * p) * q + (h % 2 + 2 * r) by {
      Twofold(p, q);
      assert h / 2 == p * q + r;
    }
    ModIs(h, 2 * p, q, h % 2 + 2 * r);
  }

  lemma ModIs(h: nat, m: nat, q: nat, r: nat)
    requires m > 0 && r < m && h == m * q + r
    ensures h % m == r
  {
    var d := h / m - q;
    assert m * d == r - h % m by {
      Difference(h / m, q, m);
    }
    NoMultiple(m, d);
  }

  lemma NoMultiple(m: nat, d: int)
    requires 0 - m < m * d < m
    ensures d == 0
  {
    if d >= 1 {
      Difference(d, 1, m);
      Product(m, d - 1);
    } else if d <= -1 {
      Difference(-1, d, m);
      Product(m, -1 - d);
    }
  }

  /** `h & (2^k - 1)` is `h % 2^k`. */
  lemma {:induction false} MaskIsMod(h: nat, k: nat, w: nat)
    requires k <= w
    ensures Val(And(ToBits(h, w), ToBits(Pow2(k) - 1, w))) == h % Pow2(k)
  {
    hide And, ToBits, Val;
    if w == 0 {
      EmptyMask(h, 0);
    } else if k > 0 {
      MaskStep(h, Pow2(k) - 1, w);
      MaskIsMod(h / 2, k - 1, w - 1);
      HalfMod(h, Pow2(k - 1));
      LowBit(h);
    } else {
      MaskStep(h, 0, w);
      MaskIsMod(h / 2, 0, w - 1);
    }
  }

  lemma EmptyMask(h: nat, m: nat)
    ensures Val(And(ToBits(h, 0), ToBits(m, 0))) == 0
  {
  }

  lemma LowBit(h: nat)
    ensures Bit(h % 2 == 1) == h % 2
  {
  }

  lemma MaskStep(h: nat, m: nat, w: nat)
    requires w > 0
    ensures Val(And(ToBits(h, w), ToBits(m, w))) ==
      Bit(h % 2 == 1 && m % 2 == 1) + 2 * Val(And(ToBits(h / 2, w - 1), ToBits(m / 2, w - 1)))
  {
    assert And(ToBits(h, w), ToBits(m, w))[1..] == And(ToBits(h / 2, w - 1), ToBits(m / 2, w - 1));
  }

  // -------------------------------------------------------------------------
  // Smearing the highest one downwards

  /** Bit `i` of the result stands for the bits `i .. i + w` of `b`. */
  ghost predicate Smeared(b: bits, s: bits, w: nat) {
    |s| == |b| && forall i :: 0 <= i < |b| ==> (s[i] <==> OneIn(b, i, i + w))
  }

  ghost predicate OneIn(b: bits, from: int, to: int) {
    exists j :: 0 <= j < |b| && from <= j < to && b[j]
  }

  /** `s |= s >> w` doubles the stretch. */
  lemma SmearDoubles(b: bits, s: bits, w: nat)
    requires Smeared(b, s, w)
    ensures Smeared(b, Or(s, Shr(s, w)), 2 * w)
  {
    var s' := Or(s, Shr(s, w));
    forall i | 0 <= i < |b|
      ensures s'[i] <==> OneIn(b, i, i + 2 * w)
    {
      assert s'[i] <==> s[i] || (i + w < |b| && s[i + w]);
      assert i + w < |b| ==> (s[i + w] <==> OneIn(b, i + w, i + w + w));
    }
  }

  /** The highest one of a number. */
  lemma {:induction false} TopBit(n: nat, w: nat) returns (h: nat)
    requires 0 < n < Pow2(w)
    ensures h < w && ToBits(n, w)[h] && Pow2(h) <= n < Pow2(h + 1)
    ensures forall j :: h < j < w ==> !ToBits(n, w)[j]
  {
    var b := ToBits(n, w);
    if n == 1 {
      h := 0;
      ZeroBits(w - 1);
    } else {
      var h' := TopBit(n / 2, w - 1);
      h := h' + 1;
      assert forall j :: 0 < j < w ==> b[j] == ToBits(n / 2, w - 1)[j - 1];
    }
  }

  lemma {:induction false} ZeroBits(w: nat)
    ensures forall j :: 0 <= j < w ==> !ToBits(0, w)[j]
  {
    if w > 0 {
      ZeroBits(w - 1);
    }
  }

  /** Ones up to bit `h` and nothing above is `2^(h+1) - 1`. */
  lemma {:induction false} OnesVal(s: bits, h: int)
    requires -1 <= h < |s| && forall i :: 0 <= i < |s| ==> (s[i] <==> i <= h)
    ensures Val(s) == Pow2(h + 1) - 1
  {
    if s != [] {
      if h < 0 {
        OnesVal(s[1..], -1);
      } else {
        OnesVal(s[1..], h - 1);
      }
    }
  }
}

/** The bucket counts of the hash table and the bag (hashtable/hashtable.c, bag/bag.c). */
module Sizing {
  import opened Bits

  const WORD: nat := 64

  /** `__nbucket_roundup` on 64-bit words: smear the highest one of `size - 1` downwards, then add one. */
  function RoundUp(size: nat): nat
    requires size < Pow2(WORD)
  {
    if size < 8 then 8 else (Val(Smear(ToBits(size - 1, WORD))) + 1) % Pow2(WORD)
  }

  function OrShr(b: bits, k: nat): (r: bits)
    ensures |r| == |b|
  {
    Or(b, Shr(b, k))
  }

  function Smear(b: bits): (s: bits)
    ensures |s| == |b|
  {
    OrShr(OrShr(OrShr(OrShr(OrShr(OrShr(b, 1), 2), 4), 8), 16), 32)
  }

  lemma SmearAll(b: bits)
    ensures Smeared(b, Smear(b), 64)
  {
    hide OneIn;
    var s1 := OrShr(b, 1);
    var s2 := OrShr(s1, 2);
    var s3 := OrShr(s2, 4);
    var s4 := OrShr(s3, 8);
    var s5 := OrShr(s4, 16);
    SmearStart(b);
    SmearDoubles(b, b, 1);
    SmearDoubles(b, s1, 2);
    SmearDoubles(b, s2, 4);
    SmearDoubles(b, s3, 8);
    SmearDoubles(b, s4, 16);
    SmearDoubles(b, s5, 32);
  }

  lemma SmearStart(b: bits)
    ensures Smeared(b, b, 1)
  {
  }

  ghost predicate IsPow2(n: nat) {
    exists k: nat :: n == Pow2(k)
  }

  /** The least power of two not below `n`. */
  ghost predicate LeastPow2(r: nat, n: nat) {
    IsPow2(r) && r >= n && forall q: nat :: IsPow2(q) && q >= n ==> r <= q
  }

  lemma Between(h: nat, n: nat)
    requires Pow2(h) < n <= Pow2(h + 1)
    ensures LeastPow2(Pow2(h + 1), n)
  {
    forall q: nat | IsPow2(q) && q >= n
      ensures Pow2(h + 1) <= q
    {
      var k: nat :| q == Pow2(k);
      if k <= h {
        Pow2Mono(k, h);
      } else {
        Pow2Mono(h + 1, k);
      }
    }
  }

  lemma Small()
    ensures Pow2(0) == 1 && Pow2(1) == 2 && Pow2(2) == 4 && Pow2(3) == 8
  {
  }

  lemma SmearVal(n: nat) returns (h: nat)
    requires 0 < n < Pow2(WORD)
    ensures h < WORD && Pow2(h) <= n < Pow2(h + 1) && Val(Smear(ToBits(n, WORD))) == Pow2(h + 1) - 1
  {
    hide Smear, Val, ToBits, Pow2;
    var b := ToBits(n, WORD);
    var s := Smear(b);
    SmearAll(b);
    h := TopBit(n, WORD);
    forall i | 0 <= i < |s|
      ensures s[i] <==> i <= h
    {
      assert s[i] <==> OneIn(b, i, i + 64);
      if i <= h {
        assert b[h] && i <= h < i + 64;
      }
    }
    OnesVal(s, h);
  }

  /** Up to 2^63 the result is the least power of two that is at least `size` and at least 8; above, it is zero. */
  lemma RoundUpIsLeast(size: nat)
    requires size < Pow2(WORD)
    ensures size <= Pow2(63) ==> LeastPow2(RoundUp(size), if size < 8 then 8 else size)
    ensures size > Pow2(63) ==> RoundUp(size) == 0
  {
    hide Pow2, LeastPow2, RoundUp;
    Small();
    assert Pow2(63) >= 8 by { Pow2Mono(3, 63); }
    if size < 8 {
      SmallRoundUp(size);
      Between(2, 8);
    } else {
      var h := LargeRoundUp(size);
      Between(h, size);
      if h < 63 {
        Pow2Mono(h + 1, 63);
      }
    }
  }

  lemma SmallRoundUp(size: nat)
    requires size < 8 && size < Pow2(WORD)
    ensures RoundUp(size) == 8
  {
    hide Pow2;
  }

  lemma LargeRoundUp(size: nat) returns (h: nat)
    requires 8 <= size < Pow2(WORD)
    ensures h < WORD && Pow2(h) < size <= Pow2(h + 1)
    ensures RoundUp(size) == if h < 63 then Pow2(h + 1) else 0
  {
    hide Pow2, Smear, Val, ToBits;
    h := SmearVal(size - 1);
    if h < 63 {
      Pow2Mono(h + 1, 63);
      Doubles(63);
      Below(Pow2(h + 1), Pow2(WORD));
    } else {
      Below(0, Pow2(WORD));
    }
  }

  lemma Below(x: nat, m: nat)
    requires x < m
    ensures x % m == x && m % m == 0
  {
  }

}
