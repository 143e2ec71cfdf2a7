/** Numbers in byte arrays, lowest byte first, addressed bit by bit (uintx/uintx.c). Widths are multiples of eight. */
module UIntX {
  import opened Bytes
  import opened Arithmetic
  import opened Bits

  // -------------------------------------------------------------------------
  // Rows of bits

  lemma ValHead(s: bits)
    requires s != []
    ensures Val(s) == Bit(s[0]) + 2 * Val(s[1..])
  {
  }

  lemma {:induction false} ValConcat(a: bits, b: bits)
    ensures Val(a + b) == Val(a) + Pow2(|a|) * Val(b)
    decreases a, b, 1
  {
    if a == [] {
      assert a + b == b;
    } else {
      ValConcatStep(a, b);
    }
  }

  lemma {:induction false} ValConcatStep(a: bits, b: bits)
    requires a != []
    ensures Val(a + b) == Val(a) + Pow2(|a|) * Val(b)
    decreases a, b, 0
  {
    hide Val, Pow2, Bit;
    assert (a + b)[1..] == a[1..] + b && (a + b)[0] == a[0];
    ValConcat(a[1..], b);
    ValHead(a);
    ValHead(a + b);
    Doubles(|a| - 1);
    Twofold(Pow2(|a| - 1), Val(b));
  }

  lemma SplitAt(s: bits, i: nat)
    requires i < |s|
    ensures Val(s) == Val(s[..i]) + Pow2(i) * (Bit(s[i]) + 2 * Val(s[i + 1..]))
  {
    hide Pow2, Val;
    assert s == s[..i] + s[i..];
    ValConcat(s[..i], s[i..]);
    assert s[i..][1..] == s[i + 1..];
    ValHead(s[i..]);
  }

  lemma ValSnoc(a: bits, d: bool)
    ensures Val(a + [d]) == Val(a) + Pow2(|a|) * Bit(d)
  {
    ValConcat(a, [d]);
    assert Val([d]) == Bit(d) + 2 * Val([]) == Bit(d);
  }

  lemma {:induction false} ValBound(a: bits)
    ensures Val(a) < Pow2(|a|)
  {
    if a != [] {
      ValBound(a[1..]);
    }
  }

  lemma {:induction false} ValZero(a: bits)
    requires forall i :: 0 <= i < |a| ==> !a[i]
    ensures Val(a) == 0
  {
    if a != [] {
      ValZero(a[1..]);
    }
  }

  lemma {:induction false} BitsOfVal(t: bits)
    ensures ToBits(Val(t), |t|) == t
  {
    if t != [] {
      BitsOfVal(t[1..]);
      Halves(t[0], Val(t[1..]));
    }
  }

  lemma Halves(b: bool, v: nat)
    ensures (Bit(b) + 2 * v) % 2 == Bit(b) && (Bit(b) + 2 * v) / 2 == v
  {
  }

  lemma ByteWidth()
    ensures Pow2(8) == 256
  {
    assert Pow2(4) == 16;
  }

  // -------------------------------------------------------------------------
  // Byte arrays

  /** The number that a byte array stands for. */
  function Number(x: seq<byte>): nat {
    if x == [] then 0 else x[0] + 256 * Number(x[1..])
  }

  /** Its bits, in the order in which the source numbers them. */
  function BitsOf(x: seq<byte>): (s: bits)
    ensures |s| == 8 * |x|
  {
    if x == [] then [] else ToBits(x[0], 8) + BitsOf(x[1..])
  }

  lemma {:induction false} NumberIsVal(x: seq<byte>)
    ensures Number(x) == Val(BitsOf(x))
  {
    if x != [] {
      NumberIsVal(x[1..]);
      ByteWidth();
      ToBitsVal(x[0], 8);
      ValConcat(ToBits(x[0], 8), BitsOf(x[1..]));
    }
  }

  lemma NumberBound(x: seq<byte>)
    ensures Number(x) < Pow2(8 * |x|)
  {
    NumberIsVal(x);
    ValBound(BitsOf(x));
  }

  /** `__bit_test` */
  function BitTest(v: byte, k: nat): bool
    requires k < 8
  {
    ToBits(v, 8)[k]
  }

  /** `__bit_vset`: bit `k` cleared, then set to `d`. */
  function BitPut(v: byte, k: nat, d: bool): (r: byte)
    requires k < 8
  {
    var t := ToBits(v, 8)[k := d];
    ValBound(t);
    ByteWidth();
    Val(t)
  }

  lemma {:induction false} BitAt(x: seq<byte>, j: nat, k: nat)
    requires j < |x| && k < 8
    ensures BitsOf(x)[8 * j + k] == BitTest(x[j], k)
  {
    if j > 0 {
      BitAt(x[1..], j - 1, k);
      assert BitsOf(x)[8 * j + k] == BitsOf(x[1..])[8 * (j - 1) + k];
    }
  }

  lemma {:induction false} BitPutAt(x: seq<byte>, j: nat, k: nat, d: bool)
    requires j < |x| && k < 8
    ensures BitsOf(x[j := BitPut(x[j], k, d)]) == BitsOf(x)[8 * j + k := d]
  {
    hide BitPut, ToBits;
    var x' := x[j := BitPut(x[j], k, d)];
    if j > 0 {
      assert x'[1..] == x[1..][j - 1 := BitPut(x[j], k, d)];
      BitPutAt(x[1..], j - 1, k, d);
      UpdateTail(ToBits(x[0], 8), BitsOf(x[1..]), 8 * (j - 1) + k, d);
    } else {
      assert x'[1..] == x[1..];
      BitPutBits(x[0], k, d);
      UpdateHead(ToBits(x[0], 8), BitsOf(x[1..]), k, d);
    }
  }

  lemma BitPutBits(v: byte, k: nat, d: bool)
    requires k < 8
    ensures ToBits(BitPut(v, k, d), 8) == ToBits(v, 8)[k := d]
  {
    BitsOfVal(ToBits(v, 8)[k := d]);
  }

  lemma UpdateTail(a: bits, b: bits, i: nat, d: bool)
    requires i < |b|
    ensures a + b[i := d] == (a + b)[|a| + i := d]
  {
  }

  lemma UpdateHead(a: bits, b: bits, i: nat, d: bool)
    requires i < |a|
    ensures a[i := d] + b == (a + b)[i := d]
  {
  }

  /** One byte more at the low end. */
  lemma NumberCons(v: byte, x: seq<byte>)
    ensures Number([v] + x) == v + 256 * Number(x) && Number([]) == 0
  {
    assert ([v] + x)[1..] == x;
  }

  lemma Quotient(p: nat, a: nat, q: nat)
    requires a < p
    ensures (a + p * q) / p == q
  {
    var r := (a + p * q) / p;
    var m := (a + p * q) % p;
    assert p * r + m == a + p * q;
    Difference(r, q, p);
    if r > q {
      AtLeastOnce(r - q, p);
    } else if r < q {
      AtLeastOnce(q - r, p);
      Difference(q, r, p);
    }
  }

  /** Bit `i` of the array is bit `i` of the number. */
  lemma BitOfNumber(x: seq<byte>, i: nat)
    requires i < 8 * |x|
    ensures BitsOf(x)[i] <==> Number(x) / Pow2(i) % 2 == 1
  {
    hide Number, BitsOf, Val, Pow2;
    var s := BitsOf(x);
    NumberIsVal(x);
    SplitAt(s, i);
    ValBound(s[..i]);
    Quotient(Pow2(i), Val(s[..i]), Bit(s[i]) + 2 * Val(s[i + 1..]));
    Halves(s[i], Val(s[i + 1..]));
  }

  /** What changing bit `i` does to the number. */
  lemma PutNumber(x: seq<byte>, y: seq<byte>, i: nat, d: bool)
    requires i < 8 * |x| && |y| == |x| && BitsOf(y) == BitsOf(x)[i := d]
    ensures Number(y) == Number(x) + Pow2(i) * Bit(d) - Pow2(i) * Bit(BitsOf(x)[i])
  {
    hide Number, BitsOf, Val, Pow2, Bit;
    var s, t := BitsOf(x), BitsOf(y);
    NumberIsVal(x);
    NumberIsVal(y);
    SplitAt(s, i);
    SplitAt(t, i);
    assert t[..i] == s[..i] && t[i + 1..] == s[i + 1..];
    Sum(Bit(s[i]), 2 * Val(s[i + 1..]), Pow2(i));
    Sum(Bit(d), 2 * Val(s[i + 1..]), Pow2(i));
  }

  /** Test bit `i` of an array. */
  method Test(x: array<byte>, i: nat) returns (d: bool)
    requires i < 8 * x.Length
    ensures d == BitsOf(x[..])[i]
    ensures d <==> Number(x[..]) / Pow2(i) % 2 == 1
  {
    hide BitsOf, BitTest, Number, Pow2;
    d := BitTest(x[i / 8], i % 8);
    BitAt(x[..], i / 8, i % 8);
    BitOfNumber(x[..], i);
  }

  /** Set bit `i` of an array to `d`. */
  method Put(x: array<byte>, i: nat, d: bool)
    requires i < 8 * x.Length
    modifies x
    ensures BitsOf(x[..]) == old(BitsOf(x[..]))[i := d]
    ensures Number(x[..]) == old(Number(x[..])) + Pow2(i) * Bit(d) - Pow2(i) * Bit(old(BitsOf(x[..]))[i])
  {
    hide BitsOf, BitPut, Number, Pow2;
    ghost var was := x[..];
    BitPutAt(x[..], i / 8, i % 8, d);
    x[i / 8] := BitPut(x[i / 8], i % 8, d);
    assert x[..] == was[i / 8 := x[i / 8]];
    PutNumber(was, x[..], i, d);
  }

  // -------------------------------------------------------------------------
  // From a machine word

  /** Bits below `i` are done, `v` is what is left of the value. */
  ghost predicate Loading(s: bits, i: nat, v: nat, value: nat) {
    && i <= |s| && Val(s[..i]) + Pow2(i) * v == value
    && forall j :: i <= j < |s| ==> !s[j]
  }

  lemma LoadStep(s: bits, s': bits, i: nat, v: nat, value: nat)
    requires Loading(s, i, v, value) && i < |s| && s' == s[i := v % 2 == 1]
    ensures Loading(s', i + 1, v / 2, value)
  {
    assert s'[..i + 1] == s[..i] + [v % 2 == 1];
    ValSnoc(s[..i], v % 2 == 1);
    Halved(Pow2(i), v);
  }

  lemma Halved(p: nat, v: nat)
    ensures p * v == p * Bit(v % 2 == 1) + (2 * p) * (v / 2)
  {
    var h := v / 2;
    assert v == Bit(v % 2 == 1) + 2 * h;
    Sum(Bit(v % 2 == 1), 2 * h, p);
    Twofold(p, h);
  }

  /** There is room as long as something is left. */
  lemma LoadRoom(s: bits, i: nat, v: nat, value: nat)
    requires Loading(s, i, v, value) && v > 0 && value < Pow2(|s|)
    ensures i < |s|
  {
    if i == |s| {
      AtLeastOnce(v, Pow2(i));
    }
  }

  lemma LoadDone(s: bits, i: nat, value: nat)
    requires Loading(s, i, 0, value)
    ensures Val(s) == value
  {
    assert s == s[..i] + s[i..];
    ValConcat(s[..i], s[i..]);
    ValZero(s[i..]);
  }

  /** `uintx_from_u64`; the value has to fit the width. */
  method FromU64(x: array<byte>, value: nat)
    requires value < Pow2(8 * x.Length)
    modifies x
    ensures Number(x[..]) == value
  {
    hide Loading, BitsOf, Pow2, Number, Val;
    for k := 0 to x.Length
      invariant forall j :: 0 <= j < k ==> x[j] == 0
    {
      x[k] := 0;
    }
    ZeroLoading(x[..], value);
    var v, bit := value, 0;
    while v != 0
      invariant Loading(BitsOf(x[..]), bit, v, value)
      decreases v
    {
      ghost var s := BitsOf(x[..]);
      LoadRoom(s, bit, v, value);
      Put(x, bit, v % 2 == 1);
      LoadStep(s, BitsOf(x[..]), bit, v, value);
      v, bit := v / 2, bit + 1;
    }
    LoadDone(BitsOf(x[..]), bit, value);
    NumberIsVal(x[..]);
  }

  lemma ZeroLoading(x: seq<byte>, value: nat)
    requires forall j :: 0 <= j < |x| ==> x[j] == 0
    ensures Loading(BitsOf(x), 0, value, value)
  {
    ZeroBytes(x);
    assert BitsOf(x)[..0] == [];
  }

  lemma {:induction false} ZeroBytes(x: seq<byte>)
    requires forall j :: 0 <= j < |x| ==> x[j] == 0
    ensures forall i :: 0 <= i < |BitsOf(x)| ==> !BitsOf(x)[i]
  {
    if x != [] {
      ZeroBits(8);
      ZeroBytes(x[1..]);
    }
  }

  // -------------------------------------------------------------------------
  // Adding

  /** The low `i` bits are those of the sum, the others are as they were. */
  ghost predicate Adding(s: bits, was: bits, b: bits, i: nat, carry: bool) {
    && i <= |s| == |was|
    && s[i..] == was[i..]
    && Val(s[..i]) + Pow2(i) * Bit(carry) == Val(was[..i]) + Val(Low(b, i))
  }

  function Low(b: bits, i: nat): bits { if i < |b| then b[..i] else b }

  lemma AddStep(s: bits, s': bits, was: bits, b: bits, i: nat, carry: bool, d: nat)
    requires Adding(s, was, b, i, carry) && i < |s|
    requires d == Bit(s[i]) + Bit(i < |b| && b[i]) + Bit(carry)
    requires s' == s[i := d % 2 == 1]
    ensures Adding(s', was, b, i + 1, d / 2 == 1)
  {
    hide Val, Pow2;
    assert s[i] == s[i..][0] == was[i];
    assert s'[..i + 1] == s[..i] + [d % 2 == 1];
    ValSnoc(s[..i], d % 2 == 1);
    assert was[..i + 1] == was[..i] + [was[i]];
    ValSnoc(was[..i], was[i]);
    LowStep(b, i);
    assert s'[i + 1..] == was[i + 1..] by {
      assert s'[i + 1..] == s[i..][1..];
      assert was[i + 1..] == was[i..][1..];
    }
    CarryStep(Pow2(i), Bit(s[i]), Bit(i < |b| && b[i]), Bit(carry), d);
    Doubles(i);
  }

  lemma LowStep(b: bits, i: nat)
    ensures Val(Low(b, i + 1)) == Val(Low(b, i)) + Pow2(i) * Bit(i < |b| && b[i])
  {
    if i < |b| {
      assert Low(b, i + 1) == b[..i] + [b[i]];
      ValSnoc(b[..i], b[i]);
    }
  }

  lemma CarryStep(p: nat, x: nat, y: nat, c: nat, d: nat)
    requires x <= 1 && y <= 1 && c <= 1 && d == x + y + c
    ensures p * Bit(d % 2 == 1) + (2 * p) * Bit(d / 2 == 1) == p * x + p * y + p * c
  {
    Sum(x + y, c, p);
    Sum(x, y, p);
    Halved(p, d);
    assert Bit(d / 2 == 1) == d / 2;
  }

  /** `uintx_add`, where `a` is at least as wide as `b` and wide enough for the sum. */
  method Add(a: array<byte>, b: array<byte>)
    requires b.Length <= a.Length && Number(a[..]) + Number(b[..]) < Pow2(8 * a.Length)
    modifies a
    ensures Number(a[..]) == old(Number(a[..])) + old(Number(b[..]))
  {
    hide Adding, BitsOf, Pow2, Number, Val;
    ghost var was, bs := BitsOf(a[..]), BitsOf(b[..]);
    var carry, i := 0, 0;
    AddStart(was, bs);
    while i < 8 * a.Length && i < 8 * b.Length
      invariant 0 <= i <= 8 * b.Length && 0 <= carry <= 1 && Adding(BitsOf(a[..]), was, bs, i, carry == 1)
      invariant a != b ==> b[..] == old(b[..])
    {
      ghost var s := BitsOf(a[..]);
      AddAhead(s, was, bs, i, carry == 1);
      var da := Test(a, i);
      var db := Test(b, i);
      var d := Bit(da) + Bit(db) + carry;
      Put(a, i, d % 2 == 1);
      AddStep(s, BitsOf(a[..]), was, bs, i, carry == 1, d);
      carry, i := d / 2, i + 1;
    }
    while i < 8 * a.Length
      invariant 8 * b.Length <= i <= 8 * a.Length && 0 <= carry <= 1 && Adding(BitsOf(a[..]), was, bs, i, carry == 1)
    {
      ghost var s := BitsOf(a[..]);
      var da := Test(a, i);
      var d := Bit(da) + carry;
      Put(a, i, d % 2 == 1);
      AddStep(s, BitsOf(a[..]), was, bs, i, carry == 1, d);
      carry, i := d / 2, i + 1;
    }
    NumberIsVal(old(a[..]));
    NumberIsVal(old(b[..]));
    NumberIsVal(a[..]);
    AddDone(BitsOf(a[..]), was, bs, carry == 1);
  }

  lemma AddAhead(s: bits, was: bits, b: bits, i: nat, carry: bool)
    requires Adding(s, was, b, i, carry) && i < |s|
    ensures s[i] == was[i]
  {
    assert s[i] == s[i..][0];
  }

  lemma AddStart(was: bits, b: bits)
    ensures Adding(was, was, b, 0, false)
  {
    assert was[..0] == [];
    assert Low(b, 0) == [];
  }

  /** With all bits done, a carry would be a sum that does not fit. */
  lemma AddDone(s: bits, was: bits, b: bits, carry: bool)
    requires Adding(s, was, b, |was|, carry) && |b| <= |was| && Val(was) + Val(b) < Pow2(|was|)
    ensures !carry && Val(s) == Val(was) + Val(b)
  {
    hide Val, Pow2;
    WholeLow(s, |was|);
    WholeLow(was, |was|);
    WholeLow(b, |was|);
    assert s[..|was|] == s && was[..|was|] == was;
    NoCarry(Pow2(|was|), carry);
  }

  lemma WholeLow(b: bits, i: nat)
    requires |b| <= i
    ensures Low(b, i) == b
  {
  }

  lemma NoCarry(p: nat, carry: bool)
    ensures p * Bit(carry) == if carry then p else 0
  {
  }

  // -------------------------------------------------------------------------
  // Counting up and down

  lemma {:induction false} NumberSplit(x: seq<byte>, p: nat)
    requires p <= |x|
    ensures Number(x) == Number(x[..p]) + Pow2(8 * p) * Number(x[p..])
    decreases p
  {
    if p == 0 {
      assert x[..0] == [] && x[0..] == x;
    } else {
      NumberSplit(x[1..], p - 1);
      assert x[..p][1..] == x[1..][..p - 1];
      assert x[p..] == x[1..][p - 1..];
      BytePower(p - 1);
      Times256(Pow2(8 * (p - 1)), Number(x[p..]));
    }
  }

  lemma BytePower(p: nat)
    ensures Pow2(8 * (p + 1)) == 256 * Pow2(8 * p)
  {
    ByteWidth();
    Pow2Add(8, 8 * p);
  }

  lemma Times256(x: int, y: int)
    ensures 256 * (x * y) == (256 * x) * y
  {
  }

  lemma {:induction false} NumberAll(x: seq<byte>, v: byte)
    requires forall j :: 0 <= j < |x| ==> x[j] == v
    ensures v == 0 ==> Number(x) == 0
    ensures v == 255 ==> Number(x) == Pow2(8 * |x|) - 1
  {
    if x != [] {
      NumberAll(x[1..], v);
      BytePower(|x| - 1);
    }
  }

  lemma {:induction false} NumberInjective(x: seq<byte>, y: seq<byte>)
    requires |x| == |y| && Number(x) == Number(y)
    ensures x == y
  {
    if x != [] {
      assert x[0] == y[0];
      NumberInjective(x[1..], y[1..]);
      assert x == [x[0]] + x[1..];
      assert y == [y[0]] + y[1..];
    }
  }

  /** The bytes below `p` were all `v` and are now `w`; byte `p` has become `z`; the others are as they were. */
  ghost predicate Rippled(x: seq<byte>, was: seq<byte>, p: nat, v: byte, w: byte, z: byte) {
    && p < |x| == |was|
    && (forall j :: 0 <= j < p ==> was[j] == v && x[j] == w)
    && x[p] == z && x[p + 1..] == was[p + 1..]
  }

  /** What both numbers are then. */
  lemma RippledNumber(x: seq<byte>, was: seq<byte>, p: nat, v: byte, w: byte, z: byte)
    requires Rippled(x, was, p, v, w, z)
    ensures var u, top := Pow2(8 * p), Number(was[p + 1..]);
      && (v == 255 ==> Number(was) == u - 1 + u * was[p] + u * (256 * top))
      && (v == 0 ==> Number(was) == u * was[p] + u * (256 * top))
      && (w == 255 ==> Number(x) == u - 1 + u * z + u * (256 * top))
      && (w == 0 ==> Number(x) == u * z + u * (256 * top))
  {
    hide Pow2;
    var u, top := Pow2(8 * p), Number(was[p + 1..]);
    NumberSplit(was, p);
    NumberSplit(x, p);
    assert was[p..] == [was[p]] + was[p + 1..];
    assert x[p..] == [z] + was[p + 1..];
    NumberAll(was[..p], v);
    NumberAll(x[..p], w);
    Sum(was[p], 256 * top, u);
    Sum(z, 256 * top, u);
  }

  /** What `uintx_inc` leaves when it stops at byte `p`. */
  lemma IncDone(x: seq<byte>, was: seq<byte>, p: nat)
    requires Rippled(x, was, p, 255, 0, if p < |was| && was[p] < 255 then was[p] + 1 else 0)
    requires was[p] == 255 ==> p == |was| - 1
    ensures was[p] == 255 <==> Number(was) == Pow2(8 * |was|) - 1
    ensures Number(x) == if was[p] == 255 then 0 else Number(was) + 1
  {
    hide Pow2, Number;
    if was[p] < 255 {
      RippledNumber(x, was, p, 255, 0, was[p] + 1);
      Sum(was[p], 1, Pow2(8 * p));
      NumberBound(x);
    } else {
      NumberAll(was, 255);
      NumberAll(x, 0);
    }
  }

  /** `uintx_inc`: one more, modulo two to the width; the answer tells of the wrap-around. */
  method Inc(x: array<byte>) returns (overflow: bool)
    requires x.Length > 0
    modifies x
    ensures overflow <==> old(Number(x[..])) == Pow2(8 * x.Length) - 1
    ensures Number(x[..]) == if overflow then 0 else old(Number(x[..])) + 1
  {
    hide Number, Pow2;
    ghost var was := x[..];
    var p, pe := 0, x.Length - 1;
    x[p] := if x[p] == 255 then 0 else x[p] + 1;
    while x[p] == 0 && p < pe
      invariant 0 <= p <= pe
      invariant Rippled(x[..], was, p, 255, 0, if was[p] < 255 then was[p] + 1 else 0)
    {
      p := p + 1;
      x[p] := if x[p] == 255 then 0 else x[p] + 1;
    }
    IncDone(x[..], was, p);
    overflow := p == pe && x[p] == 0;
  }

  /** What `uintx_dec` leaves when it stops at byte `p`. */
  lemma DecDone(x: seq<byte>, was: seq<byte>, p: nat)
    requires Rippled(x, was, p, 0, 255, if p < |was| && was[p] > 0 then was[p] - 1 else 255)
    requires was[p] == 0 ==> p == |was| - 1
    ensures was[p] == 0 <==> Number(was) == 0
    ensures Number(x) == if was[p] == 0 then Pow2(8 * |was|) - 1 else Number(was) - 1
  {
    hide Pow2, Number;
    if was[p] > 0 {
      RippledNumber(x, was, p, 0, 255, was[p] - 1);
      Sum(was[p] - 1, 1, Pow2(8 * p));
    } else {
      NumberAll(was, 0);
      NumberAll(x, 255);
    }
  }

  /** The number whose only one is the lowest bit of its top byte. */
  lemma OneAtTop(was: seq<byte>, p: nat)
    requires p < |was| && was[p] != 0 && forall j :: 0 <= j < p ==> was[j] == 0
    ensures Number(was) == Pow2(8 * (|was| - 1)) <==> p == |was| - 1 && was[p] == 1
  {
    hide Pow2, Number;
    var n := |was| - 1;
    var y: seq<byte> := seq(n, _ => 0) + [1];
    NumberSplit(y, n);
    assert y[..n] == seq(n, _ => 0);
    NumberAll(y[..n], 0);
    assert y[n..] == [1];
    OneByte(1);
    if Number(was) == Pow2(8 * n) {
      NumberInjective(was, y);
    }
    if p == n && was[p] == 1 {
      assert was == y;
    }
  }

  lemma OneByte(v: byte)
    ensures Number([v]) == v
  {
    assert [v][1..] == [];
  }

  /**
   `uintx_dec`: one less, modulo two to the width. The answer is meant to tell of the wrap-around; it is
   true for the one number whose top byte goes from 1 to 0, and false on the wrap-around itself.
   */
  method Dec(x: array<byte>) returns (flag: bool)
    requires x.Length > 0
    modifies x
    ensures Number(x[..]) == if old(Number(x[..])) == 0 then Pow2(8 * x.Length) - 1 else old(Number(x[..])) - 1
    ensures flag <==> old(Number(x[..])) == Pow2(8 * (x.Length - 1))
    ensures flag == (old(Number(x[..])) == 0) <==>
      old(Number(x[..])) != 0 && old(Number(x[..])) != Pow2(8 * (x.Length - 1))
  {
    hide Number, Pow2;
    ghost var was := x[..];
    var p, pe := 0, x.Length - 1;
    var v := x[p];
    x[p] := if v == 0 then 255 else v - 1;
    while v == 0 && p < pe
      invariant 0 <= p <= pe && v == was[p]
      invariant Rippled(x[..], was, p, 0, 255, if was[p] > 0 then was[p] - 1 else 255)
    {
      p := p + 1;
      v := x[p];
      x[p] := if v == 0 then 255 else v - 1;
    }
    DecDone(x[..], was, p);
    flag := p == pe && x[p] == 0;
    if v != 0 {
      OneAtTop(was, p);
    }
  }

  /** Zero in one byte: the wrap-around to 255 is not reported. */
  method DecOnZero() returns (x: array<byte>, flag: bool)
    ensures fresh(x) && x[..] == [255] && !flag
  {
    x := new byte[1];
    x[0] := 0;
    OneByte(0);
    assert x[..] == [0];
    flag := Dec(x);
    OneByte(255);
    ByteWidth();
    NumberInjective(x[..], [255]);
  }

  /** Counting up and down again, or down and up, leaves every byte as it was. */
  method IncDec(x: array<byte>, upFirst: bool)
    requires x.Length > 0
    modifies x
    ensures x[..] == old(x[..])
  {
    hide Number, Pow2;
    ghost var was := x[..];
    NumberBound(x[..]);
    if upFirst {
      var o := Inc(x);
      var f := Dec(x);
    } else {
      var f := Dec(x);
      var o := Inc(x);
    }
    NumberInjective(was, x[..]);
  }

  // -------------------------------------------------------------------------
  // Comparing

  function Sign(d: int): int { if d < 0 then -1 else if d > 0 then 1 else 0 }

  /** A byte above the width of `b` decides. */
  lemma TopNonzero(a: seq<byte>, b: seq<byte>, j: nat)
    requires |b| <= j < |a| && a[j] != 0
    ensures Number(a) > Number(b)
  {
    hide Pow2;
    NumberSplit(a, j);
    AtLeastOnce(Number(a[j..]), Pow2(8 * j));
    NumberBound(b);
    Pow2Mono(8 * |b|, 8 * j);
  }

  lemma DropZeros(a: seq<byte>, k: nat)
    requires k <= |a| && forall j :: k <= j < |a| ==> a[j] == 0
    ensures Number(a) == Number(a[..k])
  {
    NumberSplit(a, k);
    NumberAll(a[k..], 0);
  }

  /** The highest differing bit decides. */
  lemma BitsDiffer(s: bits, t: bits, i: nat)
    requires i < |s| == |t| && s[i + 1..] == t[i + 1..] && s[i] && !t[i]
    ensures Val(s) > Val(t)
  {
    SplitAt(s, i);
    SplitAt(t, i);
    ValBound(t[..i]);
    var u, top := Pow2(i), Val(s[i + 1..]);
    Sum(1, 2 * top, u);
  }

  lemma {:induction false} BitsDrop(x: seq<byte>, k: nat)
    requires k <= |x|
    ensures BitsOf(x)[8 * k..] == BitsOf(x[k..])
  {
    if k > 0 {
      BitsDrop(x[1..], k - 1);
      assert x[1..][k - 1..] == x[k..];
      assert BitsOf(x)[8 * k..] == BitsOf(x[1..])[8 * (k - 1)..];
    } else {
      assert x[0..] == x;
    }
  }

  /** The part of `uintx_compare` for equal widths: equal bytes from the top, then bit by bit. */
  method CompareSame(a: seq<byte>, b: seq<byte>, n: nat) returns (r: int)
    requires n <= |a| && n <= |b|
    ensures r == Sign(Number(a[..n]) - Number(b[..n]))
  {
    hide Number, Val, BitsOf, BitTest, Pow2;
    ghost var s, t := BitsOf(a[..n]), BitsOf(b[..n]);
    NumberIsVal(a[..n]);
    NumberIsVal(b[..n]);
    var an, p := 8 * n, n - 1;
    while an >= 8
      invariant -1 <= p < n && an == 8 * (p + 1)
      invariant forall j :: p < j < n ==> a[j] == b[j]
    {
      if a[p] != b[p] {
        break;
      }
      an, p := an - 8, p - 1;
    }
    BitsDrop(a[..n], p + 1);
    BitsDrop(b[..n], p + 1);
    assert a[..n][p + 1..] == b[..n][p + 1..];
    while an > 0
      invariant 0 <= an <= 8 * n && s[an..] == t[an..]
    {
      an := an - 1;
      BitAt(a[..n], an / 8, an % 8);
      BitAt(b[..n], an / 8, an % 8);
      var v := BitTest(a[an / 8], an % 8);
      if v != BitTest(b[an / 8], an % 8) {
        if v {
          BitsDiffer(s, t, an);
        } else {
          BitsDiffer(t, s, an);
        }
        return if v then 1 else -1;
      }
      Upward(s, t, an);
    }
    assert s[0..] == s && t[0..] == t;
    return 0;
  }

  lemma Upward(s: bits, t: bits, i: nat)
    requires i < |s| == |t| && s[i] == t[i] && s[i + 1..] == t[i + 1..]
    ensures s[i..] == t[i..]
  {
    assert s[i..] == [s[i]] + s[i + 1..];
    assert t[i..] == [t[i]] + t[i + 1..];
  }

  /** The wider number's surplus bytes, from the top down to the width `n`: is one of them not zero? */
  method Surplus(a: seq<byte>, n: nat) returns (found: bool)
    requires n <= |a|
    ensures found <==> exists j :: n <= j < |a| && a[j] != 0
  {
    var an, p := 8 * |a|, |a| - 1;
    while an - 8 * n >= 8
      invariant an == 8 * (p + 1) && n - 1 <= p < |a| && forall j :: p < j < |a| ==> a[j] == 0
    {
      if a[p] != 0 {
        return true;
      }
      an, p := an - 8, p - 1;
    }
    return false;
  }

  /** `uintx_compare`: the sign of the difference. */
  method Compare(a: seq<byte>, b: seq<byte>) returns (r: int)
    ensures r == Sign(Number(a) - Number(b))
    ensures (r == -1 <==> Number(a) < Number(b)) && (r == 1 <==> Number(a) > Number(b)) && -1 <= r <= 1
  {
    hide Number;
    var n := if |a| < |b| then |a| else |b|;
    if |a| > |b| {
      var found := Surplus(a, |b|);
      if found {
        ghost var j :| |b| <= j < |a| && a[j] != 0;
        TopNonzero(a, b, j);
        return 1;
      }
    }
    if |b| > |a| {
      var found := Surplus(b, |a|);
      if found {
        ghost var j :| |a| <= j < |b| && b[j] != 0;
        TopNonzero(b, a, j);
        return -1;
      }
    }
    DropZeros(a, n);
    DropZeros(b, n);
    r := CompareSame(a, b, n);
  }

  // -------------------------------------------------------------------------
  // With a machine word

  /** `uintx_add64` */
  method Add64(x: array<byte>, value: nat)
    requires value < Pow2(64) && x.Length >= 8 && Number(x[..]) + value < Pow2(8 * x.Length)
    modifies x
    ensures Number(x[..]) == old(Number(x[..])) + value
  {
    hide Number, Pow2;
    var x64 := new byte[8];
    FromU64(x64, value);
    Add(x, x64);
  }

  /** `uintx_compare64` */
  method Compare64(x: seq<byte>, value: nat) returns (r: int)
    requires value < Pow2(64)
    ensures r == Sign(Number(x) - value)
    ensures (r == -1 <==> Number(x) < value) && (r == 1 <==> Number(x) > value) && -1 <= r <= 1
  {
    hide Number, Pow2;
    var x64 := new byte[8];
    FromU64(x64, value);
    r := Compare(x, x64[..]);
  }
}
