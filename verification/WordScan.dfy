/** Scanning memory a machine word at a time (mm-utils/strlen.c, mm-utils/memchr.c); words are little-endian. */
module WordScan {
  import opened Options

  type memory = seq<bv8>

  // -------------------------------------------------------------------------
  // What the scans look for

  /** `n` is the distance from `str` to the first zero byte. */
  ghost predicate IsLength(mem: memory, str: nat, n: nat) {
    str + n < |mem| && mem[str + n] == 0 && forall k :: str <= k < str + n ==> mem[k] != 0
  }

  /** There is a terminated string at `str`. */
  ghost predicate IsString(mem: memory, str: nat) {
    exists k :: str <= k < |mem| && mem[k] == 0
  }

  /** A string has one length. */
  lemma LengthIsUnique(mem: memory, str: nat, n: nat, m: nat)
    requires IsLength(mem, str, n) && IsLength(mem, str, m)
    ensures n == m
  {
  }

  /** The place of the first byte `c` among the `n` bytes at `s`, if there is one. */
  ghost predicate IsFirst(mem: memory, s: nat, c: bv8, n: nat, r: Option<nat>) {
    match r
    case None => Without(mem, s, s + n, c)
    case Some(i) => s <= i < s + n && i < |mem| && mem[i] == c && Without(mem, s, i, c)
  }

  ghost predicate Without(mem: memory, from: nat, to: nat, c: bv8) {
    to <= |mem| && forall k :: from <= k < to ==> mem[k] != c
  }

  /** There is one answer. */
  lemma FirstIsUnique(mem: memory, s: nat, c: bv8, n: nat, r: Option<nat>, q: Option<nat>)
    requires IsFirst(mem, s, c, n, r) && IsFirst(mem, s, c, n, q)
    ensures r == q
  {
  }

  // -------------------------------------------------------------------------
  // Words

  /** A 16-bit word (the source computes with it in 32 bits). */
  function Word16(b0: bv8, b1: bv8): bv32 {
    (b0 as bv32) | ((b1 as bv32) << 8)
  }

  /** `__mask16`: the byte in every place. */
  function Mask16(c: bv8): bv32 {
    ((c as bv32) << 8) + (c as bv32)
  }

  /** The bit trick: is some byte of the word zero? */
  predicate HasZero16(x: bv32) {
    (x - 0x0101) & !x & 0x8080 != 0
  }

  lemma ZeroByte16(b0: bv8, b1: bv8)
    ensures HasZero16(Word16(b0, b1)) <==> b0 == 0 || b1 == 0
  {
  }

  lemma ByteMask16(b0: bv8, b1: bv8)
    ensures Word16(b0, b1) & 0x00ff == 0 <==> b0 == 0
    ensures Word16(b0, b1) & 0xff00 == 0 <==> b1 == 0
  {
  }

  lemma MaskIsWord16(c: bv8)
    ensures Mask16(c) == Word16(c, c)
  {
  }

  function And16(x: bv32, k: bv32): bv32 { x & k }

  function Place16(b: bv8, s: nat): bv32
    requires s <= 8
  {
    (b as bv32) << s
  }

  lemma SomeZero16(x: bv32)
    ensures HasZero16(x) <==> And16(x, 0x00ff) == 0 || And16(x, 0xff00) == 0
  {
  }

  lemma XorMask16(x: bv32, m: bv32)
    ensures And16(x ^ m, 0x00ff) == 0 <==> And16(x, 0x00ff) == And16(m, 0x00ff)
    ensures And16(x ^ m, 0xff00) == 0 <==> And16(x, 0xff00) == And16(m, 0xff00)
  {
  }

  lemma Bytes16(b0: bv8, b1: bv8)
    ensures And16(Word16(b0, b1), 0x00ff) == Place16(b0, 0)
    ensures And16(Word16(b0, b1), 0xff00) == Place16(b1, 8)
  {
  }

  lemma SameByte16(b: bv8, c: bv8)
    ensures Place16(b, 0) == Place16(c, 0) <==> b == c
    ensures Place16(b, 8) == Place16(c, 8) <==> b == c
  {
  }

  lemma ByteIs16(b0: bv8, b1: bv8, c: bv8)
    ensures HasZero16(Word16(b0, b1) ^ Mask16(c)) <==> b0 == c || b1 == c
  {
    hide Word16, Mask16, HasZero16, And16, Place16;
    MaskIsWord16(c);
    SomeZero16(Word16(b0, b1) ^ Mask16(c));
    XorMask16(Word16(b0, b1), Mask16(c));
    Bytes16(b0, b1);
    Bytes16(c, c);
    SameByte16(b0, c); SameByte16(b1, c);
  }

  /** An aligned word that starts within memory lies within memory. */
  lemma WholeWord16(size: nat, p: nat)
    requires size % 2 == 0 && p % 2 == 0 && p < size
    ensures p + 2 <= size && (p + 2) % 2 == 0
  {
  }

  /** A 32-bit word. */
  function Word32(b0: bv8, b1: bv8, b2: bv8, b3: bv8): bv32 {
    (b0 as bv32) | ((b1 as bv32) << 8) | ((b2 as bv32) << 16) | ((b3 as bv32) << 24)
  }

  /** `__mask32`: the byte in every place. */
  function Mask32(c: bv8): bv32 {
    ((c as bv32) << 24) + ((c as bv32) << 16) + ((c as bv32) << 8) + (c as bv32)
  }

  /** The bit trick: is some byte of the word zero? */
  predicate HasZero32(x: bv32) {
    (x - 0x01010101) & !x & 0x80808080 != 0
  }

  lemma ZeroByte32(b0: bv8, b1: bv8, b2: bv8, b3: bv8)
    ensures HasZero32(Word32(b0, b1, b2, b3)) <==> b0 == 0 || b1 == 0 || b2 == 0 || b3 == 0
  {
  }

  lemma ByteMask32(b0: bv8, b1: bv8, b2: bv8, b3: bv8)
    ensures Word32(b0, b1, b2, b3) & 0x000000ff == 0 <==> b0 == 0
    ensures Word32(b0, b1, b2, b3) & 0x0000ff00 == 0 <==> b1 == 0
    ensures Word32(b0, b1, b2, b3) & 0x00ff0000 == 0 <==> b2 == 0
    ensures Word32(b0, b1, b2, b3) & 0xff000000 == 0 <==> b3 == 0
  {
  }

  lemma MaskIsWord32(c: bv8)
    ensures Mask32(c) == Word32(c, c, c, c)
  {
  }

  function And32(x: bv32, k: bv32): bv32 { x & k }

  function Place32(b: bv8, s: nat): bv32
    requires s <= 24
  {
    (b as bv32) << s
  }

  lemma SomeZero32(x: bv32)
    ensures HasZero32(x) <==>
      And32(x, 0x000000ff) == 0 || And32(x, 0x0000ff00) == 0 || And32(x, 0x00ff0000) == 0 || And32(x, 0xff000000) == 0
  {
  }

  lemma XorMask32(x: bv32, m: bv32)
    ensures And32(x ^ m, 0x000000ff) == 0 <==> And32(x, 0x000000ff) == And32(m, 0x000000ff)
    ensures And32(x ^ m, 0x0000ff00) == 0 <==> And32(x, 0x0000ff00) == And32(m, 0x0000ff00)
    ensures And32(x ^ m, 0x00ff0000) == 0 <==> And32(x, 0x00ff0000) == And32(m, 0x00ff0000)
    ensures And32(x ^ m, 0xff000000) == 0 <==> And32(x, 0xff000000) == And32(m, 0xff000000)
  {
  }

  lemma Bytes32(b0: bv8, b1: bv8, b2: bv8, b3: bv8)
    ensures And32(Word32(b0, b1, b2, b3), 0x000000ff) == Place32(b0, 0)
    ensures And32(Word32(b0, b1, b2, b3), 0x0000ff00) == Place32(b1, 8)
    ensures And32(Word32(b0, b1, b2, b3), 0x00ff0000) == Place32(b2, 16)
    ensures And32(Word32(b0, b1, b2, b3), 0xff000000) == Place32(b3, 24)
  {
  }

  lemma SameByte32(b: bv8, c: bv8)
    ensures Place32(b, 0) == Place32(c, 0) <==> b == c
    ensures Place32(b, 8) == Place32(c, 8) <==> b == c
    ensures Place32(b, 16) == Place32(c, 16) <==> b == c
    ensures Place32(b, 24) == Place32(c, 24) <==> b == c
  {
  }

  lemma ByteIs32(b0: bv8, b1: bv8, b2: bv8, b3: bv8, c: bv8)
    ensures HasZero32(Word32(b0, b1, b2, b3) ^ Mask32(c)) <==> b0 == c || b1 == c || b2 == c || b3 == c
  {
    hide Word32, Mask32, HasZero32, And32, Place32;
    MaskIsWord32(c);
    SomeZero32(Word32(b0, b1, b2, b3) ^ Mask32(c));
    XorMask32(Word32(b0, b1, b2, b3), Mask32(c));
    Bytes32(b0, b1, b2, b3);
    Bytes32(c, c, c, c);
    SameByte32(b0, c); SameByte32(b1, c); SameByte32(b2, c); SameByte32(b3, c);
  }

  /** An aligned word that starts within memory lies within memory. */
  lemma WholeWord32(size: nat, p: nat)
    requires size % 4 == 0 && p % 4 == 0 && p < size
    ensures p + 4 <= size && (p + 4) % 4 == 0
  {
  }

  /** A 64-bit word. */
  function Word64(b0: bv8, b1: bv8, b2: bv8, b3: bv8, b4: bv8, b5: bv8, b6: bv8, b7: bv8): bv64 {
    (b0 as bv64) | ((b1 as bv64) << 8) | ((b2 as bv64) << 16) | ((b3 as bv64) << 24) | ((b4 as bv64) << 32) |
      ((b5 as bv64) << 40) | ((b6 as bv64) << 48) | ((b7 as bv64) << 56)
  }

  /** `__mask64`: the byte in every place. */
  function Mask64(c: bv8): bv64 {
    ((c as bv64) << 56) + ((c as bv64) << 48) + ((c as bv64) << 40) + ((c as bv64) << 32) + ((c as bv64) << 24) +
      ((c as bv64) << 16) + ((c as bv64) << 8) + (c as bv64)
  }

  /** The bit trick: is some byte of the word zero? */
  predicate HasZero64(x: bv64) {
    (x - 0x0101010101010101) & !x & 0x8080808080808080 != 0
  }

  lemma ZeroByte64(b0: bv8, b1: bv8, b2: bv8, b3: bv8, b4: bv8, b5: bv8, b6: bv8, b7: bv8)
    ensures HasZero64(Word64(b0, b1, b2, b3, b4, b5, b6, b7)) <==>
      b0 == 0 || b1 == 0 || b2 == 0 || b3 == 0 || b4 == 0 || b5 == 0 || b6 == 0 || b7 == 0
  {
  }

  lemma ByteMask64(b0: bv8, b1: bv8, b2: bv8, b3: bv8, b4: bv8, b5: bv8, b6: bv8, b7: bv8)
    ensures Word64(b0, b1, b2, b3, b4, b5, b6, b7) & 0x00000000000000ff == 0 <==> b0 == 0
    ensures Word64(b0, b1, b2, b3, b4, b5, b6, b7) & 0x000000000000ff00 == 0 <==> b1 == 0
    ensures Word64(b0, b1, b2, b3, b4, b5, b6, b7) & 0x0000000000ff0000 == 0 <==> b2 == 0
    ensures Word64(b0, b1, b2, b3, b4, b5, b6, b7) & 0x00000000ff000000 == 0 <==> b3 == 0
    ensures Word64(b0, b1, b2, b3, b4, b5, b6, b7) & 0x000000ff00000000 == 0 <==> b4 == 0
    ensures Word64(b0, b1, b2, b3, b4, b5, b6, b7) & 0x0000ff0000000000 == 0 <==> b5 == 0
    ensures Word64(b0, b1, b2, b3, b4, b5, b6, b7) & 0x00ff000000000000 == 0 <==> b6 == 0
    ensures Word64(b0, b1, b2, b3, b4, b5, b6, b7) & 0xff00000000000000 == 0 <==> b7 == 0
  {
  }

  lemma MaskIsWord64(c: bv8)
    ensures Mask64(c) == Word64(c, c, c, c, c, c, c, c)
  {
  }

  function And64(x: bv64, k: bv64): bv64 { x & k }

  function Place64(b: bv8, s: nat): bv64
    requires s <= 56
  {
    (b as bv64) << s
  }

  lemma SomeZero64(x: bv64)
    ensures HasZero64(x) <==>
      And64(x, 0x00000000000000ff) == 0 || And64(x, 0x000000000000ff00) == 0 || And64(x, 0x0000000000ff0000) == 0 ||
      And64(x, 0x00000000ff000000) == 0 || And64(x, 0x000000ff00000000) == 0 || And64(x, 0x0000ff0000000000) == 0 ||
      And64(x, 0x00ff000000000000) == 0 || And64(x, 0xff00000000000000) == 0
  {
  }

  lemma XorMaskLow64(x: bv64, m: bv64)
    ensures And64(x ^ m, 0x00000000000000ff) == 0 <==> And64(x, 0x00000000000000ff) == And64(m, 0x00000000000000ff)
    ensures And64(x ^ m, 0x000000000000ff00) == 0 <==> And64(x, 0x000000000000ff00) == And64(m, 0x000000000000ff00)
    ensures And64(x ^ m, 0x0000000000ff0000) == 0 <==> And64(x, 0x0000000000ff0000) == And64(m, 0x0000000000ff0000)
    ensures And64(x ^ m, 0x00000000ff000000) == 0 <==> And64(x, 0x00000000ff000000) == And64(m, 0x00000000ff000000)
  {
  }

  lemma XorMaskHigh64(x: bv64, m: bv64)
    ensures And64(x ^ m, 0x000000ff00000000) == 0 <==> And64(x, 0x000000ff00000000) == And64(m, 0x000000ff00000000)
    ensures And64(x ^ m, 0x0000ff0000000000) == 0 <==> And64(x, 0x0000ff0000000000) == And64(m, 0x0000ff0000000000)
    ensures And64(x ^ m, 0x00ff000000000000) == 0 <==> And64(x, 0x00ff000000000000) == And64(m, 0x00ff000000000000)
    ensures And64(x ^ m, 0xff00000000000000) == 0 <==> And64(x, 0xff00000000000000) == And64(m, 0xff00000000000000)
  {
  }

  lemma Bytes64(b0: bv8, b1: bv8, b2: bv8, b3: bv8, b4: bv8, b5: bv8, b6: bv8, b7: bv8)
    ensures And64(Word64(b0, b1, b2, b3, b4, b5, b6, b7), 0x00000000000000ff) == Place64(b0, 0)
    ensures And64(Word64(b0, b1, b2, b3, b4, b5, b6, b7), 0x000000000000ff00) == Place64(b1, 8)
    ensures And64(Word64(b0, b1, b2, b3, b4, b5, b6, b7), 0x0000000000ff0000) == Place64(b2, 16)
    ensures And64(Word64(b0, b1, b2, b3, b4, b5, b6, b7), 0x00000000ff000000) == Place64(b3, 24)
    ensures And64(Word64(b0, b1, b2, b3, b4, b5, b6, b7), 0x000000ff00000000) == Place64(b4, 32)
    ensures And64(Word64(b0, b1, b2, b3, b4, b5, b6, b7), 0x0000ff0000000000) == Place64(b5, 40)
    ensures And64(Word64(b0, b1, b2, b3, b4, b5, b6, b7), 0x00ff000000000000) == Place64(b6, 48)
    ensures And64(Word64(b0, b1, b2, b3, b4, b5, b6, b7), 0xff00000000000000) == Place64(b7, 56)
  {
  }

  lemma SameByte64(b: bv8, c: bv8)
    ensures Place64(b, 0) == Place64(c, 0) <==> b == c
    ensures Place64(b, 8) == Place64(c, 8) <==> b == c
    ensures Place64(b, 16) == Place64(c, 16) <==> b == c
    ensures Place64(b, 24) == Place64(c, 24) <==> b == c
    ensures Place64(b, 32) == Place64(c, 32) <==> b == c
    ensures Place64(b, 40) == Place64(c, 40) <==> b == c
    ensures Place64(b, 48) == Place64(c, 48) <==> b == c
    ensures Place64(b, 56) == Place64(c, 56) <==> b == c
  {
  }

  lemma ByteIs64(b0: bv8, b1: bv8, b2: bv8, b3: bv8, b4: bv8, b5: bv8, b6: bv8, b7: bv8, c: bv8)
    ensures HasZero64(Word64(b0, b1, b2, b3, b4, b5, b6, b7) ^ Mask64(c)) <==>
      b0 == c || b1 == c || b2 == c || b3 == c || b4 == c || b5 == c || b6 == c || b7 == c
  {
    hide Word64, Mask64, HasZero64, And64, Place64;
    MaskIsWord64(c);
    SomeZero64(Word64(b0, b1, b2, b3, b4, b5, b6, b7) ^ Mask64(c));
    XorMaskLow64(Word64(b0, b1, b2, b3, b4, b5, b6, b7), Mask64(c));
    XorMaskHigh64(Word64(b0, b1, b2, b3, b4, b5, b6, b7), Mask64(c));
    Bytes64(b0, b1, b2, b3, b4, b5, b6, b7);
    Bytes64(c, c, c, c, c, c, c, c);
    SameByte64(b0, c); SameByte64(b1, c); SameByte64(b2, c); SameByte64(b3, c); SameByte64(b4, c); SameByte64(b5, c);
    SameByte64(b6, c); SameByte64(b7, c);
  }

  /** An aligned word that starts within memory lies within memory. */
  lemma WholeWord64(size: nat, p: nat)
    requires size % 8 == 0 && p % 8 == 0 && p < size
    ensures p + 8 <= size && (p + 8) % 8 == 0
  {
  }

  // -------------------------------------------------------------------------
  // strlen

  /** `strlen8`: byte by byte. */
  method Strlen8(mem: memory, str: nat) returns (length: nat)
    requires IsString(mem, str)
    ensures IsLength(mem, str, length)
  {
    length := 0;
    while mem[str + length] != 0
      invariant str + length < |mem| && forall k :: str <= k < str + length ==> mem[k] != 0
      invariant exists k :: str + length <= k < |mem| && mem[k] == 0
      decreases |mem| - length
    {
      length := length + 1;
    }
  }

  /** Past the bytes `str .. p` without a zero, the terminator is still ahead. */
  ghost predicate Scanning(mem: memory, str: nat, p: nat) {
    str <= p < |mem| && (forall k :: str <= k < p ==> mem[k] != 0) && exists k :: p <= k < |mem| && mem[k] == 0
  }

  lemma ScanOn(mem: memory, str: nat, p: nat, w: nat)
    requires Scanning(mem, str, p) && p + w <= |mem| && forall k :: p <= k < p + w ==> mem[k] != 0
    ensures Scanning(mem, str, p + w)
  {
  }

  /** The bytes before the first word boundary. */
  method Align(mem: memory, str: nat, w: nat) returns (done: bool, length: nat)
    requires IsString(mem, str) && w > 0
    ensures done ==> IsLength(mem, str, length)
    ensures !done ==> (str + length) % w == 0 && Scanning(mem, str, str + length)
  {
    length := 0;
    while (str + length) % w != 0
      invariant Scanning(mem, str, str + length)
      decreases |mem| - length
    {
      if mem[str + length] == 0 {
        return true, length;
      }
      length := length + 1;
    }
    return false, length;
  }

  /** `strlen16` */
  method Strlen16(mem: memory, str: nat) returns (length: nat)
    requires IsString(mem, str) && |mem| % 2 == 0
    ensures IsLength(mem, str, length)
  {
    hide Word16, HasZero16, IsString;
    var done;
    done, length := Align(mem, str, 2);
    if done {
      return;
    }
    var p := str + length;
    while true
      invariant p == str + length && p % 2 == 0 && Scanning(mem, str, p)
      decreases |mem| - p
    {
      WholeWord16(|mem|, p);
      var x := Word16(mem[p], mem[p + 1]);
      ZeroByte16(mem[p], mem[p + 1]);
      if HasZero16(x) {
        ByteMask16(mem[p], mem[p + 1]);
        if x & 0x00ff == 0 {
          return length;
        }
        return length + 1;
      }
      ScanOn(mem, str, p, 2);
      length, p := length + 2, p + 2;
    }
  }

  /** `strlen32` */
  method Strlen32(mem: memory, str: nat) returns (length: nat)
    requires IsString(mem, str) && |mem| % 4 == 0
    ensures IsLength(mem, str, length)
  {
    hide Word32, HasZero32, IsString;
    var done;
    done, length := Align(mem, str, 4);
    if done {
      return;
    }
    var p := str + length;
    while true
      invariant p == str + length && p % 4 == 0 && Scanning(mem, str, p)
      decreases |mem| - p
    {
      WholeWord32(|mem|, p);
      var x := Word32(mem[p], mem[p + 1], mem[p + 2], mem[p + 3]);
      ZeroByte32(mem[p], mem[p + 1], mem[p + 2], mem[p + 3]);
      if HasZero32(x) {
        ByteMask32(mem[p], mem[p + 1], mem[p + 2], mem[p + 3]);
        if x & 0x000000ff == 0 {
          return length;
        }
        if x & 0x0000ff00 == 0 {
          return length + 1;
        }
        if x & 0x00ff0000 == 0 {
          return length + 2;
        }
        return length + 3;
      }
      ScanOn(mem, str, p, 4);
      length, p := length + 4, p + 4;
    }
  }

  /** `strlen64` */
  method Strlen64(mem: memory, str: nat) returns (length: nat)
    requires IsString(mem, str) && |mem| % 8 == 0
    ensures IsLength(mem, str, length)
  {
    hide Word64, HasZero64, IsString;
    var done;
    done, length := Align(mem, str, 8);
    if done {
      return;
    }
    var p := str + length;
    while true
      invariant p == str + length && p % 8 == 0 && Scanning(mem, str, p)
      decreases |mem| - p
    {
      WholeWord64(|mem|, p);
      var x := Word64(mem[p], mem[p + 1], mem[p + 2], mem[p + 3], mem[p + 4], mem[p + 5], mem[p + 6], mem[p + 7]);
      ZeroByte64(mem[p], mem[p + 1], mem[p + 2], mem[p + 3], mem[p + 4], mem[p + 5], mem[p + 6], mem[p + 7]);
      if HasZero64(x) {
        ByteMask64(mem[p], mem[p + 1], mem[p + 2], mem[p + 3], mem[p + 4], mem[p + 5], mem[p + 6], mem[p + 7]);
        if x & 0x00000000000000ff == 0 {
          return length;
        }
        if x & 0x000000000000ff00 == 0 {
          return length + 1;
        }
        if x & 0x0000000000ff0000 == 0 {
          return length + 2;
        }
        if x & 0x00000000ff000000 == 0 {
          return length + 3;
        }
        if x & 0x000000ff00000000 == 0 {
          return length + 4;
        }
        if x & 0x0000ff0000000000 == 0 {
          return length + 5;
        }
        if x & 0x00ff000000000000 == 0 {
          return length + 6;
        }
        return length + 7;
      }
      ScanOn(mem, str, p, 8);
      length, p := length + 8, p + 8;
    }
  }

  // -------------------------------------------------------------------------
  // memchr

  /** `memchr8`, and the last loop of the others: byte by byte. */
  method Memchr8(mem: memory, s: nat, c: bv8, n: nat) returns (r: Option<nat>)
    requires s + n <= |mem|
    ensures IsFirst(mem, s, c, n, r)
  {
    var p, left := s, n;
    while left > 0
      invariant left >= 0 && p + left == s + n && s <= p && Without(mem, s, p, c)
    {
      left := left - 1;
      if mem[p] == c {
        return Some(p);
      }
      p := p + 1;
    }
    return None;
  }

  /** Nothing found up to `p`: the rest decides. */
  lemma FirstInRest(mem: memory, s: nat, c: bv8, n: nat, p: nat, left: nat, r: Option<nat>)
    requires s <= p && p + left == s + n && Without(mem, s, p, c) && IsFirst(mem, p, c, left, r)
    ensures IsFirst(mem, s, c, n, r)
  {
  }

  /** `memchr16` */
  method Memchr16(mem: memory, s: nat, c: bv8, n: nat) returns (r: Option<nat>)
    requires s + n <= |mem|
    ensures IsFirst(mem, s, c, n, r)
  {
    hide Word16, HasZero16, Mask16, IsFirst;
    var mask := Mask16(c);
    var p, left := s, n;
    while left >= 2
      invariant 0 <= left && p + left == s + n && s <= p && Without(mem, s, p, c)
    {
      var x := Word16(mem[p], mem[p + 1]) ^ mask;
      ByteIs16(mem[p], mem[p + 1], c);
      if HasZero16(x) {
        break;
      }
      p, left := p + 2, left - 2;
    }
    r := Memchr8(mem, p, c, left);
    FirstInRest(mem, s, c, n, p, left, r);
  }

  /** `memchr32` */
  method Memchr32(mem: memory, s: nat, c: bv8, n: nat) returns (r: Option<nat>)
    requires s + n <= |mem|
    ensures IsFirst(mem, s, c, n, r)
  {
    hide Word32, HasZero32, Mask32, IsFirst;
    var mask := Mask32(c);
    var p, left := s, n;
    while left >= 4
      invariant 0 <= left && p + left == s + n && s <= p && Without(mem, s, p, c)
    {
      var x := Word32(mem[p], mem[p + 1], mem[p + 2], mem[p + 3]) ^ mask;
      ByteIs32(mem[p], mem[p + 1], mem[p + 2], mem[p + 3], c);
      if HasZero32(x) {
        break;
      }
      p, left := p + 4, left - 4;
    }
    r := Memchr8(mem, p, c, left);
    FirstInRest(mem, s, c, n, p, left, r);
  }

  /** `memchr64` */
  method Memchr64(mem: memory, s: nat, c: bv8, n: nat) returns (r: Option<nat>)
    requires s + n <= |mem|
    ensures IsFirst(mem, s, c, n, r)
  {
    hide Word64, HasZero64, Mask64, IsFirst;
    var mask := Mask64(c);
    var p, left := s, n;
    while left >= 8
      invariant 0 <= left && p + left == s + n && s <= p && Without(mem, s, p, c)
    {
      var x := Word64(mem[p], mem[p + 1], mem[p + 2], mem[p + 3], mem[p + 4], mem[p + 5], mem[p + 6],
                      mem[p + 7]) ^ mask;
      ByteIs64(mem[p], mem[p + 1], mem[p + 2], mem[p + 3], mem[p + 4], mem[p + 5], mem[p + 6], mem[p + 7], c);
      if HasZero64(x) {
        break;
      }
      p, left := p + 8, left - 8;
    }
    r := Memchr8(mem, p, c, left);
    FirstInRest(mem, s, c, n, p, left, r);
  }

  /** `memchr`: by the length of the buffer. */
  method Memchr(mem: memory, s: nat, c: bv8, n: nat) returns (r: Option<nat>)
    requires s + n <= |mem|
    ensures IsFirst(mem, s, c, n, r)
  {
    match if n < 8 then n else 8 {
      case 8 => r := Memchr64(mem, s, c, n);
      case 4 => r := Memchr32(mem, s, c, n);
      case 2 => r := Memchr16(mem, s, c, n);
      case _ => r := Memchr8(mem, s, c, n);
    }
  }
}
