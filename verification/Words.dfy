/** 32-bit words: nextPow2 (runtime/hipacc_base.hpp), which sizes the second stage of a reduction,
    and the numbers that words stand for. */
module Words {
  import opened Reductions

  /** Exactly one bit of x is set. */
  predicate IsBit(x: bv32) { x != 0 && x & (x - 1) == 0 }

  predicate AtMost(x: bv32, y: bv32) { x <= y }

  /** Doubling p until it reaches n. */
  function PowerAtLeast(n: nat, p: nat): (r: nat)
    requires p >= 1
    ensures r >= n && r >= p && (r == p || r < 2 * n)
    ensures IsPowerOfTwo(p) ==> IsPowerOfTwo(r)
    decreases n - p
  {
    if p >= n then p else PowerAtLeast(n, 2 * p)
  }

  /** nextPow2 on 32-bit words: the least power of two that is no less than x0 and no less than
      the warp size, which is the number that doubling reaches.  Beyond the largest power of two
      the word overflows and the warp size is returned. */
  method NextPow2(x0: bv32) returns (x: bv32)
    ensures x0 <= 0x8000_0000 ==>
      && IsBit(x) && AtMost(32, x) && AtMost(x0, x)
      && (forall y :: IsBit(y) && AtMost(32, y) && AtMost(x0, y) ==> AtMost(x, y))
      && Number(x) == PowerAtLeast(Number(x0), 32)
    ensures x0 > 0x8000_0000 ==> x == 32
  {
    hide IsBit, AtMost, Half, Smears, SameTop, AddsBelow, IsNext, Number;
    x := x0 - 1;
    ghost var v := x;
    TopOfSelf(v);
    x := x | (x >> 1);
    Smear1(v);
    ShiftsAddBelow(v);
    TopKept(v, v, x);
    BitsKept(v, v, x);
    ghost var m := x;
    x := x | (x >> 2);
    Smear2(v, m);
    ShiftsAddBelow(m);
    TopKept(v, m, x);
    BitsKept(v, m, x);
    m := x;
    x := x | (x >> 4);
    Smear4(v, m);
    ShiftsAddBelow(m);
    TopKept(v, m, x);
    BitsKept(v, m, x);
    m := x;
    x := x | (x >> 8);
    Smear8(v, m);
    ShiftsAddBelow(m);
    TopKept(v, m, x);
    BitsKept(v, m, x);
    m := x;
    x := x | (x >> 16);
    Smear16(v, m);
    ShiftsAddBelow(m);
    TopKept(v, m, x);
    BitsKept(v, m, x);
    m := x;
    x := x + 1;
    MaskIsNext(x0, v, m);
    if x < 32 {
      x := 32;
    }
    WarpSizeIsLeast(x0, m + 1, x);
    if x0 <= 0x8000_0000 { NextPow2IsPower(x0, x); }
  }

  /** Below each bit of m there is another one, unless rest has it. */
  predicate Smears(m: bv32, rest: bv32) { (m >> 1) & !(m | rest) == 0 }

  /** The highest bit of v and m is one, or both are 0. */
  predicate SameTop(v: bv32, m: bv32) { if v == 0 then m == 0 else m ^ v < v }

  /** s is m with bits added below its highest one. */
  predicate AddsBelow(m: bv32, s: bv32) { s == m | s && s & !m <= m >> 1 }

  lemma ShiftsAddBelow(m: bv32)
    ensures AddsBelow(m, m | (m >> 1)) && AddsBelow(m, m | (m >> 2)) && AddsBelow(m, m | (m >> 4))
    ensures AddsBelow(m, m | (m >> 8)) && AddsBelow(m, m | (m >> 16))
  {
  }

  lemma Smear1(v: bv32)
    ensures Smears(v | (v >> 1), v >> 2)
  {
  }

  lemma Smear2(v: bv32, m: bv32)
    requires Smears(m, v >> 2) && v & !m == 0
    ensures Smears(m | (m >> 2), v >> 4)
  {
  }

  lemma Smear4(v: bv32, m: bv32)
    requires Smears(m, v >> 4) && v & !m == 0
    ensures Smears(m | (m >> 4), v >> 8)
  {
  }

  lemma Smear8(v: bv32, m: bv32)
    requires Smears(m, v >> 8) && v & !m == 0
    ensures Smears(m | (m >> 8), v >> 16)
  {
  }

  lemma Smear16(v: bv32, m: bv32)
    requires Smears(m, v >> 16) && v & !m == 0
    ensures Smears(m | (m >> 16), 0)
  {
  }

  lemma TopOfSelf(v: bv32)
    ensures SameTop(v, v)
  {
  }

  lemma TopKept(v: bv32, m: bv32, s: bv32)
    requires SameTop(v, m) && AddsBelow(m, s)
    ensures SameTop(v, s)
  {
  }

  lemma BitsKept(v: bv32, m: bv32, s: bv32)
    requires v & !m == 0 && AddsBelow(m, s)
    ensures v & !s == 0
  {
  }

  /** All bits below the highest one of v are set: one more is the next power of two. */
  lemma MaskIsNext(x: bv32, v: bv32, m: bv32)
    requires v == x - 1 && Smears(m, 0) && v & !m == 0 && SameTop(v, m)
    ensures if 1 <= x <= 0x8000_0000 then IsNext(x, m + 1) else m + 1 == 0
  {
    hide Smears, SameTop, IsNext;
    if x == 1 {
      FirstPower(m);
    } else if 1 < x <= 0x8000_0000 {
      FullMask(x, v, m);
    } else {
      Overflows(x, v, m);
    }
  }

  /** r is a power of two, and half of it is less than x. */
  predicate IsNext(x: bv32, r: bv32) { IsBit(r) && r >= x && (r == 1 || (r >> 1) < x) }

  lemma FirstPower(m: bv32)
    requires SameTop(0, m)
    ensures IsNext(1, m + 1)
  {
  }

  lemma FullMask(x: bv32, v: bv32, m: bv32)
    requires v == x - 1 && 1 < x <= 0x8000_0000 && Smears(m, 0) && v & !m == 0 && SameTop(v, m)
    ensures IsNext(x, m + 1)
  {
  }

  lemma Overflows(x: bv32, v: bv32, m: bv32)
    requires v == x - 1 && !(1 < x <= 0x8000_0000) && x != 1 && Smears(m, 0) && v & !m == 0
    ensures m + 1 == 0
  {
  }

  lemma SparserPower(r: bv32, x: bv32, y: bv32)
    requires IsNext(x, r) && IsBit(y) && y >= x
    ensures r <= y
  {
  }

  /** The larger of such a power and the warp size is the least one that is at least both. */
  lemma WarpSizeIsLeast(x: bv32, r: bv32, size: bv32)
    requires if 1 <= x <= 0x8000_0000 then IsNext(x, r) else r == 0
    requires size == if r < 32 then 32 else r
    ensures x <= 0x8000_0000 ==>
      && IsBit(size) && AtMost(32, size) && AtMost(x, size)
      && forall y :: IsBit(y) && AtMost(32, y) && AtMost(x, y) ==> AtMost(size, y)
    ensures x > 0x8000_0000 ==> size == 32
  {
    if 1 <= x <= 0x8000_0000 {
      forall y | IsBit(y) && AtMost(32, y) && AtMost(x, y)
        ensures AtMost(size, y)
      {
        SparserPower(r, x, y);
      }
    }
  }

  /** The number a word stands for, and the word for a number. */
  function Number(x: bv32): nat
    decreases x
  {
    if x == 0 then 0 else 2 * Number(Half(x)) + Low(x)
  }

  function Half(x: bv32): bv32 { x >> 1 }

  function Low(x: bv32): nat { if x & 1 == 0 then 0 else 1 }

  function Word(n: nat): bv32 {
    if n == 0 then 0 else (Word(n / 2) << 1) | (if n % 2 == 0 then 0 else 1)
  }

  lemma NumberParts(x: bv32)
    ensures Number(x) == 2 * Number(Half(x)) + Low(x) && Low(x) <= 1
  {
  }

  lemma NumberZero(x: bv32)
    ensures Number(x) == 0 ==> x == 0
    decreases x
  {
    if x != 0 {
      if Half(x) == 0 { OddWord(x); } else { NumberZero(Half(x)); }
    }
  }

  lemma OddWord(x: bv32)
    requires x != 0 && Half(x) == 0
    ensures x & 1 != 0
  {
  }

  lemma HalvesOrder(x: bv32, y: bv32)
    requires AtMost(x, y)
    ensures AtMost(Half(x), Half(y))
  {
  }

  lemma LowOrder(x: bv32, y: bv32)
    requires AtMost(x, y) && Half(x) == Half(y)
    ensures Low(x) <= Low(y)
  {
  }

  lemma SameWord(x: bv32, y: bv32)
    requires Half(x) == Half(y) && Low(x) == Low(y)
    ensures x == y
  {
  }

  lemma HalfIsLess(x: bv32)
    requires x != 0
    ensures Number(Half(x)) < Number(x)
  {
    NumberParts(x);
    NumberZero(x);
  }

  lemma NothingBelowZero(x: bv32)
    requires AtMost(x, 0)
    ensures Number(x) == 0
  {
  }

  lemma {:induction false} NumberGrows(x: bv32, y: bv32)
    requires AtMost(x, y)
    ensures Number(x) <= Number(y)
    decreases Number(y)
  {
    hide Number, Low, Half, AtMost;
    NumberParts(x);
    NumberParts(y);
    HalvesOrder(x, y);
    if y == 0 {
      NothingBelowZero(x);
    } else {
      HalfIsLess(y);
      NumberGrows(Half(x), Half(y));
      if Half(x) == Half(y) { LowOrder(x, y); } else { NumberDiffers(Half(x), Half(y)); }
    }
  }

  lemma {:induction false} NumberDiffers(x: bv32, y: bv32)
    requires x != y
    ensures Number(x) != Number(y)
    decreases Number(x)
  {
    NumberParts(x);
    NumberParts(y);
    NumberZero(y);
    if x != 0 {
      HalfIsLess(x);
      hide Number, Low, Half;
      if Half(x) == Half(y) {
        if Low(x) == Low(y) { SameWord(x, y); }
      } else {
        NumberDiffers(Half(x), Half(y));
      }
    }
  }

  lemma NumberOrder(x: bv32, y: bv32)
    ensures AtMost(x, y) <==> Number(x) <= Number(y)
  {
    if AtMost(x, y) {
      NumberGrows(x, y);
    } else {
      Opposite(x, y);
      NumberGrows(y, x);
      NumberDiffers(x, y);
    }
  }

  lemma Opposite(x: bv32, y: bv32)
    requires !AtMost(x, y)
    ensures AtMost(y, x) && x != y
  {
  }

  lemma {:induction false} BitIsPower(x: bv32)
    requires IsBit(x)
    ensures IsPowerOfTwo(Number(x))
    ensures x > 1 ==> IsBit(Half(x)) && Number(x) == 2 * Number(Half(x))
    decreases x
  {
    if x > 1 { HalfBit(x); BitIsPower(Half(x)); }
  }

  lemma HalfBit(x: bv32)
    requires IsBit(x) && x > 1
    ensures IsBit(Half(x)) && x & 1 == 0
  {
  }

  lemma HighNumber()
    ensures Number(0x8000_0000) == 0x8000_0000
  {
    assert Number(0x1) == 1 && Number(0x2) == 2 && Number(0x4) == 4 && Number(0x8) == 8;
    assert Number(0x10) == 0x10 && Number(0x20) == 0x20 && Number(0x40) == 0x40 && Number(0x80) == 0x80;
    assert Number(0x100) == 0x100 && Number(0x200) == 0x200 && Number(0x400) == 0x400 && Number(0x800) == 0x800;
    assert Number(0x1000) == 0x1000 && Number(0x2000) == 0x2000;
    assert Number(0x4000) == 0x4000 && Number(0x8000) == 0x8000;
    assert Number(0x1_0000) == 0x1_0000 && Number(0x2_0000) == 0x2_0000;
    assert Number(0x4_0000) == 0x4_0000 && Number(0x8_0000) == 0x8_0000;
    assert Number(0x10_0000) == 0x10_0000 && Number(0x20_0000) == 0x20_0000;
    assert Number(0x40_0000) == 0x40_0000 && Number(0x80_0000) == 0x80_0000;
    assert Number(0x100_0000) == 0x100_0000 && Number(0x200_0000) == 0x200_0000;
    assert Number(0x400_0000) == 0x400_0000 && Number(0x800_0000) == 0x800_0000;
    assert Number(0x1000_0000) == 0x1000_0000 && Number(0x2000_0000) == 0x2000_0000;
    assert Number(0x4000_0000) == 0x4000_0000;
  }

  lemma ShiftBack(w: bv32, b: bv32)
    requires w < 0x8000_0000 && b <= 1
    ensures ((w << 1) | b) >> 1 == w && ((w << 1) | b) & 1 == b
  {
  }

  lemma {:induction false} NumberOfWord(n: nat)
    requires n < 0x1_0000_0000
    ensures Number(Word(n)) == n
  {
    if n > 0 {
      NumberOfWord(n / 2);
      HighNumber();
      NumberOrder(0x8000_0000, Word(n / 2));
      ShiftBack(Word(n / 2), if n % 2 == 0 then 0 else 1);
    }
  }

  lemma {:induction false} LeastPower(n: nat, p: nat, q: nat)
    requires IsPowerOfTwo(p) && IsPowerOfTwo(q) && q >= n && q >= p
    ensures PowerAtLeast(n, p) <= q
    decreases n - p
  {
    if p < n { NextPower(p, q); LeastPower(n, 2 * p, q); }
  }

  lemma NextPow2IsPower(x: bv32, r: bv32)
    requires IsBit(r) && AtMost(32, r) && AtMost(x, r)
    requires forall y :: IsBit(y) && AtMost(32, y) && AtMost(x, y) ==> AtMost(r, y)
    ensures Number(r) == PowerAtLeast(Number(x), 32)
  {
    var p := PowerAtLeast(Number(x), 32);
    hide IsBit, Number, Half, AtMost;
    WarpSizeNumber();
    BitIsPower(r);
    HalfOfBit(r);
    NumberOrder(32, r);
    NumberOrder(x, r);
    LeastPower(Number(x), 32, Number(r));
    if p < Number(r) {
      NextPower(p, Number(r));
      var h := Half(r);
      NumberOrder(32, h);
      NumberOrder(x, h);
      NumberOrder(r, h);
    }
  }

  lemma HalfOfBit(r: bv32)
    requires IsBit(r) && AtMost(32, r)
    ensures IsBit(Half(r)) && Number(r) == 2 * Number(Half(r))
  {
    HalfBit(r);
    BitIsPower(r);
  }

  lemma WarpSizeNumber()
    ensures Number(32) == 32 && IsPowerOfTwo(32)
  {
    assert Number(1) == 1 && Number(2) == 2 && Number(4) == 4 && Number(8) == 8 && Number(16) == 16;
    assert IsPowerOfTwo(2) && IsPowerOfTwo(4) && IsPowerOfTwo(8) && IsPowerOfTwo(16);
  }
}
