/** Registers as natural numbers, with the bit-field accesses of Genode's register
    framework: 'Get' reads 'Bitfield<lo, width>', 'Set' replaces that field by the
    low 'width' bits of a value and leaves every other bit alone. */
module Bits {
  import opened Words

  function Pow2(n: nat): (p: nat)
    ensures p > 0
  {
    if n == 0 then 1 else 2 * Pow2(n - 1)
  }

  predicate Bit(w: nat, i: nat) {
    if i == 0 then w % 2 == 1 else Bit(w / 2, i - 1)
  }

  /** C's 'w >> n'. */
  function High(w: nat, n: nat): nat {
    if n == 0 then w else High(w / 2, n - 1)
  }

  /** C's 'w & ((1 << n) - 1)'. */
  function Low(w: nat, n: nat): nat {
    if n == 0 then 0 else w % 2 + 2 * Low(w / 2, n - 1)
  }

  /** The low 'n' bits of 'low' with 'high' above them. */
  function Concat(high: nat, n: nat, low: nat): nat {
    if n == 0 then high else low % 2 + 2 * Concat(high, n - 1, low / 2)
  }

  /** C's '|' on unsigned operands. */
  function Or(a: nat, b: nat): nat {
    if a == 0 && b == 0 then 0
    else (if a % 2 == 1 || b % 2 == 1 then 1 else 0) + 2 * Or(a / 2, b / 2)
  }

  function Get(w: nat, lo: nat, width: nat): nat {
    Low(High(w, lo), width)
  }

  function Set(w: nat, lo: nat, width: nat, v: nat): nat {
    Concat(Concat(High(w, lo + width), width, v), lo, w)
  }

  // ---- what each operation does to a single bit ----

  /** Two numbers with the same bits are the same number. */
  lemma {:induction false} SameBits(v: nat, w: nat)
    requires forall i: nat :: Bit(v, i) == Bit(w, i)
    ensures v == w
  {
    assert Bit(v, 0) == Bit(w, 0);
    if v != 0 || w != 0 {
      forall i: nat
        ensures Bit(v / 2, i) == Bit(w / 2, i)
      {
        assert Bit(v, i + 1) == Bit(w, i + 1);
      }
      SameBits(v / 2, w / 2);
    }
  }

  lemma {:induction false} BitOfZero(i: nat)
    ensures !Bit(0, i)
  {
    if i > 0 {
      BitOfZero(i - 1);
    }
  }

  lemma {:induction false} BitOfOr(a: nat, b: nat, i: nat)
    ensures Bit(Or(a, b), i) == (Bit(a, i) || Bit(b, i))
  {
    if a == 0 && b == 0 {
      BitOfZero(i);
    } else if i > 0 {
      BitOfOr(a / 2, b / 2, i - 1);
    }
  }

  lemma {:induction false} BitOfHigh(w: nat, n: nat, i: nat)
    ensures Bit(High(w, n), i) == Bit(w, n + i)
  {
    if n > 0 {
      BitOfHigh(w / 2, n - 1, i);
    }
  }

  lemma {:induction false} BitOfLow(w: nat, n: nat, i: nat)
    ensures Bit(Low(w, n), i) == (i < n && Bit(w, i))
  {
    if n == 0 {
      BitOfZero(i);
    } else {
      var low := Low(w / 2, n - 1);
      assert Low(w, n) / 2 == low && Low(w, n) % 2 == w % 2;
      if i > 0 {
        BitOfLow(w / 2, n - 1, i - 1);
      }
    }
  }

  lemma {:induction false} BitOfConcat(high: nat, n: nat, low: nat, i: nat)
    ensures Bit(Concat(high, n, low), i) == if i < n then Bit(low, i) else Bit(high, i - n)
  {
    if n > 0 && i > 0 {
      BitOfConcat(high, n - 1, low / 2, i - 1);
    }
  }

  lemma BitOfGet(w: nat, lo: nat, width: nat, i: nat)
    ensures Bit(Get(w, lo, width), i) == (i < width && Bit(w, lo + i))
  {
    BitOfLow(High(w, lo), width, i);
    BitOfHigh(w, lo, i);
  }

  lemma BitOfSet(w: nat, lo: nat, width: nat, v: nat, i: nat)
    ensures Bit(Set(w, lo, width, v), i)
         == if lo <= i < lo + width then Bit(v, i - lo) else Bit(w, i)
  {
    BitOfConcat(Concat(High(w, lo + width), width, v), lo, w, i);
    if i >= lo {
      BitOfConcat(High(w, lo + width), width, v, i - lo);
      if i >= lo + width {
        BitOfHigh(w, lo + width, i - lo - width);
      }
    }
  }

  // ---- fields ----

  /** A field read back after a write holds the low 'width' bits of the value. */
  lemma GetSet(w: nat, lo: nat, width: nat, v: nat)
    ensures Get(Set(w, lo, width, v), lo, width) == Low(v, width)
  {
    forall i: nat
      ensures Bit(Get(Set(w, lo, width, v), lo, width), i) == Bit(Low(v, width), i)
    {
      BitOfGet(Set(w, lo, width, v), lo, width, i);
      BitOfSet(w, lo, width, v, lo + i);
      BitOfLow(v, width, i);
    }
    SameBits(Get(Set(w, lo, width, v), lo, width), Low(v, width));
  }

  /** A write leaves every field that does not overlap with it alone. */
  lemma GetSetOther(w: nat, lo: nat, width: nat, v: nat, lo': nat, width': nat)
    requires lo' + width' <= lo || lo + width <= lo'
    ensures Get(Set(w, lo, width, v), lo', width') == Get(w, lo', width')
  {
    forall i: nat
      ensures Bit(Get(Set(w, lo, width, v), lo', width'), i) == Bit(Get(w, lo', width'), i)
    {
      BitOfGet(Set(w, lo, width, v), lo', width', i);
      BitOfGet(w, lo', width', i);
      BitOfSet(w, lo, width, v, lo' + i);
    }
    SameBits(Get(Set(w, lo, width, v), lo', width'), Get(w, lo', width'));
  }

  /** Two registers agree on the bits from 'lo' up to, but not including, 'hi'. */
  ghost predicate SameFrom(v: nat, w: nat, lo: nat, hi: nat) {
    forall i: nat :: lo <= i < hi ==> Bit(v, i) == Bit(w, i)
  }

  /** A write leaves all bits below and above its field alone. */
  lemma SetKeepsRest(w: nat, lo: nat, width: nat, v: nat)
    ensures forall i: nat :: !(lo <= i < lo + width) ==> Bit(Set(w, lo, width, v), i) == Bit(w, i)
  {
    forall i: nat | !(lo <= i < lo + width)
      ensures Bit(Set(w, lo, width, v), i) == Bit(w, i)
    {
      BitOfSet(w, lo, width, v, i);
    }
  }

  // ---- arithmetic meaning ----

  lemma {:induction false} HighIsDiv(w: nat, n: nat)
    ensures High(w, n) == w / Pow2(n)
  {
    if n > 0 {
      HighIsDiv(w / 2, n - 1);
      DivDiv(w, 2, Pow2(n - 1));
    }
  }

  lemma {:induction false} LowFits(w: nat, n: nat)
    ensures Low(w, n) < Pow2(n)
    ensures w < Pow2(n) ==> Low(w, n) == w
  {
    if n > 0 {
      LowFits(w / 2, n - 1);
    }
  }

  lemma {:induction false} LowIsMod(w: nat, n: nat)
    ensures Low(w, n) == w % Pow2(n)
  {
    LowFits(w, n);
    HighLow(w, n);
    DivUnique(w, Pow2(n), High(w, n));
  }

  lemma Doubled(x: nat, y: nat)
    ensures x * (2 * y) == 2 * (x * y)
  {
  }

  lemma {:induction false} HighLow(w: nat, n: nat)
    ensures w == High(w, n) * Pow2(n) + Low(w, n)
  {
    if n > 0 {
      HighLow(w / 2, n - 1);
      Doubled(High(w / 2, n - 1), Pow2(n - 1));
      assert w == 2 * (w / 2) + w % 2;
    }
  }

  lemma {:induction false} ConcatIsSum(high: nat, n: nat, low: nat)
    ensures Concat(high, n, low) == high * Pow2(n) + Low(low, n)
  {
    if n > 0 {
      ConcatIsSum(high, n - 1, low / 2);
      Doubled(high, Pow2(n - 1));
    }
  }

  lemma {:induction false} ConcatFits(high: nat, n: nat, low: nat, m: nat)
    requires high < Pow2(m)
    ensures Concat(high, n, low) < Pow2(n + m)
  {
    if n > 0 {
      ConcatFits(high, n - 1, low / 2, m);
    }
  }

  lemma {:induction false} HighFits(w: nat, n: nat, m: nat)
    requires w < Pow2(n + m)
    ensures High(w, n) < Pow2(m)
  {
    if n > 0 {
      HighFits(w / 2, n - 1, m);
    }
  }

  /** A write inside the low 'n' bits of an n-bit register keeps it an n-bit register. */
  lemma SetFits(w: nat, lo: nat, width: nat, v: nat, n: nat)
    requires w < Pow2(n) && lo + width <= n
    ensures Set(w, lo, width, v) < Pow2(n)
  {
    HighFits(w, lo + width, n - lo - width);
    ConcatFits(High(w, lo + width), width, v, n - lo - width);
    ConcatFits(Concat(High(w, lo + width), width, v), lo, w, n - lo);
  }

  /** A bit-field in arithmetic. */
  lemma GetIsMod(w: nat, lo: nat, width: nat)
    ensures Get(w, lo, width) == w / Pow2(lo) % Pow2(width)
  {
    HighIsDiv(w, lo);
    LowIsMod(High(w, lo), width);
  }

  /** The powers of two at which the registers have fields. */
  lemma Powers()
    ensures Pow2(0) == 1 && Pow2(1) == 2 && Pow2(2) == 4 && Pow2(3) == 8 && Pow2(4) == 0x10
    ensures Pow2(5) == 0x20 && Pow2(6) == 0x40 && Pow2(7) == 0x80 && Pow2(9) == 0x200
    ensures Pow2(10) == 0x400 && Pow2(12) == 0x1000 && Pow2(13) == 0x2000 && Pow2(14) == 0x4000
    ensures Pow2(16) == 0x1_0000 && Pow2(19) == 0x8_0000
    ensures Pow2(24) == 0x100_0000 && Pow2(25) == 0x200_0000
  {
    assert Pow2(3) == 8;
    Pow2Add(3, 3);
    Pow2Add(6, 3);
    Pow2Add(6, 6);
    Pow2Add(12, 12);
    Pow2At16();
    Pow2Add(16, 3);
    hide Pow2;
    Pow2Step(3);
    Pow2Step(4);
    Pow2Step(6);
    Pow2Step(9);
    Pow2Step(12);
    Pow2Step(13);
    Pow2Step(24);
    Pow2Small();
  }

  lemma Pow2Step(n: nat)
    ensures Pow2(n + 1) == 2 * Pow2(n)
  {
  }

  lemma Pow2Small()
    ensures Pow2(0) == 1 && Pow2(1) == 2 && Pow2(2) == 4
  {
  }

  lemma Pow2At16()
    ensures Pow2(16) == 0x1_0000
  {
    assert Pow2(8) == 256;
    Pow2Add(8, 8);
  }

  lemma Pow2At32()
    ensures Pow2(32) == U32
  {
    Pow2At16();
    Pow2Add(16, 16);
  }

  /** 'write<Bitfield<lo, width>>(v)' on a 32-bit register. */
  function Write(reg: Uint32, lo: nat, width: nat, v: nat): Uint32
    requires lo + width <= 32
  {
    Pow2At32();
    SetFits(reg, lo, width, v, 32);
    Set(reg, lo, width, v)
  }

  lemma {:induction false} Pow2Add(m: nat, n: nat)
    ensures Pow2(m + n) == Pow2(m) * Pow2(n)
  {
    if m > 0 {
      Pow2Add(m - 1, n);
      assert Pow2(m + n) == 2 * Pow2(m - 1 + n);
    }
  }
}
