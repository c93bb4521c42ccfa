/** The SCCG PLL of the i.MX8MQ clock controller: the rate is set as a rational multiple
    f/q of the parent rate, found by search, or by bypassing the PLL. */
module SccgPll {
  import opened Words
  import opened Bits

  /** 'parent_rate * f / q' */
  function Scaled(parent: Uint64, f: nat, q: nat): Uint64
    requires q > 0
  {
    DivLeq(Wrap(parent * f), q);
    Wrap(parent * f) / q
  }

  predicate Hit(parent: Uint64, rate: Uint64, f: nat, q: nat) {
    1 <= f <= 64 && 1 <= q <= 64 && rate == Scaled(parent, f, q)
  }

  /** 'find_sccg_pll_values': succeeds if and only if some pair hits the rate, and then
      returns the least quotient, and for it the least factor. */
  method FindValues(parent: Uint64, rate: Uint64) returns (found: bool, factor: nat, quotient: nat)
    ensures found <==> exists f: nat, q: nat :: Hit(parent, rate, f, q)
    ensures found ==> Hit(parent, rate, factor, quotient)
    ensures found ==> forall f: nat, q: nat :: Hit(parent, rate, f, q) ==>
              quotient < q || (quotient == q && factor <= f)
  {
    found, factor, quotient := false, 0, 0;
    var q := 1;
    while q <= 64
      invariant 1 <= q <= 65
      invariant forall f': nat, q': nat :: q' < q ==> !Hit(parent, rate, f', q')
    {
      var f := 1;
      while f <= 64
        invariant 1 <= f <= 65
        invariant forall f': nat, q': nat :: q' < q || (q' == q && f' < f) ==> !Hit(parent, rate, f', q')
      {
        if rate == Scaled(parent, f, q) {
          assert Hit(parent, rate, f, q);
          return true, f, q;
        }
        f := f + 1;
      }
      q := q + 1;
    }
  }

  /** 'Config_reg_2' for a factor and a quotient. */
  function WriteFactors(config2: Uint32, f: nat, q: nat): Uint32
    requires f > 0 && q > 0
  {
    Write(Write(Write(config2, 7, 6, f - 1), 19, 6, q - 1), 1, 6, 0)
  }

  /** 'rate() const' as a function of the three registers. */
  function RateOf(config0: Uint32, config1: Uint32, config2: Uint32, parent: Uint64): Uint64 {
    var factor := if Get(config1, 0, 1) == 1 then 8 else 2;
    var divf1, divf2 := Get(config2, 13, 6) + 1, Get(config2, 7, 6) + 1;
    var divr1, divr2 := Get(config2, 25, 3) + 1, Get(config2, 19, 6) + 1;
    var divq := Get(config2, 1, 6) + 1;
    if Get(config0, 4, 1) == 1 then parent
    else if Get(config0, 5, 1) == 1 then
      Positive(divr2, divq);
      Quotient(Wrap(parent * divf2), divr2 * divq)
    else
      Positive(divr1, divr2);
      Positive(divr1 * divr2, divq);
      Quotient(Wrap(parent * factor * divf1 * divf2), divr1 * divr2 * divq)
  }

  function Quotient(x: Uint64, d: nat): Uint64
    requires d > 0
  {
    DivLeq(x, d);
    x / d
  }

  lemma Positive(x: nat, y: nat)
    requires x > 0 && y > 0
    ensures x * y > 0
  {
  }

  /** The factors read back from the fields they were written to. */
  lemma FactorsReadBack(config2: Uint32, f: nat, q: nat)
    requires 1 <= f <= 64 && 1 <= q <= 64
    ensures Get(WriteFactors(config2, f, q), 7, 6) == f - 1
    ensures Get(WriteFactors(config2, f, q), 19, 6) == q - 1
    ensures Get(WriteFactors(config2, f, q), 1, 6) == 0
  {
    var c1 := Write(config2, 7, 6, f - 1);
    var c2 := Write(c1, 19, 6, q - 1);
    GetSet(config2, 7, 6, f - 1);
    GetSetOther(c1, 19, 6, q - 1, 7, 6);
    GetSetOther(c2, 1, 6, 0, 7, 6);
    GetSet(c1, 19, 6, q - 1);
    GetSetOther(c2, 1, 6, 0, 19, 6);
    GetSet(c2, 1, 6, 0);
    assert Pow2(6) == 64;
    LowFits(f - 1, 6);
    LowFits(q - 1, 6);
    LowFits(0, 6);
  }

  /** The bypass bits that a successful search leaves behind. */
  lemma BypassReadsBack(config0: Uint32)
    ensures Get(Write(Write(config0, 4, 1, 0), 5, 1, 1), 4, 1) == 0
    ensures Get(Write(Write(config0, 4, 1, 0), 5, 1, 1), 5, 1) == 1
    ensures Get(Write(config0, 4, 1, 1), 4, 1) == 1
  {
    var c1 := Write(config0, 4, 1, 0);
    GetSet(config0, 4, 1, 0);
    GetSetOther(c1, 5, 1, 1, 4, 1);
    GetSet(c1, 5, 1, 1);
    GetSet(config0, 4, 1, 1);
    assert Pow2(1) == 2;
    LowFits(0, 1);
    LowFits(1, 1);
  }

  /** After a successful search the getter yields the scaled parent rate. */
  lemma RateAfterSearch(config0: Uint32, config1: Uint32, config2: Uint32, parent: Uint64, f: nat, q: nat)
    requires 1 <= f <= 64 && 1 <= q <= 64
    ensures RateOf(Write(Write(config0, 4, 1, 0), 5, 1, 1), config1, WriteFactors(config2, f, q), parent)
         == Scaled(parent, f, q)
  {
    BypassReadsBack(config0);
    FactorsReadBack(config2, f, q);
    hide WriteFactors, Write;
  }

  lemma RateAfterBypass(config0: Uint32, config1: Uint32, config2: Uint32, parent: Uint64)
    ensures RateOf(Write(config0, 4, 1, 1), config1, config2, parent) == parent
  {
    BypassReadsBack(config0);
    hide Write;
  }

  // ---- the registers in arithmetic ----

  lemma FieldsOfConfig0(config0: Uint32)
    ensures Get(config0, 4, 1) == config0 / 0x10 % 2
    ensures Get(config0, 5, 1) == config0 / 0x20 % 2
  {
    Powers();
    GetIsMod(config0, 4, 1);
    GetIsMod(config0, 5, 1);
    hide Get, Pow2;
  }

  lemma FieldsOfConfig2(config1: Uint32, config2: Uint32)
    ensures Get(config1, 0, 1) == config1 % 2
    ensures Get(config2, 1, 6) == config2 / 2 % 0x40
    ensures Get(config2, 7, 6) == config2 / 0x80 % 0x40
    ensures Get(config2, 13, 6) == config2 / 0x2000 % 0x40
    ensures Get(config2, 19, 6) == config2 / 0x8_0000 % 0x40
    ensures Get(config2, 25, 3) == config2 / 0x200_0000 % 8
  {
    Powers();
    GetIsMod(config1, 0, 1);
    GetIsMod(config2, 1, 6);
    GetIsMod(config2, 7, 6);
    GetIsMod(config2, 13, 6);
    GetIsMod(config2, 19, 6);
    GetIsMod(config2, 25, 3);
    hide Get, Pow2;
  }

  /** r is x / d, rounded down. */
  predicate Floor(r: int, x: int, d: int) {
    r * d <= x < (r + 1) * d
  }

  lemma QuotientIsFloor(x: nat, d: nat)
    requires x < U64 && d > 0
    ensures Floor(Quotient(Wrap(x), d), x, d)
  {
    DivSandwich(x, d);
    assert Wrap(x) == x;
    assert (x / d + 1) * d == x / d * d + d;
  }

  /** What both PLLs in use multiply by: twice, or with 'Sse' eight times, both feedback
      factors. */
  function Multiplier(config1: Uint32, config2: Uint32): int {
    (if config1 % 2 == 1 then 8 else 2)
      * ((config2 / 0x2000 % 0x40 + 1) * (config2 / 0x80 % 0x40 + 1))
  }

  /** And what they divide by: both reference dividers and the output divider. */
  function Divisor(config2: Uint32): int {
    (config2 / 0x200_0000 % 8 + 1) * (config2 / 0x8_0000 % 0x40 + 1) * (config2 / 2 % 0x40 + 1)
  }

  /** The rate of a PLL that does not bypass. */
  lemma RateWithoutBypass(config0: Uint32, config1: Uint32, config2: Uint32, parent: Uint64)
    requires config0 / 0x10 % 2 == 0 && config0 / 0x20 % 2 == 0
    requires parent * Multiplier(config1, config2) < U64
    ensures Floor(RateOf(config0, config1, config2, parent),
                  parent * Multiplier(config1, config2), Divisor(config2))
  {
    hide *;
    FieldsOfConfig0(config0);
    FactorsOfConfig(config1, config2);
    ThirdBranch(config0, config1, config2, parent);
    var factor := if Get(config1, 0, 1) == 1 then 8 else 2;
    Regroup(parent, factor, Get(config2, 13, 6) + 1, Get(config2, 7, 6) + 1);
    QuotientIsFloor(parent * Multiplier(config1, config2), Divisor(config2));
  }

  lemma FactorsOfConfig(config1: Uint32, config2: Uint32)
    ensures var factor := if Get(config1, 0, 1) == 1 then 8 else 2;
            Multiplier(config1, config2) == factor * ((Get(config2, 13, 6) + 1) * (Get(config2, 7, 6) + 1))
    ensures Multiplier(config1, config2) >= 0
    ensures Divisor(config2) == (Get(config2, 25, 3) + 1) * (Get(config2, 19, 6) + 1) * (Get(config2, 1, 6) + 1)
  {
    FieldsOfConfig2(config1, config2);
    hide Get;
    Positive(config2 / 0x2000 % 0x40 + 1, config2 / 0x80 % 0x40 + 1);
  }

  lemma ThirdBranch(config0: Uint32, config1: Uint32, config2: Uint32, parent: Uint64)
    requires Get(config0, 4, 1) != 1 && Get(config0, 5, 1) != 1
    ensures var factor := if Get(config1, 0, 1) == 1 then 8 else 2;
            var d := (Get(config2, 25, 3) + 1) * (Get(config2, 19, 6) + 1) * (Get(config2, 1, 6) + 1);
            && d > 0
            && RateOf(config0, config1, config2, parent)
            == Quotient(Wrap(parent * factor * (Get(config2, 13, 6) + 1) * (Get(config2, 7, 6) + 1)), d)
  {
    hide Get;
    Positive(Get(config2, 25, 3) + 1, Get(config2, 19, 6) + 1);
    Positive((Get(config2, 25, 3) + 1) * (Get(config2, 19, 6) + 1), Get(config2, 1, 6) + 1);
  }

  lemma Regroup(p: nat, a: nat, b: nat, c: nat)
    ensures p * a * b * c == p * (a * (b * c))
  {
    assert p * (a * (b * c)) == p * a * (b * c);
    assert p * a * (b * c) == p * a * b * c;
  }

  /** The rate with the first PLL bypassed, for every output divider. */
  lemma RateWithBypass1(config0: Uint32, config1: Uint32, config2: Uint32, parent: Uint64)
    requires config0 / 0x10 % 2 == 0 && config0 / 0x20 % 2 == 1
    requires parent * (config2 / 0x80 % 0x40 + 1) < U64
    ensures Floor(RateOf(config0, config1, config2, parent),
                  parent * (config2 / 0x80 % 0x40 + 1),
                  (config2 / 0x8_0000 % 0x40 + 1) * (config2 / 2 % 0x40 + 1))
  {
    FieldsOfConfig0(config0);
    FieldsOfConfig2(config1, config2);
    hide Get;
    Positive(config2 / 0x8_0000 % 0x40 + 1, config2 / 2 % 0x40 + 1);
    QuotientIsFloor(parent * (config2 / 0x80 % 0x40 + 1),
                    (config2 / 0x8_0000 % 0x40 + 1) * (config2 / 2 % 0x40 + 1));
    hide Floor, Quotient, Wrap;
  }

  /** The rate with the second PLL bypassed is the parent's. */
  lemma RateWithBypass2(config0: Uint32, config1: Uint32, config2: Uint32, parent: Uint64)
    requires config0 / 0x10 % 2 == 1
    ensures RateOf(config0, config1, config2, parent) == parent
  {
    FieldsOfConfig0(config0);
    hide Get;
  }

  /** Registers that are zero double the rate of the parent, and 'Sse' alone multiplies it
      by eight. */
  lemma ZeroRegisters(parent: Uint64)
    requires parent * 8 < U64
    ensures RateOf(0, 0, 0, parent) == parent * 2
    ensures RateOf(0, 1, 0, parent) == parent * 8
  {
    assert Multiplier(0, 0) == 2 && Multiplier(1, 0) == 8 && Divisor(0) == 1;
    hide RateOf, Multiplier, Divisor;
    RateWithoutBypass(0, 0, 0, parent);
    RateWithoutBypass(0, 1, 0, parent);
  }

  /** A hit of the search in exact arithmetic. */
  lemma HitIsFloor(parent: Uint64, rate: Uint64, f: nat, q: nat)
    requires parent * 64 < U64 && 1 <= f <= 64 && 1 <= q <= 64
    ensures Hit(parent, rate, f, q) <==> Floor(rate, parent * f, q)
  {
    MulMono(parent, f, 64);
    assert Wrap(parent * f) == parent * f;
    DivSandwich(parent * f, q);
    assert (rate + 1) * q == rate * q + q;
    if Floor(rate, parent * f, q) {
      DivUnique(parent * f, q, rate);
    }
  }

  /** Bits outside the three fields that the setter writes stay. */
  lemma FactorsKeepRest(config2: Uint32, f: nat, q: nat)
    requires f > 0 && q > 0
    ensures forall i: nat :: i < 1 || 13 <= i < 19 || 25 <= i ==>
              Bit(WriteFactors(config2, f, q), i) == Bit(config2, i)
  {
    SetKeepsRest(config2, 7, 6, f - 1);
    SetKeepsRest(Write(config2, 7, 6, f - 1), 19, 6, q - 1);
    SetKeepsRest(Write(Write(config2, 7, 6, f - 1), 19, 6, q - 1), 1, 6, 0);
    hide Set, Bit;
  }

  class SccgPll {
    var config0: Uint32
    var config1: Uint32
    var config2: Uint32

    constructor (config0: Uint32, config1: Uint32, config2: Uint32)
      ensures this.config0 == config0 && this.config1 == config1 && this.config2 == config2
    {
      this.config0, this.config1, this.config2 := config0, config1, config2;
    }

    function Rate(parent: Uint64): Uint64
      reads this
    {
      RateOf(config0, config1, config2, parent)
    }

    /** 'rate(Rate)': sets the rate exactly if it is the parent's or a hit of the search
        exists; otherwise no register changes. */
    method SetRate(parent: Uint64, rate: Uint64) returns (done: bool)
      modifies this
      ensures done <==> rate == parent || exists f: nat, q: nat :: Hit(parent, rate, f, q)
      ensures done ==> Rate(parent) == rate
      ensures !done ==> unchanged(this)
      ensures config1 == old(config1)
      ensures rate == parent ==> config2 == old(config2) && config0 == Write(old(config0), 4, 1, 1)
      ensures rate != parent && done ==>
                config0 == Write(Write(old(config0), 4, 1, 0), 5, 1, 1)
      ensures rate != parent && done ==> exists f: nat, q: nat ::
                && Hit(parent, rate, f, q) && config2 == WriteFactors(old(config2), f, q)
                && (forall f': nat, q': nat :: Hit(parent, rate, f', q') ==> q < q' || (q == q' && f <= f'))
    {
      hide RateOf, Scaled, Write;
      if rate == parent {
        RateAfterBypass(config0, config1, config2, parent);
        config0 := Write(config0, 4, 1, 1);
        return true;
      }
      var found, f, q := FindValues(parent, rate);
      if !found {
        return false;
      }
      RateAfterSearch(config0, config1, config2, parent, f, q);
      config0 := Write(config0, 4, 1, 0);
      config0 := Write(config0, 5, 1, 1);
      config2 := Write(config2, 7, 6, f - 1);
      config2 := Write(config2, 19, 6, q - 1);
      config2 := Write(config2, 1, 6, 0);
      return true;
    }
  }
}
