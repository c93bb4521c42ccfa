/** The fractional PLL of the i.MX8MQ clock controller: a rate is split into a 7-bit
    integer and a 24-bit fraction of the multiplied reference. */
module FracPll {
  import opened Words
  import opened Bits

  /** 'fixed_frac' */
  const FRAC: nat := 0x100_0000

  /** Multiplied and divided reference, 'parent * 8 / (Refclk_div_value + 1)'. */
  function Reference(parent: Uint64, refDiv: nat): Uint64 {
    DivLeq(Wrap(parent * 8), refDiv + 1);
    Wrap(parent * 8) / (refDiv + 1)
  }

  /** '(uint32_t)((r / pr) & 0b1111111)' */
  function IntDiv(r: Uint64, pr: Uint64, byZero: Uint64): (i: nat)
    ensures i < 128
  {
    Div(r, pr, byZero) % 128
  }

  /** '(uint32_t)(((r - div_int * pr) * fixed_frac) / pr)' */
  function FracDiv(r: Uint64, pr: Uint64, byZero: Uint64): Uint32 {
    Div(Wrap((r - IntDiv(r, pr, byZero) * pr) * FRAC), pr, byZero) % U32
  }

  /** The new contents of 'Config_reg_1'. */
  function Encode(r: Uint64, pr: Uint64, byZero: Uint64): Uint32 {
    Write(Write(0, 0, 7, (IntDiv(r, pr, byZero) - 1) % U32), 7, 24, FracDiv(r, pr, byZero))
  }

  /** The rate formula of the getter. */
  function Decode(pr: Uint64, divq: nat, divfi: nat, divff: nat): Uint64
    requires divq > 0
  {
    Wrap(Wrap(pr * (divfi + 1)) / divq + Wrap(pr * divff) / FRAC / divq)
  }

  /** The getter as a function of the two registers. */
  function RateOf(config0: Uint32, config1: Uint32, parent: Uint64): Uint64 {
    Decode(Reference(parent, Get(config0, 5, 6)), (Get(config0, 0, 5) + 1) * 2,
           Get(config1, 0, 7), Get(config1, 7, 24))
  }

  datatype Regs = Regs(config0: Uint32, config1: Uint32)

  class FracPll {
    var config0: Uint32
    var config1: Uint32
    var trace: seq<Regs>  // contents of the registers after each write
    const byZero: Uint64

    constructor (byZero: Uint64, config0: Uint32, config1: Uint32)
      ensures this.byZero == byZero && this.config0 == config0 && this.config1 == config1 && trace == []
    {
      this.byZero, this.config0, this.config1, this.trace := byZero, config0, config1, [];
    }

    function Pr(parent: Uint64): Uint64
      reads `config0
    {
      Reference(parent, Get(config0, 5, 6))
    }

    /** 'rate() const', with 'parent' the rate of the selected reference clock. */
    function Rate(parent: Uint64): Uint64
      reads this
    {
      RateOf(config0, config1, parent)
    }

    method Store(config0: Uint32, config1: Uint32)
      modifies this
      ensures this.config0 == config0 && this.config1 == config1
      ensures trace == old(trace) + [Regs(config0, config1)]
    {
      this.config0, this.config1 := config0, config1;
      trace := trace + [Regs(config0, config1)];
    }

    /** 'rate(Rate)'. 'ackAfter' is the number of polls that fail before the hardware
        acknowledges the new dividers. */
    method SetRate(parent: Uint64, rate: Uint64, ackAfter: nat) returns (polls: nat)
      modifies this
      ensures trace == old(trace)
                       + Programming(old(config0), Encode(Wrap(rate * 2), old(Pr(parent)), byZero))
      ensures config0 == Acknowledged(old(config0))
      ensures config1 == Encode(Wrap(rate * 2), old(Pr(parent)), byZero)
      ensures Pr(parent) == old(Pr(parent))
      ensures Get(config0, 0, 5) == 0 && Get(config0, 12, 1) == 0
      ensures forall lo: nat, width: nat ::
                (5 <= lo && lo + width <= 12) || 13 <= lo ==>
                Get(config0, lo, width) == old(Get(config0, lo, width))
      ensures Rate(parent) == ReadBack(rate, old(Pr(parent)), byZero)
      ensures SetsManualRate(parent, rate, old(config0), config0, config1)
      ensures polls == if old(config0) / 0x4000 % 2 == 1 || old(config0) / 0x8_0000 % 2 == 1 then 0
                       else if ackAfter < 0xfffff then ackAfter + 1 else 0xfffff
    {
      hide Reference, IntDiv, FracDiv, Decode, SetsManualRate;
      Handshake(config0);
      EncodeReadsBack(Wrap(rate * 2), Pr(parent), byZero);
      ProgrammedRateIsManual(config0, parent, rate, byZero);
      PowerFields(config0);
      var r := Wrap(rate * 2);
      var pr := Pr(parent);
      var divInt := IntDiv(r, pr, byZero);
      var divFrac := FracDiv(r, pr, byZero);
      var v: Uint32 := 0;
      v := Write(v, 0, 7, (divInt - 1) % U32);
      v := Write(v, 7, 24, divFrac);
      hide Write, Get;
      Store(config0, v);
      Store(Write(config0, 0, 5, 0), config1);
      Store(Write(config0, 12, 1, 1), config1);
      polls := 0;
      if !(Get(config0, 14, 1) == 1 || Get(config0, 19, 1) == 1) {
        var i := 0;
        while i < 0xfffff
          invariant i <= 0xfffff && i <= ackAfter && polls == i
        {
          polls := polls + 1;
          if i >= ackAfter {
            break;
          }
          i := i + 1;
        }
      }
      Store(Write(config0, 12, 1, 0), config1);
    }
  }

  /** Contents of 'Config_reg_0' after the setter's three writes. */
  function Acknowledged(config0: Uint32): Uint32 {
    Write(Write(Write(config0, 0, 5, 0), 12, 1, 1), 12, 1, 0)
  }

  /** The registers after each write of the setter. */
  function Programming(config0: Uint32, v: Uint32): seq<Regs> {
    var c1 := Write(config0, 0, 5, 0);
    var c2 := Write(c1, 12, 1, 1);
    [Regs(config0, v), Regs(c1, v), Regs(c2, v), Regs(Write(c2, 12, 1, 0), v)]
  }

  /** The new dividers are complete before 'Newdiv_val' offers them to the hardware, and it
      is withdrawn at the end. */
  lemma DividersAreOfferedComplete(config0: Uint32, v: Uint32)
    ensures var ts := Programming(config0, v);
            && (forall t <- ts :: t.config1 == v)
            && ts[2].config0 % 0x20 == 0 && ts[2].config0 / 0x1000 % 2 == 1
            && ts[1].config0 / 0x1000 % 2 == config0 / 0x1000 % 2
            && ts[3].config0 % 0x20 == 0 && ts[3].config0 / 0x1000 % 2 == 0
  {
    var c1 := Write(config0, 0, 5, 0);
    var c2 := Write(c1, 12, 1, 1);
    var c3 := Write(c2, 12, 1, 0);
    GetSet(config0, 0, 5, 0);
    GetSetOther(config0, 0, 5, 0, 12, 1);
    GetSetOther(c1, 12, 1, 1, 0, 5);
    GetSet(c1, 12, 1, 1);
    GetSetOther(c2, 12, 1, 0, 0, 5);
    GetSet(c2, 12, 1, 0);
    LowFits(0, 5);
    LowFits(0, 1);
    assert Low(1, 1) == 1;
    FieldsOfConfig0(config0);
    FieldsOfConfig0(c1);
    FieldsOfConfig0(c2);
    FieldsOfConfig0(c3);
    hide Get, Set, Low;
  }

  /** The fields of the two registers in arithmetic. */
  lemma FieldsOfConfig0(config0: Uint32)
    ensures Get(config0, 0, 5) == config0 % 0x20
    ensures Get(config0, 5, 6) == config0 / 0x20 % 0x40
    ensures Get(config0, 12, 1) == config0 / 0x1000 % 2
    ensures Get(config0, 14, 1) == config0 / 0x4000 % 2
    ensures Get(config0, 19, 1) == config0 / 0x8_0000 % 2
  {
    Powers();
    GetIsMod(config0, 0, 5);
    GetIsMod(config0, 5, 6);
    GetIsMod(config0, 12, 1);
    GetIsMod(config0, 14, 1);
    GetIsMod(config0, 19, 1);
    hide Get, Pow2;
  }

  lemma FieldsOfConfig1(config1: Uint32)
    ensures Get(config1, 0, 7) == config1 % 0x80
    ensures Get(config1, 7, 24) == config1 / 0x80 % 0x100_0000
  {
    Powers();
    GetIsMod(config1, 0, 7);
    GetIsMod(config1, 7, 24);
    hide Get, Pow2;
  }

  /** 'Bypass' and 'Power_down', which the setter reads after two of its writes. */
  lemma PowerFields(config0: Uint32)
    ensures var c2 := Write(Write(config0, 0, 5, 0), 12, 1, 1);
            && Get(c2, 14, 1) == config0 / 0x4000 % 2
            && Get(c2, 19, 1) == config0 / 0x8_0000 % 2
  {
    var c1 := Write(config0, 0, 5, 0);
    GetSetOther(config0, 0, 5, 0, 14, 1);
    GetSetOther(config0, 0, 5, 0, 19, 1);
    GetSetOther(c1, 12, 1, 1, 14, 1);
    GetSetOther(c1, 12, 1, 1, 19, 1);
    FieldsOfConfig0(config0);
    hide Get, Set;
  }

  // ---- the formula of the reference manual ----

  /** parent * 8 / divr * (1 + divfi + divff / 2^24) / divq, the manual's rate, as the
      quotient of Numerator and Denominator. */
  function Numerator(parent: nat, config1: Uint32): nat {
    parent * 8 * ((config1 % 0x80 + 1) * 0x100_0000 + config1 / 0x80 % 0x100_0000)
  }

  function Denominator(config0: Uint32): nat {
    (config0 / 0x20 % 0x40 + 1) * ((config0 % 0x20 + 1) * 2) * 0x100_0000
  }

  /** The rate read never exceeds the manual's and falls short of it by less than two, plus
      what rounding the multiplied reference down loses. */
  lemma RateIsManual(config0: Uint32, config1: Uint32, parent: Uint64)
    requires parent < 0x20_0000_0000
    ensures var r, d := RateOf(config0, config1, parent), Denominator(config0);
            var w := (config1 % 0x80 + 1) * 0x100_0000 + config1 / 0x80 % 0x100_0000;
            r * d <= Numerator(parent, config1) < r * d + 2 * d + (config0 / 0x20 % 0x40 + 1) * w
  {
    FieldsOfConfig0(config0);
    FieldsOfConfig1(config1);
    var divr, divq := config0 / 0x20 % 0x40 + 1, (config0 % 0x20 + 1) * 2;
    var i, f := config1 % 0x80 + 1, config1 / 0x80 % 0x100_0000;
    var pr := Reference(parent, divr - 1);
    ReferenceIs(parent, divr - 1);
    hide Get, Reference;
    assert RateOf(config0, config1, parent) == Decode(pr, divq, i - 1, f);
    hide RateOf;
    DecodeIs(pr, divq, i, f);
    hide Decode;
    FloorLoss(parent * 8, divr, pr, i, f, divq, pr * i / divq, pr * f / FRAC / divq);
  }

  lemma ReferenceIs(parent: Uint64, refDiv: nat)
    requires parent < 0x20_0000_0000
    ensures Reference(parent, refDiv) == parent * 8 / (refDiv + 1) < TERA
  {
    Unwrapped(parent * 8);
    DivLeq(parent * 8, refDiv + 1);
  }

  lemma DecodeIs(pr: Uint64, divq: nat, i: nat, f: nat)
    requires pr < TERA && divq > 0 && 1 <= i <= 128 && f < FRAC
    ensures Decode(pr, divq, i - 1, f) == pr * i / divq + pr * f / FRAC / divq
    ensures pr * i / divq >= 0 && pr * f / FRAC / divq >= 0
  {
    MulMono(pr, i, 128);
    MulMono(pr, f, FRAC - 1);
    var x, y := pr * i, pr * f;
    assert Decode(pr, divq, i - 1, f) == Wrap(Wrap(x) / divq + Wrap(y) / FRAC / divq);
    assert y < U64 && x < U64 / 2;
    hide *;
    SumUnwrapped(x, y, divq);
  }

  lemma SumUnwrapped(x: nat, y: nat, d: nat)
    requires x < U64 / 2 && y < U64 && d > 0
    ensures x / d >= 0 && y / FRAC / d >= 0
    ensures Wrap(Wrap(x) / d + Wrap(y) / FRAC / d) == x / d + y / FRAC / d
  {
    Unwrapped(x);
    Unwrapped(y);
    DivLeq(x, d);
    DivLeq(y / FRAC, d);
    var a, b := x / d, y / FRAC / d;
    assert b <= y / FRAC < U64 / 2;
    Unwrapped(a + b);
    hide Wrap;
  }

  /** The four floor divisions of the getter, against one exact quotient. */
  lemma FloorLoss(p: nat, divr: nat, pr: nat, i: nat, f: nat, divq: nat, a: nat, c: nat)
    requires divr > 0 && divq > 0 && i > 0 && pr == p / divr
    requires a == pr * i / divq && c == pr * f / FRAC / divq
    ensures var w, d := i * FRAC + f, divr * divq * FRAC;
            (a + c) * d <= p * w < (a + c) * d + 2 * d + divr * w
  {
    var x, y, w, e := pr * i, pr * f, i * FRAC + f, divq * FRAC;
    DivSandwich(p, divr);
    TwoFloors(x, y, divq, a, c);
    assert pr * w == x * FRAC + y;
    assert divr * divq * FRAC == divr * e;
    hide *;
    LossScaled(p, divr, pr, w, x * FRAC + y, e, a + c);
  }

  lemma LossScaled(p: nat, divr: nat, pr: nat, w: nat, z: nat, e: nat, r: nat)
    requires pr * divr <= p < pr * divr + divr && w > 0 && pr * w == z
    requires r * e <= z < r * e + 2 * e
    ensures r * (divr * e) <= p * w < r * (divr * e) + 2 * (divr * e) + divr * w
  {
    MulMono(r, 0, e);
    var low := r * e;
    Scaled(p, divr, pr, w, low, 2 * e);
    assert r * (divr * e) == divr * low && 2 * (divr * e) == divr * (2 * e);
  }

  lemma TwoFloors(x: nat, y: nat, q: nat, a: nat, c: nat)
    requires q > 0 && a == x / q && c == y / FRAC / q
    ensures (a + c) * (q * FRAC) <= x * FRAC + y < (a + c) * (q * FRAC) + 2 * (q * FRAC)
  {
    DivSandwich(x, q);
    DivSandwich(y, FRAC);
    DivSandwich(y / FRAC, q);
    TwoParts(x, y, y / FRAC, q, a, c);
  }

  /** x / q + y / FRAC / q against (x * FRAC + y) / (q * FRAC). */
  lemma TwoParts(x: nat, y: nat, b: nat, q: nat, a: nat, c: nat)
    requires a * q <= x < a * q + q && c * q <= b < c * q + q && b * FRAC <= y < b * FRAC + FRAC
    ensures (a + c) * (q * FRAC) <= x * FRAC + y < (a + c) * (q * FRAC) + 2 * (q * FRAC)
  {
    assert (a + c) * (q * FRAC) == (a * q) * FRAC + (c * q) * FRAC;
  }

  lemma Scaled(p: nat, divr: nat, pr: nat, w: nat, low: nat, slack: nat)
    requires pr * divr <= p < pr * divr + divr
    requires low <= pr * w <= low + slack && w > 0
    ensures divr * low <= p * w < divr * low + divr * slack + divr * w
  {
    MulMono(divr, low, pr * w);
    MulMono(divr, pr * w, low + slack);
    MulMono(w, pr * divr, p);
    MulMono(w, p, pr * divr + divr - 1);
    assert w * (pr * divr) == divr * (pr * w);
    assert w * (pr * divr + divr - 1) == divr * (pr * w) + divr * w - w;
    assert divr * (low + slack) == divr * low + divr * slack;
  }

  /** Setting a rate with a quotient in 1..128 programs the multiplied reference's quotient
      and fraction, and the manual's rate of the registers is then less than pr / 2^25 below
      the request and less than 64.5 above it, which rounding the reference down costs. */
  predicate SetsManualRate(parent: Uint64, rate: Uint64, before: Uint32, config0: Uint32, config1: Uint32) {
    var pr := parent * 8 / (before / 0x20 % 0x40 + 1);
    parent < 0x20_0000_0000 && 0 < pr && (rate * 2 / pr == 128 ==> rate * 2 < TERA) ==>
      && (Accurate(rate, RateOf(config0, config1, parent), pr) <==> 1 <= rate * 2 / pr <= 128)
      && (1 <= rate * 2 / pr <= 128 ==>
            Programmed(parent, rate, before, config0, config1, pr, rate * 2 / pr, rate * 2 % pr))
  }

  /** The registers hold a quotient and the fraction of a remainder. */
  predicate Programmed(parent: nat, rate: nat, before: Uint32, config0: Uint32, config1: Uint32,
                       pr: nat, q: nat, rem: nat)
    requires pr > 0
  {
    var divr := before / 0x20 % 0x40 + 1;
    var w := (config1 % 0x80 + 1) * 0x100_0000 + config1 / 0x80 % 0x100_0000;
    && config0 % 0x20 == 0 && config0 / 0x20 % 0x40 + 1 == divr
    && config1 % 0x80 + 1 == q && config1 / 0x80 % 0x100_0000 == rem * 0x100_0000 / pr
    && rate * Denominator(config0) - divr * pr < Numerator(parent, config1)
    && Numerator(parent, config1) < rate * Denominator(config0) + divr * w
  }

  lemma ProgrammedRateIsManual(config0: Uint32, parent: Uint64, rate: Uint64, byZero: Uint64)
    ensures var pr := Reference(parent, Get(config0, 5, 6));
            SetsManualRate(parent, rate, config0, Acknowledged(config0), Encode(Wrap(rate * 2), pr, byZero))
  {
    var divr := config0 / 0x20 % 0x40 + 1;
    var pr := parent * 8 / divr;
    hide Reference, Encode, Acknowledged, Get, Accurate, RateOf, ReadBack, Programmed, Wrap;
    FieldsOfConfig0(config0);
    if parent < 0x20_0000_0000 {
      ReferenceIs(parent, divr - 1);
      if 0 < pr && (rate * 2 / pr == 128 ==> rate * 2 < TERA) {
        AccurateIffQuotientFits(rate, pr, byZero);
        RateOfProgrammed(config0, parent, rate, byZero, pr);
        if 1 <= rate * 2 / pr <= 128 {
          var q, rem := QuotRem(rate * 2, pr);
          IsProgrammed(config0, parent, rate, byZero, pr, q, rem);
        }
      }
    }
  }

  lemma IsProgrammed(config0: Uint32, parent: nat, rate: Uint64, byZero: Uint64, pr: Uint64, q: nat, rem: nat)
    requires 0 < pr < TERA && pr == parent * 8 / (config0 / 0x20 % 0x40 + 1)
    requires rate * 2 == q * pr + rem && rem < pr && 1 <= q <= 128 && (q == 128 ==> rate * 2 < TERA)
    ensures Programmed(parent, rate, config0, Acknowledged(config0),
                       Encode(Wrap(rate * 2), pr, byZero), pr, q, rem)
  {
    hide Acknowledged, Encode, Wrap, Fraction, Programmed;
    AcknowledgedFields(config0);
    QuotientBound(rate * 2, pr, q, rem);
    Unwrapped(rate * 2);
    ProgrammedFields(rate * 2, pr, byZero, q, rem);
    FractionIs(pr, rem);
    NearProgrammed(parent, config0, Acknowledged(config0), Encode(rate * 2, pr, byZero), pr, q, rem, rate);
  }

  lemma QuotientBound(r: nat, pr: nat, q: nat, rem: nat)
    requires r == q * pr + rem && rem < pr < TERA && q <= 128
    ensures r < U64
  {
    MulMono(pr, q, 128);
  }

  lemma NearProgrammed(parent: nat, before: Uint32, c0: Uint32, c1: Uint32, pr: nat, q: nat, rem: nat, rate: nat)
    requires c0 % 0x20 == 0 && c0 / 0x20 % 0x40 == before / 0x20 % 0x40
    requires c1 % 0x80 + 1 == q && pr > 0 && c1 / 0x80 % 0x100_0000 == rem * 0x100_0000 / pr
    requires pr == parent * 8 / (before / 0x20 % 0x40 + 1) && rate * 2 == q * pr + rem && rem < pr
    ensures Programmed(parent, rate, before, c0, c1, pr, q, rem)
  {
    var divr := before / 0x20 % 0x40 + 1;
    NearManual(parent * 8, divr, pr, q, rem, rate);
    assert Denominator(c0) == divr * 2 * FRAC;
    assert Numerator(parent, c1) == parent * 8 * (q * FRAC + rem * FRAC / pr);
    hide Denominator, Numerator;
  }

  lemma QuotRem(x: nat, d: nat) returns (q: nat, rem: nat)
    requires d > 0
    ensures q == x / d && rem == x % d && x == q * d + rem && rem < d
  {
    DivLeq(x, d);
    q, rem := x / d, x % d;
  }

  lemma AcknowledgedFields(config0: Uint32)
    ensures Acknowledged(config0) % 0x20 == 0
    ensures Acknowledged(config0) / 0x20 % 0x40 == config0 / 0x20 % 0x40
  {
    Handshake(config0);
    FieldsOfConfig0(config0);
    FieldsOfConfig0(Acknowledged(config0));
    hide Get, Acknowledged;
  }

  lemma RateOfProgrammed(config0: Uint32, parent: Uint64, rate: Uint64, byZero: Uint64, pr: Uint64)
    requires pr == Reference(parent, Get(config0, 5, 6))
    ensures RateOf(Acknowledged(config0), Encode(Wrap(rate * 2), pr, byZero), parent)
         == ReadBack(rate, pr, byZero)
  {
    Handshake(config0);
    EncodeReadsBack(Wrap(rate * 2), pr, byZero);
    hide Get, Acknowledged, Encode, IntDiv, FracDiv, Decode, Reference, Wrap;
  }

  lemma ProgrammedFields(r: Uint64, pr: Uint64, byZero: Uint64, q: nat, rem: nat)
    requires r == q * pr + rem && rem < pr < TERA && (r < TERA || q < 128) && 1 <= q <= 128
    ensures var c1 := Encode(r, pr, byZero);
            c1 % 0x80 + 1 == q && c1 / 0x80 % 0x100_0000 == Fraction(pr, rem)
  {
    hide *;
    EncodeReadsBack(r, pr, byZero);
    FieldsOfConfig1(Encode(r, pr, byZero));
    IntOfQuotient(r, pr, byZero, q, rem);
    FracField(r, pr, byZero, q, rem);
    OneLess(q);
  }

  lemma OneLess(q: nat)
    requires 1 <= q <= 128
    ensures (q % 128 + 127) % 128 + 1 == q
  {
  }

  lemma IntOfQuotient(r: Uint64, pr: Uint64, byZero: Uint64, q: nat, rem: nat)
    requires r == q * pr + rem && rem < pr
    ensures IntDiv(r, pr, byZero) == q % 128
  {
    DivUnique(r, pr, q);
  }

  lemma FractionIs(pr: nat, rem: nat)
    requires pr > 0
    ensures Fraction(pr, rem) == rem * 0x100_0000 / pr
  {
  }

  /** The 25 MHz reference without a divider, and a request of 650 MHz: 6 and a half times
      the multiplied reference of 200 MHz, divided by two. */
  lemma Setting650MHz(byZero: Uint64)
    ensures var c1 := Encode(1_300_000_000, Reference(25_000_000, 0), byZero);
            c1 % 0x80 == 5 && c1 / 0x80 % 0x100_0000 == 0x80_0000
  {
    ReferenceIs(25_000_000, 0);
    assert Fraction(200_000_000, 100_000_000) == 0x80_0000;
    hide Reference, Encode;
    ProgrammedFields(1_300_000_000, 200_000_000, byZero, 6, 100_000_000);
  }

  lemma NearManual(p: nat, divr: nat, pr: nat, q: nat, rem: nat, rate: nat)
    requires divr > 0 && pr > 0 && q > 0 && pr == p / divr && rate * 2 == q * pr + rem && rem < pr
    ensures var f := rem * FRAC / pr;
            var w, d := q * FRAC + f, divr * 2 * FRAC;
            rate * d - divr * pr < p * w < rate * d + divr * w
  {
    var f := rem * FRAC / pr;
    FractionOfRequest(pr, q, rem);
    DivSandwich(p, divr);
    var w, y := q * FRAC + f, rate * 2 * FRAC;
    assert y == (q * pr + rem) * FRAC;
    assert rate * (divr * 2 * FRAC) == divr * y;
    hide *;
    NearScaled(p, divr, pr, w, y);
  }

  lemma FractionOfRequest(pr: nat, q: nat, rem: nat)
    requires pr > 0
    ensures var f := rem * FRAC / pr;
            f >= 0 && (q * pr + rem) * FRAC - pr < pr * (q * FRAC + f) <= (q * pr + rem) * FRAC
  {
    var f := rem * FRAC / pr;
    DivSandwich(rem * FRAC, pr);
    DivLeq(rem * FRAC, pr);
    assert pr * (q * FRAC + f) == q * pr * FRAC + f * pr;
  }

  lemma NearScaled(p: nat, divr: nat, pr: nat, w: nat, y: nat)
    requires pr * divr <= p < pr * divr + divr && w > 0
    requires y - pr < pr * w <= y
    ensures divr * y - divr * pr < p * w < divr * y + divr * w
  {
    var z := pr * w;
    Scaled(p, divr, pr, w, z, 0);
    MulMono(divr, y - pr + 1, z);
    MulMono(divr, z, y);
    assert divr * (y - pr + 1) == divr * y - divr * pr + divr;
  }

  /** Those writes clear the output divider and 'Newdiv_val' and keep all other fields. */
  lemma Handshake(config0: Uint32)
    ensures Get(Acknowledged(config0), 0, 5) == 0 && Get(Acknowledged(config0), 12, 1) == 0
    ensures forall lo: nat, width: nat ::
              (5 <= lo && lo + width <= 12) || 13 <= lo ==>
              Get(Acknowledged(config0), lo, width) == Get(config0, lo, width)
  {
    var c1 := Write(config0, 0, 5, 0);
    var c2 := Write(c1, 12, 1, 1);
    forall lo: nat, width: nat | (5 <= lo && lo + width <= 12) || 13 <= lo
      ensures Get(Acknowledged(config0), lo, width) == Get(config0, lo, width)
    {
      GetSetOther(config0, 0, 5, 0, lo, width);
      GetSetOther(c1, 12, 1, 1, lo, width);
      GetSetOther(c2, 12, 1, 0, lo, width);
    }
    GetSet(config0, 0, 5, 0);
    GetSetOther(c1, 12, 1, 1, 0, 5);
    GetSetOther(c2, 12, 1, 0, 0, 5);
    GetSet(c2, 12, 1, 0);
    LowFits(0, 5);
    LowFits(0, 1);
  }

  /** The fields that the getter finds after 'Encode'. */
  lemma EncodeReadsBack(r: Uint64, pr: Uint64, byZero: Uint64)
    ensures Get(Encode(r, pr, byZero), 0, 7) == (IntDiv(r, pr, byZero) + 127) % 128
    ensures Get(Encode(r, pr, byZero), 7, 24) == FracDiv(r, pr, byZero) % FRAC
    ensures Get(Encode(r, pr, byZero), 31, 1) == 0
  {
    hide FracDiv, IntDiv;
    var i := (IntDiv(r, pr, byZero) - 1) % U32;
    var f := FracDiv(r, pr, byZero);
    var v := Write(0, 0, 7, i);
    GetSet(0, 0, 7, i);
    GetSetOther(v, 7, 24, f, 0, 7);
    GetSet(v, 7, 24, f);
    GetSetOther(0, 0, 7, i, 31, 1);
    GetSetOther(v, 7, 24, f, 31, 1);
    assert Get(0, 31, 1) == 0 by {
      GetIsMod(0, 31, 1);
      assert 0 / Pow2(31) == 0 by {
        DivUnique(0, Pow2(31), 0);
      }
      assert Pow2(1) == 2;
    }
    LowIsMod(i, 7);
    Decrement(IntDiv(r, pr, byZero));
    LowIsMod(f, 24);
    assert Pow2(7) == 128;
    assert Pow2(24) == FRAC by {
      Pow2At16();
      Pow2Add(16, 8);
      assert Pow2(8) == 256;
    }
  }

  lemma Decrement(i: nat)
    requires i < 128
    ensures (i - 1) % U32 % 128 == (i + 127) % 128
  {
  }

  /** What the getter returns after the setter. */
  function ReadBack(rate: Uint64, pr: Uint64, byZero: Uint64): Uint64 {
    var r := Wrap(rate * 2);
    Decode(pr, 2, (IntDiv(r, pr, byZero) + 127) % 128, FracDiv(r, pr, byZero) % FRAC)
  }

  /** Never above the request, and short of it by less than pr/2^25 + 3/2. */
  predicate Accurate(rate: nat, readBack: nat, pr: nat) {
    readBack <= rate && 2 * FRAC * (rate - readBack) < pr + 3 * FRAC
  }

  /** Products with the 24-bit fraction do not leave 64 bits below this bound. */
  const TERA: int := 0x100_0000_0000

  /** Setting and then reading the rate is accurate exactly when the integer quotient lies
      in 1..128; 0 reads back far too high, from 129 on the masked quotient reads back far
      too low. The quotient 128 works although it does not fit its field: the 7-bit field
      holds the quotient minus one, and the fraction drops its surplus in its own field. */
  lemma AccurateIffQuotientFits(rate: Uint64, pr: Uint64, byZero: Uint64)
    requires 0 < pr < TERA
    requires rate * 2 / pr == 128 ==> rate * 2 < TERA
    ensures Accurate(rate, ReadBack(rate, pr, byZero), pr) <==> 1 <= rate * 2 / pr <= 128
  {
    var q := rate * 2 / pr;
    DivSandwich(rate * 2, pr);
    assert q >= 0 by {
      DivGalois(0, rate * 2, pr);
    }
    hide ReadBack, Accurate;
    if q <= 128 {
      AccurateIffQuotient(rate, pr, byZero, q, rate * 2 - q * pr);
    } else {
      GreatQuotientFails(rate, pr, byZero);
    }
  }

  lemma AccurateIffQuotient(rate: Uint64, pr: Uint64, byZero: Uint64, q: nat, rem: nat)
    requires rate * 2 == q * pr + rem && rem < pr < TERA && q <= 128
    requires q == 128 ==> rate * 2 < TERA
    ensures Accurate(rate, ReadBack(rate, pr, byZero), pr) <==> 1 <= q
  {
    MulMono(pr, q, 128);
    hide *;
    ReadBackIs(rate, pr, byZero, q, rem);
    FractionLoss(pr, rem);
    ShortfallIff(rate, pr, q, FieldValue(q), rem, Tail(pr, rem));
  }

  /** What the getter finds, for any quotient. */
  lemma ReadBackForm(rate: Uint64, pr: Uint64, byZero: Uint64) returns (i: nat, g: nat)
    requires 0 < pr < TERA
    ensures i == FieldValue(IntDiv(Wrap(rate * 2), pr, byZero)) <= 128 && g <= pr
    ensures ReadBack(rate, pr, byZero) == HalfProduct(pr, i) + g / 2
  {
    var r := Wrap(rate * 2);
    var q := IntDiv(r, pr, byZero);
    hide IntDiv, FracDiv, Wrap;
    var f := FracDiv(r, pr, byZero) % FRAC;
    i, g := FieldValue(q), pr * f / FRAC;
    assert (q + 127) % 128 == i - 1;
    MulMono(pr, i, 128);
    MulMono(pr, f, FRAC);
    SmallDecode(pr, i, f);
    DivGalois(pr + 1, pr * f, FRAC);
  }

  /** From 129 on, whatever the fraction is, the rate read back is at least 63 references
      short. */
  lemma GreatQuotientFails(rate: Uint64, pr: Uint64, byZero: Uint64)
    requires 0 < pr < TERA && rate * 2 / pr >= 129
    ensures !Accurate(rate, ReadBack(rate, pr, byZero), pr)
  {
    var i, g := ReadBackForm(rate, pr, byZero);
    if rate * 2 < U64 {
      FieldOfQuotient(rate, pr, byZero);
    }
    DivSandwich(rate * 2, pr);
    hide *;
    GreatQuotientIsShort(rate, pr, rate * 2 / pr, i, g);
  }

  lemma FieldOfQuotient(rate: Uint64, pr: Uint64, byZero: Uint64)
    requires rate * 2 < U64 && pr > 0 && rate * 2 / pr >= 0
    ensures FieldValue(IntDiv(Wrap(rate * 2), pr, byZero)) == FieldValue(rate * 2 / pr)
  {
    Unwrapped(rate * 2);
    hide Wrap;
  }

  lemma GreatQuotientIsShort(rate: Uint64, pr: nat, q: nat, i: nat, g: nat)
    requires 0 < pr < TERA && q >= 129 && q * pr <= rate * 2 && i <= 128 && g <= pr
    requires rate * 2 < U64 ==> i == FieldValue(q)
    ensures !Accurate(rate, HalfProduct(pr, i) + g / 2, pr)
  {
    hide *;
    FieldGap(q);
    MulMono(pr, i, 128);
    if rate * 2 < U64 {
      MulMono(pr, i + 128, q);
      assert q * pr == pr * q && pr * (i + 128) == pr * i + pr * 128;
    }
    FarShort(rate, pr, i, g);
  }

  lemma FieldGap(q: nat)
    ensures FieldValue(q) <= 128
    ensures q >= 129 ==> FieldValue(q) + 128 <= q
  {
  }

  lemma FarShort(rate: Uint64, pr: nat, i: nat, g: nat)
    requires 0 < pr < TERA && g <= pr && pr * i <= pr * 128
    requires rate * 2 >= U64 || rate * 2 >= pr * i + pr * 128
    ensures !Accurate(rate, HalfProduct(pr, i) + g / 2, pr)
  {
    var x := pr * i;
    assert HalfProduct(pr, i) == x / 2;
    hide HalfProduct;
  }

  /** A reference of 200 MHz: 50 MHz is read back as 12.85 GHz, and 12.9 GHz as 100 MHz. */
  lemma QuotientsOutOfRange(byZero: Uint64)
    ensures ReadBack(50_000_000, 200_000_000, byZero) == 12_850_000_000
    ensures ReadBack(12_900_000_000, 200_000_000, byZero) == 100_000_000
  {
    hide ReadBack;
    ReadBackIs(50_000_000, 200_000_000, byZero, 0, 100_000_000);
    assert Fraction(200_000_000, 100_000_000) == 0x80_0000;
    assert Tail(200_000_000, 100_000_000) == 100_000_000;
    assert HalfProduct(200_000_000, 128) == 12_800_000_000;
    ReadBackIs(12_900_000_000, 200_000_000, byZero, 129, 0);
    assert Tail(200_000_000, 0) == 0;
    assert HalfProduct(200_000_000, 1) == 100_000_000;
  }

  /** The quotient that the getter reconstructs from the 7-bit field. */
  function FieldValue(q: nat): nat {
    if q % 128 == 0 then 128 else q % 128
  }

  /** The 24-bit fraction that stands for the remainder of the division by pr. */
  function Fraction(pr: nat, rem: nat): nat
    requires pr > 0
  {
    rem * FRAC / pr
  }

  /** What that fraction contributes to the rate. */
  function Tail(pr: nat, rem: nat): nat
    requires pr > 0
  {
    pr * Fraction(pr, rem) / FRAC
  }

  function HalfProduct(pr: nat, i: nat): nat {
    pr * i / 2
  }

  /** The same statement about plain numbers. */
  lemma ShortfallIff(rate: nat, pr: nat, q: nat, i: nat, rem: nat, g: nat)
    requires pr > 0 && rate * 2 == q * pr + rem && rem < pr
    requires i == FieldValue(q) && q <= 128
    requires g <= rem && FRAC * (rem - g) < pr + FRAC
    ensures Accurate(rate, HalfProduct(pr, i) + g / 2, pr) <==> 1 <= q
  {
    var x := pr * i;
    assert HalfProduct(pr, i) == x / 2;
    assert if q == 0 then x == 128 * pr else x == q * pr;
    hide FieldValue, HalfProduct;
    if q == 0 {
      TooFar(rate, pr, x, rem, g);
    } else {
      CloseEnough(rate, pr, x, rem, g);
    }
  }

  lemma TooFar(rate: nat, pr: nat, x: nat, rem: nat, g: nat)
    requires pr > 0 && rate * 2 == rem && rem < pr && x == 128 * pr
    ensures !Accurate(rate, x / 2 + g / 2, pr)
  {
  }

  lemma CloseEnough(rate: nat, pr: nat, x: nat, rem: nat, g: nat)
    requires rate * 2 == x + rem && g <= rem && FRAC * (rem - g) < pr + FRAC
    ensures Accurate(rate, x / 2 + g / 2, pr)
  {
    HalvesAdd(x, g, rem);
  }

  lemma HalvesAdd(x: nat, g: nat, rem: nat)
    requires g <= rem && (x + rem) % 2 == 0
    ensures 0 <= (x + rem) / 2 - (x / 2 + g / 2) && x + rem - 2 * (x / 2 + g / 2) <= rem - g + 2
  {
  }

  /** The 24-bit fraction of the remainder loses less than one step plus one. */
  lemma FractionLoss(pr: nat, rem: nat)
    requires rem < pr
    ensures Tail(pr, rem) <= rem && FRAC * (rem - Tail(pr, rem)) < pr + FRAC
  {
    var f := Fraction(pr, rem);
    DivSandwich(rem * FRAC, pr);
    DivSandwich(pr * f, FRAC);
    assert f * pr == pr * f;
  }

  /** The wrapped and masked formulas, as plain arithmetic. */
  lemma ReadBackIs(rate: Uint64, pr: Uint64, byZero: Uint64, q: nat, rem: nat)
    requires rate * 2 == q * pr + rem && rem < pr < TERA
    requires rate * 2 < TERA || q < 128
    ensures ReadBack(rate, pr, byZero) == HalfProduct(pr, FieldValue(q)) + Tail(pr, rem) / 2
  {
    var i, f := FieldValue(q), Fraction(pr, rem);
    if q < 128 {
      MulMono(pr, q, 128);
    }
    Unwrapped(rate * 2);
    assert IntDiv(rate * 2, pr, byZero) == q % 128 by {
      DivUnique(rate * 2, pr, q);
    }
    FracField(rate * 2, pr, byZero, q, rem);
    FractionBound(pr, rem);
    hide IntDiv, FracDiv, Decode, Wrap;
    assert (q % 128 + 127) % 128 == i - 1;
    MulMono(pr, i, 128);
    MulMono(pr, f, FRAC);
    SmallDecode(pr, i, f);
  }

  lemma FractionBound(pr: nat, rem: nat)
    requires rem < pr
    ensures Fraction(pr, rem) < FRAC
  {
    DivGalois(FRAC, rem * FRAC, pr);
  }

  lemma SmallDecode(pr: nat, i: nat, f: nat)
    requires 0 < i && pr * i <= pr * 128 && pr * f <= pr * FRAC && pr < TERA
    ensures Decode(pr, 2, i - 1, f) == pr * i / 2 + pr * f / FRAC / 2
  {
    var x, y := pr * i, pr * f;
    Unwrapped(x);
    Unwrapped(y);
    Unwrapped(x / 2 + y / FRAC / 2);
  }

  lemma Unwrapped(x: nat)
    requires x < U64
    ensures Wrap(x) == x
  {
  }

  /** Masking the fraction to 24 bits drops exactly the surplus of the masked quotient. */
  lemma FracField(r: Uint64, pr: Uint64, byZero: Uint64, q: nat, rem: nat)
    requires r == q * pr + rem && rem < pr < TERA && (r < TERA || q < 128)
    requires IntDiv(r, pr, byZero) == q % 128
    ensures FracDiv(r, pr, byZero) % FRAC == Fraction(pr, rem)
  {
    hide IntDiv;
    var j := q - q % 128;
    var f := Fraction(pr, rem);
    var x := (r - q % 128 * pr) * FRAC;
    assert r - q % 128 * pr == j * pr + rem;
    assert 0 <= q % 128 * pr <= r by {
      MulMono(pr, q % 128, q);
    }
    assert Wrap(x) == x;
    DivSandwich(rem * FRAC, pr);
    assert x == (j * FRAC) * pr + rem * FRAC;
    assert (j * FRAC + f) * pr == (j * FRAC) * pr + f * pr;
    DivUnique(x, pr, j * FRAC + f);
    FractionBound(pr, rem);
    MaskTwice(j, f);
  }

  lemma MaskTwice(j: nat, f: nat)
    requires f < FRAC
    ensures (j * FRAC + f) % U32 % FRAC == f
  {
  }
}
