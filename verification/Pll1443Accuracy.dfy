/** How close the rates computed for the PLL 1443 are to the requested ones, and for
    which requests the search ends in a pre-divider the hardware cannot take. */
module Pll1443Accuracy {
  import opened Words
  import opened Bits
  import opened Pll1443

  /** The rate formula of the reference manual over unbounded integers. */
  function ExactRate(fin: nat, p: Pre, m: Main, s: Post, k: Int16): int
    requires p > 0
  {
    Rated(fin, m * 0x1_0000 + k, Divisor(p, s))
  }

  function Rated(fin: nat, x: int, d: nat): int
    requires d > 0
  {
    fin * x / d
  }

  /** Off by less than half a DSM step plus one. */
  predicate WithinHalfStep(fin: nat, d: nat, fout: nat, rate: int) {
    2 * d * (fout - rate) < fin + 2 * d && 2 * d * (rate - fout) <= fin
  }

  /** Short by less than 32769 DSM steps plus one. */
  predicate WithinHalfRange(fin: nat, d: nat, fout: nat, rate: int) {
    d * (fout - rate) < fin * 32769 + d
  }

  /** fout * D / fin, rounded to the nearest integer (halves up). */
  function Nearest(fin: nat, d: nat, fout: nat): nat
    requires fin > 0
  {
    (fout * d + fin / 2) / fin
  }

  /** The condition under which '_compute_kdiv' does not leave 64-bit range. */
  predicate KdivFits(e: Input, d: nat, fout: Uint64) {
    && e.fin > 0
    && fout * d + e.fin / 2 < U64
    && (fout * d + e.fin / 2) / e.fin < I64
  }

  // ---- machine arithmetic against exact arithmetic ----

  /** The wrapped formula equals the exact one for exactly those operands whose product
      is non-negative and fits 64 bits. */
  lemma RateIsExactIffItFits(e: Input, p: Pre, m: Main, s: Post, k: Int16)
    requires p > 0
    ensures ComputeRate(e, p, m, s, k) == ExactRate(e.fin, p, m, s, k)
       <==> 0 <= e.fin * (m * 0x1_0000 + k) < U64
  {
    WrappedQuotientIff(e.fin * (m * 0x1_0000 + k), Divisor(p, s));
  }

  lemma WrappedQuotientIff(x: int, d: nat)
    requires 0 < d <= U64
    ensures Wrap(x) / d == x / d <==> 0 <= x < U64
  {
    if x < 0 {
      DivGalois(0, x, d);
      DivGalois(0, Wrap(x), d);
    } else if x >= U64 {
      DivSandwich(x, U64);
      assert Wrap(x) <= x - U64 by {
        assert x / U64 >= 1;
      }
      DivMono(Wrap(x), x - d, d);
      DivSandwich(x, d);
      DivUnique(x - d, d, x / d - 1);
    }
  }

  lemma KdivIsExact(e: Input, p: Pre, m: Main, s: Post, fout: Uint64)
    requires KdivFits(e, Divisor(p, s), fout)
    ensures ComputeKdiv(e, p, m, s, fout)
         == Clamp(Nearest(e.fin, Divisor(p, s), fout) - m * 0x1_0000, MIN_KDIV, MAX_KDIV)
  {
    hide Divisor, Scale;
    var x := fout * Divisor(p, s) + e.fin / 2;
    WrapSmall(x);
    var q := Nearest(e.fin, Divisor(p, s), fout);
    WrapSigned(q - m * 0x1_0000);
  }

  lemma WrapSmall(x: nat)
    requires x < U64
    ensures Wrap(x) == x
  {
  }

  lemma WrapSigned(x: int)
    requires -I64 <= x < I64
    ensures Signed(Wrap(x)) == x
  {
  }

  /** Rounding to the nearest DSM value is off by at most half a step. */
  lemma NearestIsNear(fin: nat, d: nat, fout: nat)
    requires fin > 0
    ensures -(fin as int) <= 2 * (fin * Nearest(fin, d, fout) - fout * d) <= fin
  {
    DivSandwich(fout * d + fin / 2, fin);
  }

  /** Without saturation, the rate is as close as the DSM step allows. */
  lemma Unsaturated(fin: nat, d: nat, fout: nat)
    requires fin > 0 && d > 0
    ensures WithinHalfStep(fin, d, fout, Rated(fin, Nearest(fin, d, fout), d))
    ensures WithinHalfRange(fin, d, fout, Rated(fin, Nearest(fin, d, fout), d))
  {
    var x := fin * Nearest(fin, d, fout);
    NearestIsNear(fin, d, fout);
    hide Nearest;
    var r := x / d;
    DivSandwich(x, d);
    assert d * (fout - r) == fout * d - r * d;
    assert 2 * d * (fout - r) == 2 * (d * (fout - r));
    assert 2 * d * (r - fout) == -2 * (d * (fout - r));
  }

  // ---- glitch-free retuning ----

  /** The requests that changing k alone can meet: from the rate of the least to the rate of
      the greatest DSM value. */
  predicate InWindow(fin: nat, p: nat, m: nat, s: nat, fout: nat)
    requires p > 0
  {
    MulMono(p, 1, Pow2(s));
    var d := p * Pow2(s) * 0x1_0000;
    fin * (m * 0x1_0000 - 32768) / d <= fout <= fin * (m * 0x1_0000 + 32767) / d
  }

  /** The guard of the glitch-free branch accepts this window, for all m but 0. */
  lemma GlitchFreeIffInWindow(e: Input, cfg: Config, fout: Uint64)
    requires cfg.pdiv > 0
    requires 0 < e.fin && e.fin * (cfg.mdiv * 0x1_0000 + 0x1_0000) <= U64
    ensures GlitchFree(e, cfg, fout)
       <==> cfg.mdiv > 0 && InWindow(e.fin, cfg.pdiv, cfg.mdiv, cfg.sdiv, fout)
  {
    var p, m, s := cfg.pdiv, cfg.mdiv, cfg.sdiv;
    assert Scale(p, s) == p * Pow2(s) > 0 && Divisor(p, s) == p * Pow2(s) * 0x1_0000;
    hide Scale, Divisor, ComputeRate, Pow2;
    if m == 0 {
      ZeroMainDivider(e, p, s);
    } else {
      StepRateIsExact(e, p, m, s, 32767);
      StepRateIsExact(e, p, m, s, -32768);
    }
  }

  /** With a pre-divider of 0 or a parent at rest, all DSM values give one and the same rate,
      and only a request for that rate is glitch free. */
  lemma GlitchFreeWithoutRates(e: Input, cfg: Config, fout: Uint64)
    requires cfg.pdiv == 0 || e.fin == 0
    ensures GlitchFree(e, cfg, fout) <==> fout == if cfg.pdiv == 0 then e.byZero else 0
  {
    var d := Divisor(cfg.pdiv, cfg.sdiv);
    hide Divisor;
    if e.fin == 0 && d > 0 {
      assert forall x: int :: e.fin * x == 0 by {
        forall x: int
          ensures e.fin * x == 0
        {
        }
      }
      DivUnique(0, d, 0);
    }
  }

  /** A request in the window keeps p, m and s, its rate is the manual's formula, and it is
      off by less than half a DSM step plus one. The upper clamp never bites; where the lower
      clamp does, the request is met exactly. Any other request starts the search. */
  lemma GlitchFreeIsAccurate(e: Input, cfg: Config, fout: Uint64)
    requires cfg.pdiv > 0
    requires 0 < e.fin && e.fin * (cfg.mdiv * 0x1_0000 + 0x1_0000) <= U64
    ensures if cfg.mdiv > 0 && InWindow(e.fin, cfg.pdiv, cfg.mdiv, cfg.sdiv, fout)
            then AccuratelyRetuned(e.fin, cfg, Chosen(e, cfg, fout), fout)
            else Chosen(e, cfg, fout) == Searched(e, cfg, fout)
  {
    GlitchFreeIffInWindow(e, cfg, fout);
    hide InWindow, ComputeRate, ComputeKdiv, Searched;
    if GlitchFree(e, cfg, fout) {
      RetuneIsAccurate(e, cfg, fout);
    }
  }

  predicate AccuratelyRetuned(fin: nat, cfg: Config, r: Config, fout: nat)
    requires cfg.pdiv > 0 && fin > 0
  {
    var d := Divisor(cfg.pdiv, cfg.sdiv);
    var k := Nearest(fin, d, fout) - cfg.mdiv * 0x1_0000;
    && (r.pdiv, r.mdiv, r.sdiv) == (cfg.pdiv, cfg.mdiv, cfg.sdiv)
    && r.rate == ExactRate(fin, cfg.pdiv, cfg.mdiv, cfg.sdiv, r.kdiv)
    && WithinHalfStep(fin, d, fout, r.rate)
    && k <= 32767
    && (k < -32768 ==> r.kdiv == -32768 && r.rate == fout)
    && (k >= -32768 ==> r.kdiv == k)
  }

  lemma RetuneIsAccurate(e: Input, cfg: Config, fout: Uint64)
    requires cfg.pdiv > 0 && cfg.mdiv > 0
    requires 0 < e.fin && e.fin * (cfg.mdiv * 0x1_0000 + 0x1_0000) <= U64
    requires GlitchFree(e, cfg, fout)
    ensures AccuratelyRetuned(e.fin, cfg, Retune(e, cfg, fout), fout)
  {
    var p, s, d, m := cfg.pdiv, cfg.sdiv, Divisor(cfg.pdiv, cfg.sdiv), cfg.mdiv * 0x1_0000;
    hide Divisor, Nearest, ComputeRate, ComputeKdiv, Rated, WithinHalfStep;
    StepRateIsExact(e, p, cfg.mdiv, s, MAX_KDIV);
    StepRateIsExact(e, p, cfg.mdiv, s, MIN_KDIV);
    NearestInRange(e, d, fout, m);
    KdivIsExact(e, p, cfg.mdiv, s, fout);
    var r := Retune(e, cfg, fout);
    StepRateIsExact(e, p, cfg.mdiv, s, r.kdiv);
    if Nearest(e.fin, d, fout) >= m + MIN_KDIV {
      assert m + r.kdiv == Nearest(e.fin, d, fout);
      Unsaturated(e.fin, d, fout);
    } else {
      BelowRange(e.fin, d, fout, m + MIN_KDIV);
      ExactIsWithin(e.fin, d, fout);
    }
  }

  /** 600 MHz from 24 MHz with p = 2, m = 100 and s = 1: a request of 599 MHz lowers k to
      -10923 and leaves the dividers alone. */
  lemma RetuneTo599MHz(rate: Uint64)
    ensures var r := Chosen(Input(24_000_000, 0), Config(rate, 2, 100, 1, 0), 599_000_000);
            r.pdiv == 2 && r.mdiv == 100 && r.sdiv == 1 && r.kdiv == -10923
  {
    var e, cfg := Input(24_000_000, 0), Config(rate, 2, 100, 1, 0);
    assert Pow2(1) == 2;
    assert Divisor(2, 1) == 4 * 0x1_0000;
    GlitchFreeIsAccurate(e, cfg, 599_000_000);
    hide Divisor, Chosen, Searched;
    assert Nearest(24_000_000, 4 * 0x1_0000, 599_000_000) == 100 * 0x1_0000 - 10923;
  }

  /** With m = 0 the least DSM value wraps to a rate above that of the greatest one, so that
      no request passes as glitch free. */
  lemma ZeroMainDivider(e: Input, p: Pre, s: Post)
    requires p > 0 && 0 < e.fin && e.fin * 0x1_0000 <= U64
    ensures ComputeRate(e, p, 0, s, MAX_KDIV) < ComputeRate(e, p, 0, s, MIN_KDIV)
  {
    var d := Divisor(p, s);
    var x, y := e.fin * 32767, U64 - e.fin * 32768;
    hide Divisor;
    DivUnique(e.fin * (0 - 32768), U64, -1);
    WrapSmall(x);
    assert ComputeRate(e, p, 0, s, MIN_KDIV) == y / d;
    assert ComputeRate(e, p, 0, s, MAX_KDIV) == x / d;
    assert y >= x + d;
    DivGalois(x / d + 1, y, d);
    DivSandwich(x, d);
  }

  lemma ExactIsWithin(fin: nat, d: nat, fout: nat)
    requires d > 0
    ensures WithinHalfStep(fin, d, fout, fout)
  {
  }

  /** No rate between two steps of the main divider leaves 64-bit range. */
  lemma StepRateIsExact(e: Input, p: Pre, m: Main, s: Post, k: Int16)
    requires p > 0 && m > 0 && 0 < e.fin && e.fin * (m * 0x1_0000 + 0x1_0000) <= U64
    ensures ComputeRate(e, p, m, s, k) == Rated(e.fin, m * 0x1_0000 + k, Divisor(p, s))
  {
    FitsBelow(e, m * 0x1_0000, k);
    RateIsExactIffItFits(e, p, m, s, k);
  }

  lemma FitsBelow(e: Input, m: nat, k: Int16)
    requires m >= 0x1_0000 && e.fin * (m + 0x1_0000) <= U64 && e.fin > 0
    ensures 0 <= e.fin * (m + k) < U64
  {
    MulMono(e.fin, 0, m + k);
    MulMono(e.fin, m + k + 1, m + 0x1_0000);
  }

  /** A request not above the rate of the greatest DSM value rounds to at most that value. */
  lemma NearestInRange(e: Input, d: nat, fout: Uint64, m: nat)
    requires d > 0 && e.fin > 0 && fout <= Rated(e.fin, m + MAX_KDIV, d)
    requires 0x1_0000 <= m < 0x4000_0000 && e.fin * (m + 0x1_0000) <= U64
    ensures Nearest(e.fin, d, fout) <= m + MAX_KDIV && KdivFits(e, d, fout)
  {
    var x := fout * d + e.fin / 2;
    DivGalois(fout, e.fin * (m + MAX_KDIV), d);
    assert x < e.fin * (m + MAX_KDIV + 1);
    MulMono(e.fin, m + MAX_KDIV + 1, m + 0x1_0000);
    DivGalois(m + MAX_KDIV + 1, x, e.fin);
  }

  /** A request that rounds below 'x' steps is not above the rate of 'x' steps. */
  lemma BelowRange(fin: nat, d: nat, fout: nat, x: nat)
    requires fin > 0 && d > 0 && Nearest(fin, d, fout) < x
    ensures fout <= Rated(fin, x, d)
  {
    DivGalois(x, fout * d + fin / 2, fin);
    DivGalois(fout, fin * x, d);
  }

  // ---- candidates of the search ----

  lemma MdivIsExact(e: Input, p: Pre, s: Post, fout: Uint64)
    requires e.fin > 0 && fout * Scale(p, s) < U64
    ensures ComputeMdiv(e, p, s, fout) == Clamp(fout * Scale(p, s) / e.fin, 64, 1023)
  {
    hide Scale;
    WrapSmall(fout * Scale(p, s));
  }

  /** Where the unclamped main divider puts the request: at most one step above it. */
  lemma UnclampedBracket(fin: nat, n: nat, fout: nat, m: nat)
    requires fin > 0 && m == fout * n / fin
    ensures fin * (m * 0x1_0000) <= fout * (n * 0x1_0000) < fin * (m * 0x1_0000) + fin * 0x1_0000
    ensures m * 0x1_0000 <= Nearest(fin, n * 0x1_0000, fout) <= m * 0x1_0000 + 0x1_0000
  {
    var x := fout * (n * 0x1_0000) + fin / 2;
    DivSandwich(fout * n, fin);
    assert fout * (n * 0x1_0000) == (fout * n) * 0x1_0000;
    assert fin * (m * 0x1_0000) == (m * fin) * 0x1_0000;
    DivGalois(m * 0x1_0000, x, fin);
    assert fin * (m * 0x1_0000 + 0x1_0001) == fin * (m * 0x1_0000) + fin * 0x1_0001;
    DivGalois(m * 0x1_0000 + 0x1_0001, x, fin);
  }

  /** A candidate whose main divider is not clamped: truncating m loses up to half of
      the DSM range, so its rate may fall short by 32769 steps, but a saturated DSM
      value never exceeds the request, and an unsaturated one is off by half a step. */
  lemma CandidateIsBounded(e: Input, fout: Uint64, p: Pre, s: Post)
    requires p > 0 && KdivFits(e, Divisor(p, s), fout)
    requires 64 <= fout * Scale(p, s) / e.fin <= 1023
    ensures var c := Candidate(e, fout, p, s);
            var d := Divisor(p, s);
            var k := Nearest(e.fin, d, fout) - c.mdiv * 0x1_0000;
            && c.mdiv == fout * Scale(p, s) / e.fin
            && c.rate == ExactRate(e.fin, p, c.mdiv, s, c.kdiv)
            && WithinHalfRange(e.fin, d, fout, c.rate)
            && (k > MAX_KDIV ==> c.kdiv == MAX_KDIV && c.rate <= fout)
            && (k <= MAX_KDIV ==> c.kdiv == k && WithinHalfStep(e.fin, d, fout, c.rate))
  {
    CandidateParts(e, fout, p, s);
    hide Scale, Divisor, ComputeRate, ComputeKdiv, ComputeMdiv, Rated, Nearest, WithinHalfStep, WithinHalfRange;
    var c, d := Candidate(e, fout, p, s), Divisor(p, s);
    var q := Nearest(e.fin, d, fout);
    if q - c.mdiv * 0x1_0000 > MAX_KDIV {
      Saturated(e.fin, d, fout, c.mdiv * 0x1_0000, q);
    } else {
      assert c.mdiv * 0x1_0000 + c.kdiv == q;
      Unsaturated(e.fin, d, fout);
    }
  }

  /** Whether the part of the request that m does not cover exceeds the DSM range: 'rem' is
      what remains of fout * p * 2^s after the division by fin. */
  predicate Saturates(fin: nat, rem: nat) {
    rem * 0x1_0000 + fin / 2 >= 32768 * fin
  }

  /** For an unclamped candidate, k saturates exactly for remainders from about half of fin
      on, and then the rate is off by more than half a DSM step plus one unless what the
      greatest DSM value leaves, 'short', is small. */
  lemma SaturatesIff(e: Input, fout: Uint64, p: Pre, s: Post)
    requires p > 0 && KdivFits(e, Divisor(p, s), fout)
    requires 64 <= fout * Scale(p, s) / e.fin <= 1023
    ensures var c := Candidate(e, fout, p, s);
            var d, rem := Divisor(p, s), fout * Scale(p, s) % e.fin;
            var short := rem * 0x1_0000 - 32767 * e.fin;
            && (Saturates(e.fin, rem) <==> Nearest(e.fin, d, fout) - c.mdiv * 0x1_0000 > MAX_KDIV)
            && (WithinHalfStep(e.fin, d, fout, c.rate)
                <==> !Saturates(e.fin, rem) || 2 * d * ((short - 1) / d) < e.fin)
  {
    assert e.fin > 0;
    hide *;
    CandidateIsBounded(e, fout, p, s);
    var n, c := Scale(p, s), Candidate(e, fout, p, s);
    InTermsOfScale(e.fin, p, c.mdiv, s, c.kdiv);
    var rem := DivRem(fout * n, e.fin);
    NearestOfRemainder(e.fin, n, fout, c.mdiv, rem);
    if Saturates(e.fin, rem) {
      SaturatedMiss(e.fin, n, fout, c.mdiv, rem);
    }
  }

  lemma InTermsOfScale(fin: nat, p: Pre, m: Main, s: Post, k: Int16)
    requires p > 0
    ensures Divisor(p, s) == Scale(p, s) * 0x1_0000 > 0
    ensures ExactRate(fin, p, m, s, k) == Rated(fin, m * 0x1_0000 + k, Divisor(p, s))
  {
  }

  lemma DivRem(x: nat, d: nat) returns (rem: nat)
    requires d > 0
    ensures rem == x % d && x == x / d * d + rem
  {
    rem := x % d;
  }

  lemma NearestOfRemainder(fin: nat, n: nat, fout: nat, m: nat, rem: nat)
    requires fin > 0 && fout * n == m * fin + rem
    ensures Saturates(fin, rem) <==> Nearest(fin, n * 0x1_0000, fout) > m * 0x1_0000 + MAX_KDIV
  {
    var x := fout * (n * 0x1_0000) + fin / 2;
    assert fout * (n * 0x1_0000) == (m * 0x1_0000) * fin + rem * 0x1_0000;
    DivGalois(m * 0x1_0000 + 32768, x, fin);
    assert (m * 0x1_0000 + 32768) * fin == (m * 0x1_0000) * fin + 32768 * fin;
  }

  /** The shortfall of a saturated candidate is 'short' / d, rounded up. */
  lemma SaturatedMiss(fin: nat, n: nat, fout: nat, m: nat, rem: nat)
    requires fin > 0 && n > 0 && fout * n == m * fin + rem && Saturates(fin, rem)
    ensures var d, short := n * 0x1_0000, rem * 0x1_0000 - 32767 * fin;
            WithinHalfStep(fin, d, fout, Rated(fin, m * 0x1_0000 + MAX_KDIV, d))
            <==> 2 * d * ((short - 1) / d) < fin
  {
    var d, short := n * 0x1_0000, rem * 0x1_0000 - 32767 * fin;
    assert fout * d == (fout * n) * 0x1_0000;
    assert fin * (m * 0x1_0000 + MAX_KDIV) == fout * d - short;
    hide *;
    ShortBy(fin, d, fout, short);
  }

  lemma ShortBy(fin: nat, d: nat, fout: nat, short: nat)
    requires d > 0 && short > 0
    ensures WithinHalfStep(fin, d, fout, (fout * d - short) / d)
       <==> 2 * d * ((short - 1) / d) < fin
  {
    var low := (short - 1) / d;
    DivSandwich(short - 1, d);
    assert (fout - low - 1) * d == fout * d - low * d - d;
    DivUnique(fout * d - short, d, fout - low - 1);
    assert low >= 0 by {
      DivGalois(0, short - 1, d);
    }
    assert 2 * d * (low + 1) == 2 * d * low + 2 * d;
    assert 2 * d * -(low + 1) == -(2 * d * (low + 1));
  }

  /** A request of 1559 MHz at 24 MHz, for p = 1 and s = 0: m = 64 and a saturated k stay
      more than 10 MHz below it. */
  lemma SaturationIsReached()
    ensures var c := Candidate(Input(24_000_000, 0), 1_559_000_000, 1, 0);
            c.mdiv == 64 && c.kdiv == MAX_KDIV && c.rate < 1_549_000_000
  {
    var e := Input(24_000_000, 0);
    assert Pow2(0) == 1;
    assert Scale(1, 0) == 1 && Divisor(1, 0) == 0x1_0000;
    hide Scale, Divisor;
    CandidateIsBounded(e, 1_559_000_000, 1, 0);
    SaturatesIff(e, 1_559_000_000, 1, 0);
    hide ComputeRate, ComputeKdiv, ComputeMdiv;
    var c := Candidate(e, 1_559_000_000, 1, 0);
    assert c.rate == 24_000_000 * (64 * 0x1_0000 + 32767) / 0x1_0000;
  }

  /** The three parts of an unclamped candidate, without machine arithmetic. */
  lemma CandidateParts(e: Input, fout: Uint64, p: Pre, s: Post)
    requires p > 0 && KdivFits(e, Divisor(p, s), fout)
    requires 64 <= fout * Scale(p, s) / e.fin <= 1023
    ensures var c := Candidate(e, fout, p, s);
            var d := Divisor(p, s);
            var k := Nearest(e.fin, d, fout) - c.mdiv * 0x1_0000;
            && c.mdiv == fout * Scale(p, s) / e.fin
            && 0 <= k <= 0x1_0000
            && c.kdiv == Clamp(k, MIN_KDIV, MAX_KDIV)
            && c.rate == Rated(e.fin, c.mdiv * 0x1_0000 + c.kdiv, d)
            && fout * d < e.fin * (c.mdiv * 0x1_0000) + e.fin * 0x1_0000
  {
    var n, d := Scale(p, s), Divisor(p, s);
    var m := fout * n / e.fin;
    assert d == n * 0x1_0000;
    hide Scale, Divisor, ComputeKdiv, ComputeRate;
    assert ComputeMdiv(e, p, s, fout) == m by {
      MulMono(fout, n, d);
      MdivIsExact(e, p, s, fout);
    }
    hide ComputeMdiv;
    UnclampedBracket(e.fin, n, fout, m);
    KdivIsExact(e, p, m, s, fout);
    var c := Candidate(e, fout, p, s);
    assert 0 <= e.fin * (m * 0x1_0000 + c.kdiv) < U64 by {
      NoOverflow(e.fin, d, fout, m * 0x1_0000 + c.kdiv, Nearest(e.fin, d, fout));
    }
    RateIsExactIffItFits(e, p, m, s, c.kdiv);
  }

  lemma NoOverflow(fin: nat, d: nat, fout: nat, x: nat, q: nat)
    requires fin > 0 && q == Nearest(fin, d, fout) && x <= q && fout * d + fin / 2 < U64
    ensures 0 <= fin * x < U64
  {
    DivSandwich(fout * d + fin / 2, fin);
    MulMono(fin, x, q);
    MulMono(fin, 0, x);
  }

  lemma Saturated(fin: nat, d: nat, fout: nat, m: nat, q: nat)
    requires fin > 0 && d > 0 && q == Nearest(fin, d, fout) && q > m + MAX_KDIV
    requires fout * d < fin * m + fin * 0x1_0000
    ensures WithinHalfRange(fin, d, fout, Rated(fin, m + MAX_KDIV, d))
    ensures Rated(fin, m + MAX_KDIV, d) <= fout
  {
    SaturatedBracket(fin, fout * d, m, q);
    hide *;
    BracketedRate(fin, d, fout, fin * (m + MAX_KDIV));
  }

  lemma SaturatedBracket(fin: nat, y: nat, m: nat, q: nat)
    requires fin > 0 && q == (y + fin / 2) / fin && q > m + MAX_KDIV
    requires y < fin * m + fin * 0x1_0000
    ensures fin * (m + MAX_KDIV) <= y < fin * (m + MAX_KDIV) + fin * 32769
  {
    DivSandwich(y + fin / 2, fin);
    MulMono(fin, m + MAX_KDIV + 1, q);
    assert fin * (m + MAX_KDIV) == fin * m + fin * 32767;
  }

  lemma BracketedRate(fin: nat, d: nat, fout: nat, x: nat)
    requires d > 0 && x <= fout * d < x + fin * 32769
    ensures WithinHalfRange(fin, d, fout, x / d) && x / d <= fout
  {
    DivSandwich(x, d);
    DivGalois(fout + 1, x, d);
    assert d * (fout - x / d) == fout * d - x / d * d;
  }

  // ---- requests at the bottom of the range ----

  /** 64 * 65536 + MIN_KDIV: the least multiplier that the clamps allow. */
  const LEAST: int := 4161536

  /** The least rate a candidate with the given divisor can have. */
  function Lowest(fin: nat, d: nat): nat
    requires d > 0
  {
    fin * LEAST / d
  }

  /** Divisors of (p, s) = (64, 6) and (63, 6). */
  const D64: nat := 4096 * 0x1_0000
  const D63: nat := 4032 * 0x1_0000

  lemma DivisorRange(p: Pre, s: Post)
    requires s <= 6
    ensures Divisor(p, s) <= D64
    ensures p < 64 || s < 6 ==> Divisor(p, s) <= D63
    ensures p == 64 && s == 6 ==> Divisor(p, s) == D64
  {
    assert Pow2(5) == 32 && Pow2(6) == 64;
    if s <= 5 {
      MulMono(1, s, 5);
      Pow2Mono(s, 5);
      MulMono(p, Pow2(s), 32);
    } else {
      MulMono(64, p, if p < 64 then 63 else 64);
    }
  }

  lemma {:induction false} Pow2Mono(m: nat, n: nat)
    requires m <= n
    ensures Pow2(m) <= Pow2(n)
  {
    if m > 0 {
      Pow2Mono(m - 1, n - 1);
    }
  }

  /** Every candidate of a usable pre-divider reaches the least rate of its divisor. */
  lemma CandidateReachesLowest(e: Input, fout: Uint64, p: Pre, s: Post)
    requires p > 0 && e.fin * 0x400_0000 <= U64
    ensures Candidate(e, fout, p, s).rate >= Lowest(e.fin, Divisor(p, s))
    ensures Candidate(e, fout, p, s).rate <= e.fin * 0x400_0000 / Divisor(p, s)
  {
    hide Divisor, ComputeKdiv, ComputeRate;
    var c := Candidate(e, fout, p, s);
    assert c.mdiv >= 64;
    hide ComputeMdiv;
    var x := c.mdiv * 0x1_0000 + c.kdiv;
    assert LEAST <= x < 0x400_0000;
    InRangeRateIsExact(e, p, c.mdiv, s, c.kdiv);
    MulMono(e.fin, LEAST, x);
    MulMono(e.fin, x, 0x400_0000);
    DivMono(e.fin * LEAST, e.fin * x, Divisor(p, s));
    DivMono(e.fin * x, e.fin * 0x400_0000, Divisor(p, s));
  }

  /** All usable pairs stay above the least rate of (64, 6); all but that one stay above
      the least rate of (63, 6). */
  lemma PairsReachLowest(e: Input, fout: Uint64, i: nat)
    requires 7 <= i < PAIRS && e.fin * 0x400_0000 <= U64
    ensures Candidates(e, fout)[i].rate >= Lowest(e.fin, D64)
    ensures i < PAIRS - 1 ==> Candidates(e, fout)[i].rate >= Lowest(e.fin, D63)
  {
    var p, s := i / 7, i % 7;
    assert i == 7 * p + s;
    CandidateReachesLowest(e, fout, p, s);
    DivisorRange(p, s);
    DivAntitone(e.fin * LEAST, Divisor(p, s), D64);
    if i < PAIRS - 1 {
      DivAntitone(e.fin * LEAST, Divisor(p, s), D63);
    }
  }

  lemma ZeroPreDivider(e: Input, fout: Uint64, i: nat)
    requires i < 7
    ensures Candidates(e, fout)[i].pdiv == 0 && Candidates(e, fout)[i].rate == e.byZero
  {
  }

  /** With divisions by zero delivering 0, a request below the least reachable rate makes
      the search settle on pre-divider 0, a value the PLL does not support. */
  lemma TooLowPicksPreDividerZero(e: Input, fout: Uint64, start: Config)
    requires e.byZero == 0 && e.fin * 0x400_0000 <= U64
    requires fout < FAR && fout < Lowest(e.fin, D64)
    ensures Searched(e, start, fout) == Candidates(e, fout)[0]
    ensures Candidates(e, fout)[0].pdiv == 0 && Candidates(e, fout)[0].rate == 0
  {
    ZeroPreDivider(e, fout, 0);
    CandidatesAreSmall(e, fout);
    var i := SearchPicksGreatestBelow(fout, start, Candidates(e, fout), 0);
    if i >= 7 {
      PairsReachLowest(e, fout, i);
      assert false;
    }
    ZeroPreDivider(e, fout, i);
    if i > 0 {
      assert false;
    }
  }

  /** A request just above the least reachable rate is met by (64, 6) alone, and 64 does
      not fit the six bits of the pre-divider field. */
  lemma LowPicksPreDivider64(e: Input, fout: Uint64, start: Config)
    requires e.byZero == 0 && 0 < e.fin < 2 * D64
    requires 0 < Lowest(e.fin, D64) <= fout < Lowest(e.fin, D63)
    ensures Searched(e, start, fout) == Candidate(e, fout, 64, 6)
    ensures 0 < Candidate(e, fout, 64, 6).rate <= fout
  {
    BottomCandidate(e, fout);
    assert Candidates(e, fout)[PAIRS - 1] == Candidate(e, fout, 64, 6);
    assert Lowest(e.fin, D63) < FAR by {
      DivAntitone(e.fin * LEAST, 1, D63);
    }
    CandidatesAreSmall(e, fout);
    var i := SearchPicksGreatestBelow(fout, start, Candidates(e, fout), PAIRS - 1);
    PairsReachLowest(e, fout, PAIRS - 1);
    if i < 7 {
      ZeroPreDivider(e, fout, i);
      assert false;
    } else if i < PAIRS - 1 {
      PairsReachLowest(e, fout, i);
      assert false;
    }
  }

  /** The search ends in pre-divider 0 exactly for the requests below the least rate. */
  lemma PreDividerZeroIffTooLow(e: Input, fout: Uint64, start: Config)
    requires e.byZero == 0 && 0 < e.fin < 2 * D64 && Lowest(e.fin, D64) > 0
    requires fout < FAR
    ensures Searched(e, start, fout).pdiv == 0 <==> fout < Lowest(e.fin, D64)
    ensures Searched(e, start, fout).rate <= fout
  {
    if fout < Lowest(e.fin, D64) {
      TooLowPicksPreDividerZero(e, fout, start);
    } else {
      BottomCandidate(e, fout);
      assert Candidates(e, fout)[PAIRS - 1] == Candidate(e, fout, 64, 6);
      PairsReachLowest(e, fout, PAIRS - 1);
      CandidatesAreSmall(e, fout);
      var i := SearchPicksGreatestBelow(fout, start, Candidates(e, fout), PAIRS - 1);
      if i < 7 {
        ZeroPreDivider(e, fout, i);
        assert false;
      }
    }
  }

  /** The pair (64, 6) undershoots every request that is not below its least rate. */
  lemma BottomCandidate(e: Input, fout: Uint64)
    requires 0 < e.fin < 2 * D64 && Lowest(e.fin, D64) <= fout
    ensures Candidate(e, fout, 64, 6).rate <= fout
  {
    DivisorRange(64, 6);
    var d, n := Divisor(64, 6), Scale(64, 6);
    assert n == 4096 && d == D64;
    hide Divisor, Scale;
    var q := fout * n / e.fin;
    if fout * d + e.fin / 2 >= U64 || fout * n / e.fin > 1023 {
      CandidateReachesLowest(e, fout, 64, 6);
      AboveAll(e, fout);
    } else {
      assert KdivFits(e, d, fout) by {
        SmallQuotient(fout * d + e.fin / 2, e.fin, fout * n);
      }
      if q >= 64 {
        CandidateIsBounded(e, fout, 64, 6);
      } else {
        BottomClamped(e, fout);
      }
    }
  }

  /** Requests beyond the greatest main divider exceed every rate of (64, 6). */
  lemma AboveAll(e: Input, fout: Uint64)
    requires 0 < e.fin < 2 * D64
    requires fout * D64 + e.fin / 2 >= U64 || fout * 4096 / e.fin > 1023
    ensures e.fin * 0x400_0000 / D64 <= fout
  {
    if fout * 4096 / e.fin > 1023 {
      DivGalois(1024, fout * 4096, e.fin);
    }
    DivGalois(fout + 1, e.fin * 0x400_0000, D64);
  }

  lemma SmallQuotient(x: nat, fin: nat, y: nat)
    requires fin > 0 && x == y * 0x1_0000 + fin / 2 && y / fin <= 1023
    ensures x / fin < I64
  {
    DivGalois(1024, y, fin);
    DivGalois(I64, x, fin);
    assert fin * I64 == fin * 0x400_0000 * 0x20_0000_0000;
  }

  /** The same pair where the main divider is clamped to 64. */
  lemma BottomClamped(e: Input, fout: Uint64)
    requires 0 < e.fin < 2 * D64 && Lowest(e.fin, D64) <= fout
    requires KdivFits(e, D64, fout) && fout * 4096 / e.fin < 64
    ensures Candidate(e, fout, 64, 6).rate <= fout
  {
    DivisorRange(64, 6);
    assert Scale(64, 6) == 4096;
    hide Divisor, Scale, ExactRate, Nearest, Lowest, ComputeRate;
    assert ComputeMdiv(e, 64, 6, fout) == 64 by {
      MdivIsExact(e, 64, 6, fout);
    }
    KdivIsExact(e, 64, 64, 6, fout);
    hide ComputeMdiv, ComputeKdiv;
    var k := Candidate(e, fout, 64, 6).kdiv;
    InRangeRateIsExact(e, 64, 64, 6, k);
    BottomRate(e.fin, fout, k);
  }

  lemma InRangeRateIsExact(e: Input, p: Pre, m: Main, s: Post, k: Int16)
    requires p > 0 && m > 0 && e.fin * 0x400_0000 <= U64
    ensures ComputeRate(e, p, m, s, k) == ExactRate(e.fin, p, m, s, k)
  {
    hide *;
    ProductInRange(e.fin, m * 0x1_0000 + k);
    RateIsExactIffItFits(e, p, m, s, k);
  }

  lemma ProductInRange(fin: nat, x: nat)
    requires fin * 0x400_0000 <= U64 && x < 0x400_0000
    ensures 0 <= fin * x < U64
  {
    MulMono(fin, 0, x);
    if fin > 0 {
      MulMono(fin, x + 1, 0x400_0000);
    }
  }

  /** The rate at the bottom, in exact arithmetic. */
  lemma BottomRate(fin: nat, fout: nat, k: Int16)
    requires 0 < fin < 2 * D64 && Lowest(fin, D64) <= fout && fout * 4096 / fin < 64
    requires k == Clamp(Nearest(fin, D64, fout) - 64 * 0x1_0000, MIN_KDIV, MAX_KDIV)
    ensures ExactRate(fin, 64, 64, 6, k) <= fout
  {
    DivisorRange(64, 6);
    hide Divisor, Scale;
    var q := Nearest(fin, D64, fout);
    assert q <= 64 * 0x1_0000 by {
      DivGalois(64, fout * 4096, fin);
      DivGalois(64 * 0x1_0000 + 1, fout * D64 + fin / 2, fin);
    }
    if q >= LEAST {
      assert 64 * 0x1_0000 + k == q;
      Unsaturated(fin, D64, fout);
    } else {
      assert 64 * 0x1_0000 + k == LEAST;
    }
  }

  /** The 24 MHz crystal and a request of 375 kHz: the search answers with exactly this
      rate, for the pre-divider 64. */
  lemma PreDivider64IsReached(start: Config)
    ensures var c := Searched(Input(24_000_000, 0), start, 375_000);
            c == Config(375_000, 64, 64, 6, 0)
  {
    var e := Input(24_000_000, 0);
    DivisorRange(64, 6);
    assert Scale(64, 6) == 4096;
    hide Scale, Divisor;
    assert Lowest(e.fin, D64) == 372_070 && Lowest(e.fin, D63) == 377_976;
    assert ComputeMdiv(e, 64, 6, 375_000) == 64 by {
      MdivIsExact(e, 64, 6, 375_000);
    }
    assert ComputeKdiv(e, 64, 64, 6, 375_000) == 0 by {
      assert Nearest(e.fin, D64, 375_000) == 64 * 0x1_0000;
      KdivIsExact(e, 64, 64, 6, 375_000);
    }
    RateIsExactIffItFits(e, 64, 64, 6, 0);
    hide ComputeMdiv, ComputeKdiv, ComputeRate;
    LowPicksPreDivider64(e, 375_000, start);
  }

  /** An unclamped candidate whose DSM step is below 2 Hz does not exceed the request. */
  lemma FineStepsUndershoot(e: Input, fout: Uint64, p: Pre, s: Post)
    requires p > 0 && KdivFits(e, Divisor(p, s), fout) && e.fin < 2 * Divisor(p, s)
    requires 64 <= fout * Scale(p, s) / e.fin <= 1023
    ensures Candidate(e, fout, p, s).rate <= fout
  {
    CandidateIsBounded(e, fout, p, s);
    hide Scale, Divisor, ComputeKdiv, ComputeRate, ComputeMdiv;
    var c, d := Candidate(e, fout, p, s), Divisor(p, s);
    if c.rate > fout {
      MulMono(2 * d, 1, c.rate - fout);
      assert false;
    }
  }

  /** The search is at least as good as the bound of every unclamped candidate that does not
      exceed the request: it does not exceed it either, and misses it by less than 32769
      DSM steps of that candidate, plus one. */
  lemma SearchMeetsEveryBound(e: Input, fout: Uint64, start: Config, p: Pre, s: Post)
    requires fout < FAR && e.byZero < I64
    requires p > 0 && s <= 6 && KdivFits(e, Divisor(p, s), fout)
    requires 64 <= fout * Scale(p, s) / e.fin <= 1023
    ensures e.fin < 2 * Divisor(p, s) ==> Candidate(e, fout, p, s).rate <= fout
    ensures Candidate(e, fout, p, s).rate <= fout ==>
              var r := Searched(e, start, fout).rate;
              && r <= fout && WithinHalfRange(e.fin, Divisor(p, s), fout, r)
              && (!Saturates(e.fin, fout * Scale(p, s) % e.fin) ==>
                    WithinHalfStep(e.fin, Divisor(p, s), fout, r))
  {
    if e.fin < 2 * Divisor(p, s) {
      FineStepsUndershoot(e, fout, p, s);
    }
    CandidateIsBounded(e, fout, p, s);
    SaturatesIff(e, fout, p, s);
    var c := Candidate(e, fout, p, s);
    hide *;
    if c.rate <= fout {
      var p', s' := SearchedIsGreatestBelow(e, start, fout, p, s);
      CloserUndershoot(e.fin, Divisor(p, s), fout, c.rate, Searched(e, start, fout).rate);
    }
  }

  lemma CloserUndershoot(fin: nat, d: nat, fout: nat, rate: nat, closer: nat)
    requires rate <= closer <= fout
    ensures WithinHalfStep(fin, d, fout, rate) ==> WithinHalfStep(fin, d, fout, closer)
    ensures WithinHalfRange(fin, d, fout, rate) ==> WithinHalfRange(fin, d, fout, closer)
  {
    MulMono(d, fout - closer, fout - rate);
    MulMono(2 * d, fout - closer, fout - rate);
    MulMono(2 * d, closer - fout, 0);
  }
}
