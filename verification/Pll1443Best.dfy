/** For which requests the search of the PLL 1443 settles on a pre-divider that does not fit
    its field, and for which it misses the closest rate. */
module Pll1443Best {
  import opened Words
  import opened Bits
  import opened Pll1443
  import opened Pll1443Accuracy

  // ---- pre-divider 64 ----

  /** The pair (64, 6) comes closer from below than every pair with a documented
      pre-divider. */
  ghost predicate SettlesOn64(e: Input, fout: Uint64) {
    && 0 < Candidate(e, fout, 64, 6).rate <= fout
    && forall p: Pre, s: Post :: 0 < p < 64 && s <= 6 && Candidate(e, fout, p, s).rate <= fout
         ==> Candidate(e, fout, p, s).rate < Candidate(e, fout, 64, 6).rate
  }

  /** A candidate depends on p and s by p * 2^s only. */
  lemma SameScaleSameRate(e: Input, fout: Uint64, s: Post)
    requires s < 6
    ensures Candidate(e, fout, 64, s).rate == Candidate(e, fout, 32, s + 1).rate
  {
    assert Scale(64, s) == Scale(32, s + 1);
    hide Scale;
    assert Divisor(64, s) == Divisor(32, s + 1);
  }

  /** The search returns pre-divider 64 exactly for these requests. */
  lemma PreDivider64Iff(e: Input, start: Config, fout: Uint64)
    requires e.byZero == 0 && fout < FAR
    ensures Searched(e, start, fout).pdiv == 64 <==> SettlesOn64(e, fout)
    ensures SettlesOn64(e, fout) ==> Searched(e, start, fout) == Candidate(e, fout, 64, 6)
  {
    forall s: Post
      ensures Candidate(e, fout, 0, s).rate == 0
    {
    }
    var p, s := SearchedIsGreatestBelow(e, start, fout, 0, 0);
    assert Candidate(e, fout, p, s).pdiv == p;
    hide ComputeRate, ComputeKdiv, ComputeMdiv;
    forall s: Post | s < 6
      ensures Candidate(e, fout, 64, s).rate == Candidate(e, fout, 32, s + 1).rate
    {
      SameScaleSameRate(e, fout, s);
    }
    hide Candidate, Searched;
  }

  /** A candidate without machine arithmetic. */
  lemma CandidateIs(e: Input, fout: Uint64, p: Pre, s: Post, m: Main, k: Int16)
    requires p > 0 && KdivFits(e, Divisor(p, s), fout) && e.fin * 0x400_0000 <= U64
    requires m == Clamp(fout * Scale(p, s) / e.fin, 64, 1023)
    requires k == Clamp(Nearest(e.fin, Divisor(p, s), fout) - m * 0x1_0000, MIN_KDIV, MAX_KDIV)
    ensures Candidate(e, fout, p, s).rate == Rated(e.fin, m * 0x1_0000 + k, Divisor(p, s))
    ensures Candidate(e, fout, p, s).mdiv == m && Candidate(e, fout, p, s).kdiv == k
    ensures Candidate(e, fout, p, s).pdiv == p && Candidate(e, fout, p, s).sdiv == s
  {
    MulMono(fout, Scale(p, s), Divisor(p, s));
    hide Scale, Divisor, ComputeKdiv, ComputeRate, ComputeMdiv, Nearest, Clamp;
    MdivIsExact(e, p, s, fout);
    KdivIsExact(e, p, m, s, fout);
    InRangeRateIsExact(e, p, m, s, k);
  }

  /** One request beyond the band in which no other pair stays below the request: with the
      24 MHz crystal, 380874 Hz is answered with p = 64 as well. */
  lemma PreDivider64AboveBand(start: Config)
    ensures var c := Searched(Input(24_000_000, 0), start, 380_874);
            c.pdiv == 64 && c.mdiv == 65 && c.sdiv == 6 && c.kdiv == 164
  {
    var e := Input(24_000_000, 0);
    var fout := 380_874;
    assert Pow2(6) == 64;
    assert Scale(64, 6) == 4096 && Scale(63, 6) == 4032;
    assert Divisor(64, 6) == 4096 * 0x1_0000 && Divisor(63, 6) == 4032 * 0x1_0000;
    hide Scale, Divisor;
    CandidateIs(e, fout, 64, 6, 65, 164);
    CandidateIs(e, fout, 63, 6, 64, -863);
    assert Candidate(e, fout, 64, 6).rate == fout;
    assert Candidate(e, fout, 63, 6).rate < fout;
    hide Candidate;
    forall p: Pre, s: Post | 0 < p < 64 && s <= 6 && !(p == 63 && s == 6)
      ensures Candidate(e, fout, p, s).rate > fout
    {
      CoarserOvershoots(e, fout, p, s);
    }
    PreDivider64Iff(e, start, fout);
  }

  /** At 24 MHz, the pairs below (63, 6) do not reach below 384072 Hz. */
  lemma CoarserOvershoots(e: Input, fout: Uint64, p: Pre, s: Post)
    requires e.fin == 24_000_000 && 0 < p < 64 && s <= 6 && !(p == 63 && s == 6)
    ensures Candidate(e, fout, p, s).rate >= 384_072
  {
    var d := 62 * 64 * 0x1_0000;
    assert Divisor(p, s) <= d by {
      assert Pow2(5) == 32 && Pow2(6) == 64;
      if s <= 5 {
        Pow2Mono(s, 5);
        MulMono(p, Pow2(s), 32);
      }
    }
    CandidateReachesLowest(e, fout, p, s);
    hide Divisor, Candidate;
    DivAntitone(e.fin * LEAST, Divisor(p, s), d);
  }

  // ---- the closest rate ----

  function Gap(a: nat, b: nat): (d: nat)
    ensures d == a - b || d == b - a
  {
    if a > b then a - b else b - a
  }

  /** No candidate of the search is closer to the request. */
  ghost predicate Closest(e: Input, fout: Uint64, rate: nat) {
    forall p: Pre, s: Post :: s <= 6 ==> Gap(rate, fout) <= Gap(Candidate(e, fout, p, s).rate, fout)
  }

  /** Some candidate below the request is at least as close as a rate above it. */
  ghost predicate Matched(e: Input, fout: Uint64, above: nat) {
    exists p: Pre, s: Post :: s <= 6 && Candidate(e, fout, p, s).rate <= fout
                              && fout - Candidate(e, fout, p, s).rate <= above - fout
  }

  /** The search returns a closest rate exactly if each candidate above the request is
      matched by one below it. */
  lemma ClosestIff(e: Input, start: Config, fout: Uint64)
    requires e.byZero <= fout < FAR
    ensures Closest(e, fout, Searched(e, start, fout).rate)
       <==> forall p: Pre, s: Post :: s <= 6 && Candidate(e, fout, p, s).rate > fout
              ==> Matched(e, fout, Candidate(e, fout, p, s).rate)
  {
    var p, s := SearchedIsGreatestBelow(e, start, fout, 0, 0);
    hide Candidate, Searched;
  }

  /** The least difference, 1 Hz, is guaranteed by one unsaturated pair with a DSM step below
      2 Hz, and then no candidate is closer. */
  lemma FineStepIsClosest(e: Input, start: Config, fout: Uint64, p: Pre, s: Post)
    requires e.byZero <= fout < FAR
    requires p > 0 && s <= 6 && KdivFits(e, Divisor(p, s), fout) && e.fin < 2 * Divisor(p, s)
    requires 64 <= fout * Scale(p, s) / e.fin <= 1023
    requires !Saturates(e.fin, fout * Scale(p, s) % e.fin)
    ensures fout - 1 <= Searched(e, start, fout).rate <= fout
    ensures Closest(e, fout, Searched(e, start, fout).rate)
  {
    SearchMeetsEveryBound(e, fout, start, p, s);
    var d, r := Divisor(p, s), Searched(e, start, fout).rate;
    hide Scale, Divisor, Saturates, Candidate, Searched, WithinHalfRange;
    if fout - r >= 2 {
      MulMono(2 * d, 2, fout - r);
      assert false;
    }
    ClosestIff(e, start, fout);
    var p', s' := SearchedIsGreatestBelow(e, start, fout, 0, 0);
  }

  /** For a request at the 24 MHz crystal: some p * 2^s from 184 on puts it within the range
      of m, and leaves a remainder below half of the crystal's rate. */
  predicate HasFinePair(fout: Uint64) {
    exists p: Pre, s: Post :: 0 < p && s <= 6 && FinePair(fout, p * Pow2(s))
  }

  predicate FinePair(fout: Uint64, n: nat) {
    && 184 <= n
    && 1_536_000_000 <= fout * n < 24_576_000_000
    && fout * n % 24_000_000 < 11_999_817
  }

  /** All these requests are met to within 1 Hz, by the closest candidate. */
  lemma FineRequestIsClosest(start: Config, fout: Uint64)
    requires HasFinePair(fout)
    ensures var e := Input(24_000_000, 0);
            && fout - 1 <= Searched(e, start, fout).rate <= fout
            && Closest(e, fout, Searched(e, start, fout).rate)
  {
    var e := Input(24_000_000, 0);
    var p: Pre, s: Post :| 0 < p && s <= 6 && FinePair(fout, p * Pow2(s));
    var n, d := Scale(p, s), Divisor(p, s);
    assert d == n * 0x1_0000 && FinePair(fout, n);
    hide *;
    FinePairFits(fout, n, d);
    FineStepIsClosest(e, start, fout, p, s);
  }

  lemma FinePairFits(fout: Uint64, n: nat, d: nat)
    requires FinePair(fout, n) && d == n * 0x1_0000
    ensures var e := Input(24_000_000, 0);
            && e.byZero <= fout < FAR && KdivFits(e, d, fout) && e.fin < 2 * d
            && 64 <= fout * n / e.fin <= 1023
            && !Saturates(e.fin, fout * n % e.fin)
  {
    MulMono(fout, 184, n);
    var y := fout * n;
    assert fout * d == y * 0x1_0000;
    assert KdivFits(Input(24_000_000, 0), d, fout) by {
      DivGalois(I64, fout * d + 12_000_000, 24_000_000);
    }
  }

  /** With the 24 MHz crystal, a request of 217189452 Hz is answered with a rate at least
      2 Hz below it, although the pair (1, 3) misses it by 1 Hz. */
  lemma ClosestIsMissed(start: Config)
    ensures var e := Input(24_000_000, 0);
            && Candidate(e, 217_189_452, 1, 3).rate == 217_189_453
            && Searched(e, start, 217_189_452).rate < 217_189_451
            && !Closest(e, 217_189_452, Searched(e, start, 217_189_452).rate)
  {
    var e, fout := Input(24_000_000, 0), 217_189_452;
    assert Pow2(3) == 8;
    assert Scale(1, 3) == 8 && Divisor(1, 3) == 8 * 0x1_0000;
    hide Scale, Divisor;
    CandidateIs(e, fout, 1, 3, 72, 25984);
    assert Rated(24_000_000, 72 * 0x1_0000 + 25984, 8 * 0x1_0000) == 217_189_453;
    hide Candidate, Searched, Rated;
    var p, s := SearchedIsGreatestBelow(e, start, fout, 0, 0);
    NoneJustBelow(e, p, s);
  }

  /** 593072 DSM steps of 1 / 65536 of 24 MHz are 217189453.1 Hz, just above the request. An
      unsaturated DSM value rounds up to this rate, and a saturated one misses it by a step. */
  lemma NoneJustBelow(e: Input, p: Pre, s: Post)
    requires e == Input(24_000_000, 0) && s <= 6
    ensures var rate := Candidate(e, 217_189_452, p, s).rate;
            rate > 217_189_452 || rate < 217_189_451
  {
    var n := Scale(p, s);
    if 8 <= n <= 113 {
      MiddleRate(e, p, s, n);
      hide Candidate;
    } else if p > 0 {
      ScaleBounds(e, 217_189_452, p, s, 7, 114);
      hide Candidate;
    }
  }

  lemma MiddleRate(e: Input, p: Pre, s: Post, n: nat)
    requires e == Input(24_000_000, 0) && p > 0 && s <= 6 && n == Scale(p, s) && 8 <= n <= 113
    ensures var rate := Candidate(e, 217_189_452, p, s).rate;
            rate > 217_189_452 || rate < 217_189_451
  {
    var fout, d := 217_189_452, Divisor(p, s);
    assert d == n * 0x1_0000;
    hide Scale, Divisor, Candidate;
    assert Nearest(e.fin, d, fout) == 593_072 * n by {
      DivUnique(fout * d + 12_000_000, 24_000_000, 593_072 * n);
    }
    CandidateIsBounded(e, fout, p, s);
    var c := Candidate(e, fout, p, s);
    AboveOrBelow(n, c.mdiv * 0x1_0000 + c.kdiv);
  }

  lemma AboveOrBelow(n: nat, x: nat)
    requires 8 <= n <= 113 && x <= 593_072 * n
    ensures var rate := Rated(24_000_000, x, n * 0x1_0000);
            rate > 217_189_452 || rate < 217_189_451
  {
    if x == 593_072 * n {
      DivGalois(217_189_453, 24_000_000 * x, n * 0x1_0000);
    } else {
      DivGalois(217_189_451, 24_000_000 * x, n * 0x1_0000);
    }
  }

  /** Just below the rate of the crystal the truncated m saturates every pair that could
      come close: 23999999 Hz is missed by more than 11 kHz, although the pair (1, 6) misses
      it by 1 Hz. */
  lemma JustBelowCrystalIsMissed(start: Config)
    ensures var e := Input(24_000_000, 0);
            && Candidate(e, 23_999_999, 1, 6).rate == 24_000_000
            && Searched(e, start, 23_999_999).rate < 23_988_282
  {
    var e, fout := Input(24_000_000, 0), 23_999_999;
    assert Pow2(6) == 64;
    Unscaled(e, 1, 6);
    var p, s := SearchedIsGreatestBelow(e, start, fout, 0, 0);
    NoneNearCrystal(e, p, s);
    hide Candidate, Searched;
  }

  lemma NoneNearCrystal(e: Input, p: Pre, s: Post)
    requires e == Input(24_000_000, 0) && s <= 6
    ensures var rate := Candidate(e, 23_999_999, p, s).rate;
            rate > 23_999_999 || rate < 23_988_282
  {
    var n := Scale(p, s);
    if n == 64 {
      Unscaled(e, p, s);
      hide Candidate;
    } else if 64 < n <= 1024 {
      SaturatedBelowCrystal(e, p, s, n);
      hide Candidate;
    } else if p > 0 {
      ScaleBounds(e, 23_999_999, p, s, 63, 1025);
      hide Candidate;
    }
  }

  /** What the clamps of m and k leave to pairs of small and of great scale. */
  lemma ScaleBounds(e: Input, fout: Uint64, p: Pre, s: Post, low: nat, high: nat)
    requires p > 0 && e.fin * 0x400_0000 <= U64 && 0 < low && 0 < high
    ensures Scale(p, s) <= low ==> Candidate(e, fout, p, s).rate >= Lowest(e.fin, low * 0x1_0000)
    ensures Scale(p, s) >= high ==>
              Candidate(e, fout, p, s).rate <= e.fin * 0x400_0000 / (high * 0x1_0000)
  {
    var n, d := Scale(p, s), Divisor(p, s);
    assert d == n * 0x1_0000;
    CandidateReachesLowest(e, fout, p, s);
    hide Scale, Divisor, Candidate;
    if n <= low {
      DivAntitone(e.fin * LEAST, d, low * 0x1_0000);
    }
    if n >= high {
      DivAntitone(e.fin * 0x400_0000, high * 0x1_0000, d);
    }
  }

  lemma Unscaled(e: Input, p: Pre, s: Post)
    requires e == Input(24_000_000, 0) && p > 0 && p * Pow2(s) == 64
    ensures Candidate(e, 23_999_999, p, s).rate == 24_000_000
  {
    assert Scale(p, s) == 64 && Divisor(p, s) == 64 * 0x1_0000;
    hide Scale, Divisor;
    CandidateIs(e, 23_999_999, p, s, 64, 0);
    hide Candidate;
  }

  lemma SaturatedBelowCrystal(e: Input, p: Pre, s: Post, n: nat)
    requires e == Input(24_000_000, 0) && p > 0 && s <= 6 && n == Scale(p, s) && 65 <= n <= 1024
    ensures Candidate(e, 23_999_999, p, s).rate < 23_988_282
  {
    var fout, d := 23_999_999, Divisor(p, s);
    assert d == n * 0x1_0000;
    hide Scale, Divisor, Candidate;
    assert fout * n / e.fin == n - 1 by {
      DivUnique(fout * n, 24_000_000, n - 1);
    }
    assert KdivFits(e, d, fout) by {
      DivGalois(I64, fout * d + 12_000_000, 24_000_000);
    }
    CandidateIsBounded(e, fout, p, s);
    var x := (n - 1) * 0x1_0000 + Candidate(e, fout, p, s).kdiv;
    DivGalois(23_988_282, 24_000_000 * x, d);
  }

  // ---- repeating a request ----

  /** The search does not depend on the configuration it starts from. */
  lemma StartDoesNotMatter(e: Input, a: Config, b: Config, fout: Uint64)
    requires e.byZero == 0 && fout < FAR
    ensures Searched(e, a, fout) == Searched(e, b, fout)
  {
    var p, s := SearchedIsGreatestBelow(e, a, fout, 0, 0);
    var p', s' := SearchedIsGreatestBelow(e, b, fout, 0, 0);
    hide Candidate, Searched;
  }

  /** Repeating a request yields the same configuration, even where the pre-divider 64 has
      read back as 0. */
  lemma RepeatedRequest(e: Input, cfg: Config, fout: Uint64, again: Config)
    requires e.byZero == 0 && fout < FAR && cfg.pdiv < 64
    requires again == Chosen(e, cfg, fout) || (again.pdiv == 0 && Chosen(e, cfg, fout).pdiv == 64)
    ensures Chosen(e, again, fout) == Chosen(e, cfg, fout)
  {
    var p, s := SearchedIsGreatestBelow(e, cfg, fout, 0, 0);
    StartDoesNotMatter(e, cfg, again, fout);
    PreDivider64Iff(e, cfg, fout);
    assert again.pdiv == 0 ==> ComputeRate(e, again.pdiv, again.mdiv, again.sdiv, MAX_KDIV) == 0;
    hide ComputeRate, ComputeKdiv, ComputeMdiv, Searched;
  }

  // ---- the documented range of the pre-divider ----

  /** The candidates with p >= 1. */
  function Documented(e: Input, fout: Uint64): seq<Config> {
    Candidates(e, fout)[7..]
  }

  /** Were the loop to start at p = 1, a request below the least reachable rate would be
      answered with the rate FURTHEST from it. */
  lemma DocumentedPicksFurthest(e: Input, start: Config, fout: Uint64)
    returns (i: nat)
    requires e.byZero == 0 && e.fin * 0x400_0000 <= U64
    requires fout < FAR && fout + 1 < Lowest(e.fin, D64)
    ensures var cs := Documented(e, fout);
            && i < |cs| && Best(fout, start, cs, |cs|).0 == cs[i]
            && forall c <- cs :: fout < c.rate <= cs[i].rate
  {
    var cs := Documented(e, fout);
    CandidatesAreSmall(e, fout);
    forall j: nat | j < |cs|
      ensures fout + 1 < cs[j].rate < I64
    {
      PairsReachLowest(e, fout, j + 7);
    }
    hide Documented, Lowest;
    i := SearchPicksFurthestAbove(fout, start, cs);
    assert cs[0].rate != fout + 1;
  }
}
