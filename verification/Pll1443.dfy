/** The fractional PLL 1443 of the i.MX8MP clock controller: computing a divider
    configuration for a requested rate, programming it, and reading the rate back.

    Rates and dividers are 'uint64_t' in the driver; sums and products wrap at 2^64. */
module Pll1443 {
  import opened Words
  import opened Bits

  const MIN_KDIV: Int16 := -32768
  const MAX_KDIV: Int16 := 32767

  /** '-1UL >> 1', the initial deviation. */
  const FAR: int := I64 - 1

  /** Bounds of the values the loops and the register fields can produce. */
  type Pre = x: nat | x <= 64
  type Main = x: nat | x <= 1023
  type Post = x: nat | x <= 7

  datatype Config = Config(rate: Uint64, pdiv: Pre, mdiv: Main, sdiv: Post, kdiv: Int16)

  /** What the computation depends on besides registers: the rate of the parent clock
      and the quotient that the CPU delivers for a division by zero. */
  datatype Input = Input(fin: Uint64, byZero: Uint64)

  function Clamp(x: int, min: int, max: int): (r: int)
    requires min <= max
    ensures min <= r <= max
  {
    if x < min then min else if x > max then max else x
  }

  lemma Pow2Range(s: Post)
    ensures 1 <= Pow2(s) <= 128
    ensures s <= 6 ==> Pow2(s) <= 64
  {
    assert Pow2(3) == 8;
    assert Pow2(7) == 16 * Pow2(3);
  }

  /** p * 2^s */
  function Scale(p: Pre, s: Post): (n: nat)
    ensures n <= 8192
    ensures p == 0 <==> n == 0
  {
    Pow2Range(s);
    MulMono(p, 1, Pow2(s));
    MulMono(p, Pow2(s), 128);
    p * Pow2(s)
  }

  /** p * 2^s * 65536 */
  function Divisor(p: Pre, s: Post): (d: nat)
    ensures d <= 0x2000_0000
    ensures p == 0 <==> d == 0
    ensures p > 0 ==> d >= 0x1_0000
  {
    Scale(p, s) * 0x1_0000
  }

  // ---- the driver's formulas ----

  function ComputeRate(e: Input, p: Pre, m: Main, s: Post, k: Int16): Uint64 {
    Div(Wrap(e.fin * (m * 0x1_0000 + k)), Divisor(p, s), e.byZero)
  }

  function ComputeKdiv(e: Input, p: Pre, m: Main, s: Post, fout: Uint64): Int16 {
    var quotient := Div(Wrap(fout * Divisor(p, s) + e.fin / 2), e.fin, e.byZero);
    Clamp(Signed(Wrap(quotient - m * 0x1_0000)), MIN_KDIV, MAX_KDIV)
  }

  /** The current dividers with the DSM value recomputed for 'fout'. */
  function Retune(e: Input, cfg: Config, fout: Uint64): Config {
    var k := ComputeKdiv(e, cfg.pdiv, cfg.mdiv, cfg.sdiv, fout);
    cfg.(kdiv := k, rate := ComputeRate(e, cfg.pdiv, cfg.mdiv, cfg.sdiv, k))
  }

  function ComputeMdiv(e: Input, p: Pre, s: Post, fout: Uint64): Main {
    Clamp(Div(Wrap(fout * Scale(p, s)), e.fin, e.byZero), 64, 1023)
  }

  /** The configuration that the search tries for one pair of pre- and post-divider. */
  function Candidate(e: Input, fout: Uint64, p: Pre, s: Post): Config {
    var m := ComputeMdiv(e, p, s, fout);
    var k := ComputeKdiv(e, p, m, s, fout);
    Config(ComputeRate(e, p, m, s, k), p, m, s, k)
  }

  /** 'static_cast<int64_t>(fout - rate) & (-1UL >> 1)': the low 63 bits of the difference. */
  function Dist(fout: Uint64, rate: Uint64): (d: nat)
    ensures d <= FAR
  {
    (fout - rate) % I64
  }

  predicate GlitchFree(e: Input, cfg: Config, fout: Uint64) {
    && fout <= ComputeRate(e, cfg.pdiv, cfg.mdiv, cfg.sdiv, MAX_KDIV)
    && fout >= ComputeRate(e, cfg.pdiv, cfg.mdiv, cfg.sdiv, MIN_KDIV)
  }

  // ---- reference search: all candidates, no early exit ----

  /** Number of (p, s) pairs that the loops visit: p = 0..64, s = 0..6. */
  const PAIRS: nat := 455

  /** The candidates in loop order. */
  function Candidates(e: Input, fout: Uint64): (cs: seq<Config>)
    ensures |cs| == PAIRS
  {
    seq(PAIRS, i requires 0 <= i < PAIRS => Candidate(e, fout, i / 7, i % 7))
  }

  /** Best configuration and its deviation after the first 'n' candidates. */
  function Best(fout: Uint64, start: Config, cs: seq<Config>, n: nat): (Config, nat)
    requires n <= |cs|
  {
    if n == 0 then (start, FAR)
    else
      var best := Best(fout, start, cs, n - 1);
      var dist := Dist(fout, cs[n - 1].rate);
      if dist < best.1 then (cs[n - 1], dist) else best
  }

  function Searched(e: Input, start: Config, fout: Uint64): Config {
    Best(fout, start, Candidates(e, fout), PAIRS).0
  }

  function Chosen(e: Input, cfg: Config, fout: Uint64): Config {
    if GlitchFree(e, cfg, fout) then Retune(e, cfg, fout) else Searched(e, cfg, fout)
  }

  /** Once a deviation of zero is reached, the remaining candidates change nothing. */
  lemma {:induction false} ZeroIsFinal(fout: Uint64, start: Config, cs: seq<Config>, n: nat, n': nat)
    requires n <= n' <= |cs|
    requires Best(fout, start, cs, n).1 == 0
    ensures Best(fout, start, cs, n') == Best(fout, start, cs, n)
  {
    if n < n' {
      ZeroIsFinal(fout, start, cs, n, n' - 1);
    }
  }

  lemma CandidateAt(e: Input, fout: Uint64, p: Pre, s: Post)
    requires s <= 6
    ensures Candidates(e, fout)[7 * p + s] == Candidate(e, fout, p, s)
  {
    assert (7 * p + s) / 7 == p && (7 * p + s) % 7 == s;
  }

  /** The driver's '_compute', started from the configuration read from the registers. */
  method Compute(e: Input, current: Config, fout: Uint64) returns (cfg: Config)
    ensures cfg == Chosen(e, current, fout)
  {
    hide ComputeRate, ComputeKdiv, ComputeMdiv, Dist, Candidates;
    ghost var cs := Candidates(e, fout);
    cfg := current;
    var minRate := ComputeRate(e, cfg.pdiv, cfg.mdiv, cfg.sdiv, MIN_KDIV);
    var maxRate := ComputeRate(e, cfg.pdiv, cfg.mdiv, cfg.sdiv, MAX_KDIV);
    if fout <= maxRate && fout >= minRate {
      var k := ComputeKdiv(e, cfg.pdiv, cfg.mdiv, cfg.sdiv, fout);
      cfg := cfg.(kdiv := k);
      cfg := cfg.(rate := ComputeRate(e, cfg.pdiv, cfg.mdiv, cfg.sdiv, cfg.kdiv));
      return;
    }
    var deviation := FAR;
    var p := 0;
    while p <= 64
      invariant p <= 65
      invariant (cfg, deviation) == Best(fout, current, cs, 7 * p)
    {
      var s := 0;
      while s <= 6
        invariant s <= 7
        invariant (cfg, deviation) == Best(fout, current, cs, 7 * p + s)
      {
        var m := ComputeMdiv(e, p, s, fout);
        var k := ComputeKdiv(e, p, m, s, fout);
        var candidate := Config(ComputeRate(e, p, m, s, k), p, m, s, k);
        var dist := Dist(fout, candidate.rate);
        CandidateAt(e, fout, p, s);
        if dist < deviation {
          deviation := dist;
          cfg := candidate;
          if deviation == 0 {
            ZeroIsFinal(fout, current, cs, 7 * p + s + 1, PAIRS);
            return;
          }
        }
        s := s + 1;
      }
      p := p + 1;
    }
  }

  // ---- optimality of the search ----

  /** The search returns the first candidate of least deviation, or, if no deviation is
      below the initial one, the configuration it started from. */
  lemma {:induction false} SearchIsFirstMinimum(fout: Uint64, start: Config, cs: seq<Config>, n: nat)
    returns (i: nat)
    requires n <= |cs|
    ensures i <= n
    ensures i == n ==> Best(fout, start, cs, n) == (start, FAR)
    ensures i == n ==> forall j: nat :: j < n ==> Dist(fout, cs[j].rate) == FAR
    ensures i < n ==> Best(fout, start, cs, n) == (cs[i], Dist(fout, cs[i].rate))
    ensures i < n ==> forall j: nat :: j < n ==> Dist(fout, cs[i].rate) <= Dist(fout, cs[j].rate)
    ensures i < n ==> forall j: nat :: j < i ==> Dist(fout, cs[i].rate) < Dist(fout, cs[j].rate)
    ensures i < n ==> Dist(fout, cs[i].rate) < FAR
  {
    hide Dist;
    if n == 0 {
      i := 0;
    } else {
      i := SearchIsFirstMinimum(fout, start, cs, n - 1);
      if Dist(fout, cs[n - 1].rate) < Best(fout, start, cs, n - 1).1 {
        i := n - 1;
      } else if i == n - 1 {
        i := n;
      }
    }
  }

  /** The masked distance ranks undershoots by closeness and puts every overshoot behind
      them, the furthest overshoot first. */
  lemma DistRanks(fout: Uint64, rate: Uint64)
    requires fout < I64 && rate < I64
    ensures Dist(fout, rate) == if rate <= fout then fout - rate else I64 - (rate - fout)
  {
    if rate <= fout {
      DivUnique(fout - rate, I64, 0);
    } else {
      DivUnique(fout - rate, I64, -1);
    }
  }

  /** If some candidate does not exceed the request, the search returns the greatest such
      rate, at its first candidate in loop order. */
  lemma SearchPicksGreatestBelow(fout: Uint64, start: Config, cs: seq<Config>, w: nat) returns (i: nat)
    requires fout < FAR && forall c <- cs :: c.rate < I64
    requires w < |cs| && cs[w].rate <= fout
    ensures i < |cs| && cs[i].rate <= fout && Best(fout, start, cs, |cs|).0 == cs[i]
    ensures forall j: nat :: j < |cs| && cs[j].rate <= fout ==> cs[j].rate <= cs[i].rate
    ensures forall j: nat :: j < i && cs[j].rate <= fout ==> cs[j].rate < cs[i].rate
  {
    i := SearchIsFirstMinimum(fout, start, cs, |cs|);
    hide Best;
    forall j: nat | j < |cs|
      ensures Dist(fout, cs[j].rate)
           == if cs[j].rate <= fout then fout - cs[j].rate else I64 - (cs[j].rate - fout)
    {
      DistRanks(fout, cs[j].rate);
    }
    hide Dist;
    assert Dist(fout, cs[w].rate) <= fout < FAR;
    assert i < |cs| && Dist(fout, cs[i].rate) <= fout;
  }

  /** If every candidate exceeds the request, the search returns the rate FURTHEST from it,
      or keeps the old configuration when all candidates exceed it by exactly one. */
  lemma SearchPicksFurthestAbove(fout: Uint64, start: Config, cs: seq<Config>) returns (i: nat)
    requires fout < FAR && forall c <- cs :: fout < c.rate < I64
    ensures i <= |cs|
    ensures i == |cs| ==> Best(fout, start, cs, |cs|).0 == start
    ensures i == |cs| ==> forall c <- cs :: c.rate == fout + 1
    ensures i < |cs| ==> Best(fout, start, cs, |cs|).0 == cs[i]
    ensures i < |cs| ==> forall c <- cs :: c.rate <= cs[i].rate
  {
    i := SearchIsFirstMinimum(fout, start, cs, |cs|);
    hide Best;
    forall j: nat | j < |cs|
      ensures Dist(fout, cs[j].rate) == I64 - (cs[j].rate - fout)
    {
      DistRanks(fout, cs[j].rate);
    }
    hide Dist;
  }

  /** Rates of pairs with p > 0 stay far below 2^63 even when the product wraps. */
  lemma RateIsSmall(e: Input, p: Pre, m: Main, s: Post, k: Int16)
    requires p > 0 || e.byZero < I64
    ensures ComputeRate(e, p, m, s, k) < I64
  {
    if p > 0 {
      var x := Wrap(e.fin * (m * 0x1_0000 + k));
      DivAntitone(x, 2, Divisor(p, s));
    }
  }

  /** So the theorems about the search apply to the driver's candidates. */
  lemma CandidatesAreSmall(e: Input, fout: Uint64)
    requires e.byZero < I64
    ensures forall c <- Candidates(e, fout) :: c.rate < I64
  {
    hide ComputeRate;
    forall i: nat | i < PAIRS
      ensures Candidates(e, fout)[i].rate < I64
    {
      var c := Candidate(e, fout, i / 7, i % 7);
      RateIsSmall(e, c.pdiv, c.mdiv, c.sdiv, c.kdiv);
    }
  }

  /** The driver's search, in terms of its pairs: if the candidate of some pair does not
      exceed the request, the greatest such rate wins, at its first pair in loop order. */
  lemma SearchedIsGreatestBelow(e: Input, start: Config, fout: Uint64, p0: Pre, s0: Post)
    returns (p: Pre, s: Post)
    requires fout < FAR && e.byZero < I64
    requires s0 <= 6 && Candidate(e, fout, p0, s0).rate <= fout
    ensures s <= 6 && Searched(e, start, fout) == Candidate(e, fout, p, s)
    ensures Candidate(e, fout, p, s).rate <= fout
    ensures forall p': Pre, s': Post :: s' <= 6 && Candidate(e, fout, p', s').rate <= fout
              ==> Candidate(e, fout, p', s').rate <= Candidate(e, fout, p, s).rate
    ensures forall p': Pre, s': Post :: s' <= 6 && Candidate(e, fout, p', s').rate <= fout
              && (p' < p || (p' == p && s' < s))
              ==> Candidate(e, fout, p', s').rate < Candidate(e, fout, p, s).rate
  {
    var cs := Candidates(e, fout);
    CandidatesAreSmall(e, fout);
    CandidateAt(e, fout, p0, s0);
    var i := SearchPicksGreatestBelow(fout, start, cs, 7 * p0 + s0);
    p, s := i / 7, i % 7;
    CandidateAt(e, fout, p, s);
    hide Best, Candidate, Candidates;
    forall p': Pre, s': Post | s' <= 6
      ensures cs[7 * p' + s'] == Candidate(e, fout, p', s')
    {
      CandidateAt(e, fout, p', s');
    }
  }
}
