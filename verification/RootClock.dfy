/** Root clocks, root-clock dividers and gates of the i.MX8 clock controllers, and the
    tree of rates they form. The two SoCs share this code. */
module RootClock {
  import opened Words
  import opened Bits

  /** '(parent_rate / (pre+1)) / (post+1)' */
  function Divided(parent: Uint64, pre: nat, post: nat): Uint64 {
    DivLeq(parent, pre + 1);
    DivLeq(parent / (pre + 1), post + 1);
    parent / (pre + 1) / (post + 1)
  }

  function Distance(a: nat, b: nat): (d: nat)
    ensures d == a - b || d == b - a
  {
    if a > b then a - b else b - a
  }

  /** Distance of one setting's rate from the target. */
  function Off(parent: Uint64, rate: Uint64, pre: nat, post: nat): nat {
    Distance(Divided(parent, pre, post), rate)
  }

  /** The distance of a setting in exact arithmetic. */
  lemma OffIsDistance(parent: Uint64, rate: Uint64, pre: nat, post: nat)
    ensures (pre + 1) * (post + 1) > 0
    ensures var r := parent / ((pre + 1) * (post + 1));
            Off(parent, rate, pre, post) == r - rate || Off(parent, rate, pre, post) == rate - r
  {
    DivDiv(parent, pre + 1, post + 1);
    hide Distance;
  }

  predicate Setting(pre: nat, post: nat) {
    pre < 8 && post < 64
  }

  predicate Before(pre: nat, post: nat, pre': nat, post': nat) {
    pre < pre' || (pre == pre' && post < post')
  }

  /** Least distance over all 512 settings, at the first setting that attains it. */
  ghost predicate FirstBest(parent: Uint64, rate: Uint64, pre: nat, post: nat) {
    && Setting(pre, post)
    && (forall a: nat, b: nat :: Setting(a, b) ==>
          Off(parent, rate, pre, post) <= Off(parent, rate, a, b))
    && (forall a: nat, b: nat :: Setting(a, b) && Before(a, b, pre, post) ==>
          Off(parent, rate, pre, post) < Off(parent, rate, a, b))
  }

  /** The search of 'Root_clock::rate', with its early exit at deviation zero. */
  method Search(parent: Uint64, rate: Uint64) returns (preDiv: nat, postDiv: nat)
    ensures FirstBest(parent, rate, preDiv, postDiv)
  {
    hide Divided;
    preDiv, postDiv := 0, 0;
    var deviation: nat := U64 - 1;
    var pre := 0;
    ghost var none := true;  // no setting came below the initial deviation yet
    while deviation != 0 && pre < 8
      invariant pre <= 8
      invariant Progress(parent, rate, preDiv, postDiv, deviation, none, pre, 0)
    {
      var post := 0;
      while deviation != 0 && post < 64
        invariant post <= 64
        invariant Progress(parent, rate, preDiv, postDiv, deviation, none, pre, post)
      {
        var diff: nat := Divided(parent, pre, post);
        diff := if diff > rate then diff - rate else rate - diff;
        VisitOne(parent, rate, preDiv, postDiv, deviation, none, pre, post);
        if diff < deviation {
          preDiv, postDiv, deviation, none := pre, post, diff, false;
        }
        post := post + 1;
      }
      pre := pre + 1;
    }
  }

  /** What the search knows after visiting all settings before (pre, post). */
  ghost predicate Progress(parent: Uint64, rate: Uint64, preDiv: nat, postDiv: nat,
                           deviation: nat, none: bool, pre: nat, post: nat)
  {
    && Setting(preDiv, postDiv)
    && deviation < U64
    && (none ==> deviation == U64 - 1 && preDiv == 0 && postDiv == 0)
    && (!none ==> deviation == Off(parent, rate, preDiv, postDiv))
    && (!none ==> forall a: nat, b: nat :: Setting(a, b) && Before(a, b, preDiv, postDiv) ==>
          deviation < Off(parent, rate, a, b))
    && (forall a: nat, b: nat :: Setting(a, b) && Before(a, b, pre, post) ==>
          deviation <= Off(parent, rate, a, b))
  }

  /** Visiting one more setting. */
  lemma VisitOne(parent: Uint64, rate: Uint64, preDiv: nat, postDiv: nat, deviation: nat, none: bool,
                 pre: nat, post: nat)
    requires Progress(parent, rate, preDiv, postDiv, deviation, none, pre, post) && Setting(pre, post)
    ensures var off := Off(parent, rate, pre, post);
            if off < deviation
            then Progress(parent, rate, pre, post, off, false, pre, post + 1)
            else Progress(parent, rate, preDiv, postDiv, deviation, none, pre, post + 1)
  {
    hide Divided;
  }

  function WriteDividers(target: Uint32, pre: nat, post: nat): Uint32 {
    Write(Write(target, 16, 3, pre), 0, 6, post)
  }

  function RefSel(target: Uint32): (i: nat)
    ensures i == target / 0x100_0000 % 8
  {
    FieldsOfTarget(target);
    Get(target, 24, 3)
  }

  /** The fields of a target register in arithmetic. */
  lemma FieldsOfTarget(target: Uint32)
    ensures Get(target, 0, 6) == target % 0x40
    ensures Get(target, 16, 3) == target / 0x1_0000 % 8
    ensures Get(target, 24, 3) == target / 0x100_0000 % 8
  {
    Powers();
    GetIsMod(target, 0, 6);
    GetIsMod(target, 16, 3);
    GetIsMod(target, 24, 3);
    hide Get, Pow2;
  }

  /** Both dividers read back; the reference selection and the enable bit stay. */
  lemma DividersReadBack(target: Uint32, pre: nat, post: nat)
    requires Setting(pre, post)
    ensures var t := WriteDividers(target, pre, post);
            && Get(t, 16, 3) == pre && Get(t, 0, 6) == post
            && RefSel(t) == RefSel(target) && Get(t, 28, 1) == Get(target, 28, 1)
  {
    var t1 := Write(target, 16, 3, pre);
    GetSet(target, 16, 3, pre);
    GetSetOther(t1, 0, 6, post, 16, 3);
    GetSet(t1, 0, 6, post);
    GetSetOther(target, 16, 3, pre, 24, 3);
    GetSetOther(t1, 0, 6, post, 24, 3);
    GetSetOther(target, 16, 3, pre, 28, 1);
    GetSetOther(t1, 0, 6, post, 28, 1);
    assert Pow2(3) == 8 && Pow2(6) == 64;
    LowFits(pre, 3);
    LowFits(post, 6);
  }

  /** Every bit outside the two dividers stays. */
  lemma DividersKeepRest(target: Uint32, pre: nat, post: nat)
    ensures forall i: nat :: 6 <= i < 16 || 19 <= i ==> Bit(WriteDividers(target, pre, post), i) == Bit(target, i)
  {
    SetKeepsRest(target, 16, 3, pre);
    SetKeepsRest(Write(target, 16, 3, pre), 0, 6, post);
    hide Set, Bit;
  }

  /** Rates of the eight reference clocks. */
  type Refs = refs: seq<Uint64> | |refs| == 8 witness [0, 0, 0, 0, 0, 0, 0, 0]

  class RootClock {
    var target: Uint32

    constructor (target: Uint32)
      ensures this.target == target
    {
      this.target := target;
    }

    /** 'rate() const' */
    function Rate(refs: Refs): Uint64
      reads this
    {
      Divided(refs[RefSel(target)], Get(target, 16, 3), Get(target, 0, 6))
    }

    /** 'rate(Rate)': the rate read back afterwards is the closest of all 512 settings. */
    method SetRate(refs: Refs, rate: Uint64)
      modifies this
      ensures target == WriteDividers(old(target), Get(target, 16, 3), Get(target, 0, 6))
      ensures FirstBest(refs[old(RefSel(target))], rate, Get(target, 16, 3), Get(target, 0, 6))
      ensures RefSel(target) == old(RefSel(target)) && Get(target, 28, 1) == old(Get(target, 28, 1))
      ensures forall i: nat :: 6 <= i < 16 || 19 <= i ==> Bit(target, i) == old(Bit(target, i))
      ensures Rate(refs) == refs[old(target) / 0x100_0000 % 8]
                            / ((target / 0x1_0000 % 8 + 1) * (target % 0x40 + 1))
      ensures forall pre: nat, post: nat :: pre < 8 && post < 64 ==>
                Distance(Rate(refs), rate) <= Off(refs[RefSel(target)], rate, pre, post)
    {
      var pre, post := Search(refs[RefSel(target)], rate);
      DividersReadBack(target, pre, post);
      DividersKeepRest(target, pre, post);
      target := Write(target, 16, 3, pre);
      target := Write(target, 0, 6, post);
      FieldsOfTarget(target);
      DivDiv(refs[RefSel(target)], pre + 1, post + 1);
    }
  }

  // ---- root-clock dividers ----

  /** '(uint32_t)((parent / rate) - 1)' */
  function DividerValue(parent: Uint64, rate: Uint64, byZero: Uint64): Uint32 {
    Wrap(Div(parent, rate, byZero) - 1) % U32
  }

  class RootClockDivider {
    var target: Uint32
    const byZero: Uint64

    constructor (byZero: Uint64, target: Uint32)
      ensures this.byZero == byZero && this.target == target
    {
      this.byZero, this.target := byZero, target;
    }

    /** 'rate() const' */
    function Rate(parent: Uint64): Uint64
      reads this
    {
      Divided(parent, 0, Get(target, 0, 6))
    }

    /** 'rate(Rate)': a request is accepted exactly if the quotient, taken modulo 2^32, lies in
        1..65; otherwise the register stays. */
    method SetRate(parent: Uint64, rate: Uint64) returns (done: bool)
      modifies this
      ensures var q := if rate == 0 then byZero else parent / rate;
              && (done <==> 1 <= q % U32 <= 65)
              && (done ==> target % 0x40 == (q % U32 - 1) % 0x40)
      ensures forall i: nat :: 6 <= i ==> Bit(target, i) == old(Bit(target, i))
      ensures !done ==> target == old(target)
      ensures Rate(parent) == parent / (target % 0x40 + 1)
      ensures 0 < rate && parent < rate ==> !done
      ensures 0 < rate && done ==>
                (Largest(parent, rate, Get(target, 0, 6) + 1) <==> 1 <= parent / rate <= 64)
      ensures 0 < rate && 1 <= parent / rate <= 64 ==>
                done && Rate(parent) >= rate
    {
      hide Largest, DividerValue, Divided, Bit, Get, Set, Write;
      var div := DividerValue(parent, rate, byZero);
      AcceptedIff(parent, rate, byZero);
      FieldReadsBack(target, div);
      DividedByPost(parent, target);
      if rate > 0 {
        DividerIsLargest(parent, rate, byZero);
      }
      if div > 64 {
        return false;
      }
      target := Write(target, 0, 6, div);
      DividedByPost(parent, target);
      return true;
    }
  }

  lemma AcceptedIff(parent: Uint64, rate: Uint64, byZero: Uint64)
    ensures var q, v := if rate == 0 then byZero else parent / rate, DividerValue(parent, rate, byZero);
            && (v <= 64 <==> 1 <= q % U32 <= 65)
            && (v <= 64 ==> v == q % U32 - 1)
  {
    DecrementModulo(Div(parent, rate, byZero));
  }

  lemma DecrementModulo(q: Uint64)
    ensures Wrap(q - 1) % U32 <= 64 <==> 1 <= q % U32 <= 65
    ensures Wrap(q - 1) % U32 <= 64 ==> Wrap(q - 1) % U32 == q % U32 - 1
  {
  }

  lemma DividedByPost(parent: Uint64, target: Uint32)
    ensures Divided(parent, 0, Get(target, 0, 6)) == parent / (target % 0x40 + 1)
  {
    FieldsOfTarget(target);
    assert parent / 1 == parent;
  }

  lemma FieldReadsBack(target: Uint32, v: nat)
    ensures Get(Write(target, 0, 6, v), 0, 6) == v % 0x40
    ensures Write(target, 0, 6, v) % 0x40 == v % 0x40
    ensures forall i: nat :: 6 <= i ==> Bit(Write(target, 0, 6, v), i) == Bit(target, i)
  {
    GetSet(target, 0, 6, v);
    LowIsMod(v, 6);
    assert Pow2(6) == 0x40;
    SetKeepsRest(target, 0, 6, v);
    FieldsOfTarget(Write(target, 0, 6, v));
    hide Set, Get, Low, High, Bit;
  }

  /** What follows for the field that the setter writes, if it writes one. */
  lemma DividerIsLargest(parent: Uint64, rate: Uint64, byZero: Uint64)
    requires rate > 0
    ensures var v := DividerValue(parent, rate, byZero);
            && (parent < rate ==> v > 64)
            && (v <= 64 ==> (Largest(parent, rate, v % 64 + 1) <==> 1 <= parent / rate <= 64))
            && (1 <= parent / rate <= 64 ==> v < 64 && Divided(parent, 0, v) >= rate)
  {
    hide DividerValue, Largest, Divided;
    ValueOfSmallQuotient(parent, rate, byZero);
    var v := DividerValue(parent, rate, byZero);
    if v <= 64 {
      LargestIff(parent, rate, byZero);
    }
    if 1 <= parent / rate <= 64 {
      LargestKeepsRate(parent, rate, v + 1);
    }
  }

  /** 'd' is the largest divisor whose rate does not fall below 'rate'. */
  ghost predicate Largest(parent: nat, rate: nat, d: nat) {
    && d > 0
    && parent / d >= rate
    && forall e: nat :: e > d ==> parent / e < rate
  }

  lemma LargestKeepsRate(parent: Uint64, rate: Uint64, d: nat)
    requires Largest(parent, rate, d)
    ensures Divided(parent, 0, d - 1) >= rate
  {
  }

  lemma LargestIsQuotient(parent: nat, rate: nat, d: nat)
    requires rate > 0 && d > 0
    ensures Largest(parent, rate, d) <==> d == parent / rate
  {
    forall e: nat | e > 0
      ensures parent / e >= rate <==> e <= parent / rate
    {
      DivGalois(rate, parent, e);
      DivGalois(e, parent, rate);
      assert rate * e == e * rate;
    }
    if d < parent / rate {
      assert parent / (d + 1) >= rate;
    }
  }

  lemma ValueOfSmallQuotient(parent: Uint64, rate: Uint64, byZero: Uint64)
    requires rate > 0
    ensures parent < rate || parent / rate == 0 ==> DividerValue(parent, rate, byZero) == U32 - 1
    ensures 1 <= parent / rate <= 65 ==> DividerValue(parent, rate, byZero) == parent / rate - 1
  {
    DivGalois(1, parent, rate);
    SmallDecrement(Div(parent, rate, byZero));
  }

  lemma SmallDecrement(q: Uint64)
    ensures q == 0 ==> Wrap(q - 1) % U32 == U32 - 1
    ensures 1 <= q <= 65 ==> Wrap(q - 1) % U32 == q - 1
  {
  }

  /** An accepted divider is the largest one that keeps the rate exactly when the quotient
      is in 1..64. The quotient 65 is accepted as well, but 64 does not fit the six bits of
      the field and reads back as divisor 1; so are quotients beyond 2^32 that the
      conversion to 32 bits makes small. */
  lemma LargestIff(parent: Uint64, rate: Uint64, byZero: Uint64)
    requires rate > 0 && DividerValue(parent, rate, byZero) <= 64
    ensures Largest(parent, rate, DividerValue(parent, rate, byZero) % 64 + 1)
       <==> 1 <= parent / rate <= 64
  {
    hide Largest;
    var q := parent / rate;
    var v := DividerValue(parent, rate, byZero);
    LargestIsQuotient(parent, rate, v % 64 + 1);
    assert 1 <= q <= 64 ==> v == q - 1 by {
      ValueOfSmallQuotient(parent, rate, byZero);
    }
    hide DividerValue;
    assert v % 64 + 1 == q <==> 1 <= q <= 64;
  }

  /** A parent 65 times as fast as the request passes the check, and then runs undivided. */
  lemma Quotient65Undivided(target: Uint32, rate: Uint64, byZero: Uint64)
    requires 0 < rate && rate * 65 < U64
    ensures var v := DividerValue(rate * 65, rate, byZero);
            v == 64 && Divided(rate * 65, 0, Get(Write(target, 0, 6, v), 0, 6)) == rate * 65
  {
    DivUnique(rate * 65, rate, 65);
    ValueOfSmallQuotient(rate * 65, rate, byZero);
    hide DividerValue;
    FieldReadsBack(target, 64);
  }

  // ---- the clock tree ----

  /** A root clock names eight reference clocks, of which its register selects one. */
  datatype Clock =
    | Source(rate: Uint64)
    | Gate(parent: Clock)
    | Divider(target: Uint32, parent: Clock)
    | Root(target: Uint32, refs: seq<Clock>)

  predicate WellFormed(c: Clock) {
    match c
    case Source(_) => true
    case Gate(p) => WellFormed(p)
    case Divider(_, p) => WellFormed(p)
    case Root(_, refs) => |refs| == 8 && forall r <- refs :: WellFormed(r)
  }

  /** 'rate() const' of every kind of clock. */
  function RateOf(c: Clock): Uint64
    requires WellFormed(c)
  {
    match c
    case Source(rate) => rate
    case Gate(p) => RateOf(p)
    case Divider(target, p) => Divided(RateOf(p), 0, Get(target, 0, 6))
    case Root(target, refs) =>
      Divided(RateOf(refs[RefSel(target)]), Get(target, 16, 3), Get(target, 0, 6))
  }

  /** The source at the end of the selected path, and the product of the divisors on it. */
  function Origin(c: Clock): Uint64
    requires WellFormed(c)
  {
    match c
    case Source(rate) => rate
    case Gate(p) => Origin(p)
    case Divider(_, p) => Origin(p)
    case Root(target, refs) => Origin(refs[target / 0x100_0000 % 8])
  }

  function Times(x: nat, y: nat): nat {
    MulMono(x, 0, y);
    x * y
  }

  function Product(c: Clock): nat
    requires WellFormed(c)
  {
    match c
    case Source(_) => 1
    case Gate(p) => Product(p)
    case Divider(target, p) => Times(Product(p), target % 0x40 + 1)
    case Root(target, refs) =>
      Times(Product(refs[target / 0x100_0000 % 8]),
            Times(target / 0x1_0000 % 8 + 1, target % 0x40 + 1))
  }

  /** However deep the tree, the floor divisions on a path collapse into one. */
  lemma {:induction false} TreeCollapses(c: Clock)
    requires WellFormed(c)
    ensures Product(c) > 0
    ensures RateOf(c) == Origin(c) / Product(c)
  {
    match c
    case Source(_) =>
    case Gate(p) => TreeCollapses(p);
    case Divider(target, p) =>
      TreeCollapses(p);
      DividedByPost(RateOf(p), target);
      DivDiv(Origin(p), Product(p), target % 0x40 + 1);
    case Root(target, refs) =>
      var p := refs[RefSel(target)];
      FieldsOfTarget(target);
      var pre, post := Get(target, 16, 3) + 1, Get(target, 0, 6) + 1;
      TreeCollapses(p);
      DivDiv(RateOf(p), pre, post);
      DivDiv(Origin(p), Product(p), pre * post);
  }
}
