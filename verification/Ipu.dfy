/** Channel descriptors of the i.MX53 image processing unit. A 512-bit descriptor is
    written once as a struct of bit-fields; for the overlay, two of its words are later
    patched with hand-coded shifts. */
module Ipu {
  import opened Words
  import opened Bits

  datatype Field = Field(lo: nat, width: nat)

  /** Widths of the members of the 'Cp_mem' struct, in declaration order. */
  const HEAD: seq<nat> := [
    10, 9, 13, 12, 1, 1,  // xv yv xb yb nsb_b cf
    12, 11, 10, 7, 10]  // sx sy ns sdx sm

  const MIDDLE: seq<nat> := [
    1, 1, 7, 1, 1,  // scc sce sdy sdrx sdry
    3, 2, 1, 1, 3, 2, 1, 1,  // bpp dec_sel dim so bndm bm rot hf
    1, 1, 1, 1, 13, 12, 10, 96]  // vf the cap cae fw fh res0 res1

  const UPPER: seq<nat> := [
    29, 29, 20, 7, 4, 1, 3, 2,  // eba0 eba1 ilo npb pfs alu albm id
    7, 14, 3, 3, 3, 3, 5, 5,  // th sly wid0 wid1 wid2 wid3 off0 off1
    5, 5, 1, 1, 1, 9, 96]  // off2 off3 sxys cre dec_sel2 res2 res3

  /** Bit-fields are allocated from the least significant bit up, without padding. */
  function Lo(widths: seq<nat>, k: nat): nat
    requires k <= |widths|
  {
    if k == 0 then 0 else Lo(widths, k - 1) + widths[k - 1]
  }

  const BPP := Field(107, 3)
  const FW := Field(125, 13)
  const FH := Field(138, 12)
  const EBA0 := Field(256, 29)
  const EBA1 := Field(285, 29)
  const ILO := Field(314, 20)
  const NPB := Field(334, 7)
  const PFS := Field(341, 4)
  const SLY := Field(358, 14)
  const WID0 := Field(372, 3)
  const WID1 := Field(375, 3)
  const WID2 := Field(378, 3)
  const WID3 := Field(381, 3)
  const OFF0 := Field(384, 5)
  const OFF1 := Field(389, 5)
  const OFF2 := Field(394, 5)
  const OFF3 := Field(399, 5)

  /** Member number 'k' of a part of the struct that starts at bit 'start'. */
  predicate Member(f: Field, start: nat, widths: seq<nat>, k: nat) {
    k < |widths| && f == Field(start + Lo(widths, k), widths[k])
  }

  /** The constants above are where the struct puts its members, and it fills 512 bits. */
  lemma MiddleIsDeclared()
    ensures Lo(HEAD, |HEAD|) == 96
    ensures 96 + Lo(MIDDLE, |MIDDLE|) == 256
    ensures Member(BPP, 96, MIDDLE, 5) && Member(FW, 96, MIDDLE, 17) && Member(FH, 96, MIDDLE, 18)
  {
    assert Lo(HEAD, 3) == 32 && Lo(HEAD, 6) == 46 && Lo(HEAD, 9) == 79;
    assert Lo(MIDDLE, 1) == 1 && Lo(MIDDLE, 2) == 2 && Lo(MIDDLE, 3) == 9;
    assert Lo(MIDDLE, 4) == 10 && Lo(MIDDLE, 5) == 11 && Lo(MIDDLE, 6) == 14;
    assert Lo(MIDDLE, 7) == 16 && Lo(MIDDLE, 8) == 17 && Lo(MIDDLE, 9) == 18;
    assert Lo(MIDDLE, 10) == 21 && Lo(MIDDLE, 11) == 23 && Lo(MIDDLE, 12) == 24;
    assert Lo(MIDDLE, 13) == 25 && Lo(MIDDLE, 14) == 26 && Lo(MIDDLE, 15) == 27;
    assert Lo(MIDDLE, 16) == 28 && Lo(MIDDLE, 17) == 29 && Lo(MIDDLE, 18) == 42;
    assert Lo(MIDDLE, 19) == 54 && Lo(MIDDLE, 20) == 64 && Lo(MIDDLE, 21) == 160;
  }

  lemma UpperIsDeclared()
    ensures 256 + Lo(UPPER, |UPPER|) == 512
    ensures Member(EBA0, 256, UPPER, 0) && Member(EBA1, 256, UPPER, 1) && Member(ILO, 256, UPPER, 2)
    ensures Member(NPB, 256, UPPER, 3) && Member(PFS, 256, UPPER, 4) && Member(SLY, 256, UPPER, 9)
    ensures Member(WID0, 256, UPPER, 10) && Member(WID1, 256, UPPER, 11)
    ensures Member(WID2, 256, UPPER, 12) && Member(WID3, 256, UPPER, 13)
    ensures Member(OFF0, 256, UPPER, 14) && Member(OFF1, 256, UPPER, 15)
    ensures Member(OFF2, 256, UPPER, 16) && Member(OFF3, 256, UPPER, 17)
  {
    assert Lo(UPPER, 1) == 29 && Lo(UPPER, 2) == 58 && Lo(UPPER, 3) == 78;
    assert Lo(UPPER, 4) == 85 && Lo(UPPER, 5) == 89 && Lo(UPPER, 6) == 90;
    assert Lo(UPPER, 7) == 93 && Lo(UPPER, 8) == 95 && Lo(UPPER, 9) == 102;
    assert Lo(UPPER, 10) == 116 && Lo(UPPER, 11) == 119 && Lo(UPPER, 12) == 122;
    assert Lo(UPPER, 13) == 125 && Lo(UPPER, 14) == 128 && Lo(UPPER, 15) == 133;
    assert Lo(UPPER, 16) == 138 && Lo(UPPER, 17) == 143 && Lo(UPPER, 18) == 148;
    assert Lo(UPPER, 19) == 149 && Lo(UPPER, 20) == 150 && Lo(UPPER, 21) == 151;
    assert Lo(UPPER, 22) == 160 && Lo(UPPER, 23) == 256;
  }

  // ---- descriptors as numbers ----

  datatype Assignment = Assignment(field: Field, value: nat)

  function SetField(desc: nat, f: Field, v: nat): nat {
    Set(desc, f.lo, f.width, v)
  }

  function GetField(desc: nat, f: Field): nat {
    Get(desc, f.lo, f.width)
  }

  /** Member assignments, first to last. */
  function Apply(desc: nat, todo: seq<Assignment>): nat
    decreases todo
  {
    if todo == [] then desc
    else Apply(SetField(desc, todo[0].field, todo[0].value), todo[1..])
  }

  datatype Geometry = Geometry(width: nat, height: nat, stride: nat)

  /** The assignments of '_init_dma_channel' before, at and after the buffer addresses. */
  function SizeFields(g: Geometry): seq<Assignment> {
    [Assignment(FW, (g.width - 1) % U32), Assignment(FH, (g.height - 1) % U32),
     Assignment(SLY, (g.stride - 1) % U32)]
  }

  function AddressFields(phys: Uint32): seq<Assignment> {
    [Assignment(EBA0, High(phys, 3)), Assignment(EBA1, High(phys, 3))]
  }

  const FORMAT: seq<Assignment> :=
    [Assignment(BPP, 0), Assignment(PFS, 7), Assignment(NPB, 15),
     Assignment(WID0, 7), Assignment(OFF0, 8), Assignment(WID1, 7), Assignment(OFF1, 16),
     Assignment(WID2, 7), Assignment(OFF2, 24), Assignment(WID3, 7), Assignment(OFF3, 0)]

  function Descriptor(g: Geometry, phys: Uint32): nat {
    Apply(Apply(Apply(0, SizeFields(g)), AddressFields(phys)), FORMAT)
  }

  // ---- descriptors as sixteen words ----

  type Words16 = w: seq<Uint32> | |w| == 16 witness seq(16, _ => 0)

  function WordOf(desc: nat, j: nat): Uint32 {
    Pow2At32();
    LowFits(High(desc, 32 * j), 32);
    Get(desc, 32 * j, 32)
  }

  /** The words that 'memcpy' stores for a descriptor. */
  function ToWords(desc: nat): Words16 {
    seq(16, j requires 0 <= j < 16 => WordOf(desc, j))
  }

  /** C's 'x << n' on 32-bit operands. */
  function Shl(x: Uint32, n: nat): Uint32 {
    Pow2At32();
    LowFits(Concat(x, n, 0), 32);
    Low(Concat(x, n, 0), 32)
  }

  /** '(((phys_base >> 3) & 0b111) << 29) | (phys_base >> 3)' */
  function OverlayWord8(phys: Uint32): nat {
    HighIsSmaller(phys, 3);
    LowFits(High(phys, 3), 3);
    assert Pow2(3) == 8;
    Or(Shl(Low(High(phys, 3), 3), 29), High(phys, 3))
  }

  /** 'phys_base >> 6' */
  function OverlayWord9(phys: Uint32): nat {
    High(phys, 6)
  }

  lemma {:induction false} HighIsSmaller(w: nat, n: nat)
    ensures High(w, n) <= w
  {
    if n > 0 {
      HighIsSmaller(w / 2, n - 1);
    }
  }

  lemma WordsFit(phys: Uint32)
    ensures OverlayWord8(phys) < U32 && OverlayWord9(phys) < U32
  {
    HighIsSmaller(phys, 6);
    forall i: nat
      ensures Bit(OverlayWord8(phys), i) == Bit(Low(OverlayWord8(phys), 32), i)
    {
      BitOfLow(OverlayWord8(phys), 32, i);
      BitOfWord8(phys, i);
      PhysBits(phys, i + 3);
    }
    SameBits(OverlayWord8(phys), Low(OverlayWord8(phys), 32));
    LowFits(OverlayWord8(phys), 32);
    Pow2At32();
  }

  lemma PhysBits(phys: Uint32, i: nat)
    ensures i >= 32 ==> !Bit(phys, i)
  {
    Pow2At32();
    LowFits(phys, 32);
    BitOfLow(phys, 32, i);
  }

  /** Bits of the two patched words in terms of the address. */
  lemma BitOfWord8(phys: Uint32, i: nat)
    ensures Bit(OverlayWord8(phys), i)
         == if i < 29 then Bit(phys, i + 3) else i < 32 && Bit(phys, i - 29 + 3)
  {
    var p := High(phys, 3);
    assert Low(p, 3) < 8 by {
      LowFits(p, 3);
      assert Pow2(3) == 8;
    }
    BitOfOr(Shl(Low(p, 3), 29), p, i);
    BitOfHigh(phys, 3, i);
    BitOfLow(Concat(Low(p, 3), 29, 0), 32, i);
    BitOfConcat(Low(p, 3), 29, 0, i);
    BitOfZero(i);
    PhysBits(phys, i + 3);
    if i >= 29 {
      BitOfLow(p, 3, i - 29);
      BitOfHigh(phys, 3, i - 29);
    }
  }

  lemma BitOfWord9(phys: Uint32, i: nat)
    ensures Bit(OverlayWord9(phys), i) == Bit(phys, i + 6)
    ensures Bit(OverlayWord9(phys), i) ==> i < 26
  {
    BitOfHigh(phys, 6, i);
    PhysBits(phys, i + 6);
  }

  /** The number that sixteen words in memory stand for. */
  function FromWords(w: seq<Uint32>): nat {
    if w == [] then 0 else Concat(FromWords(w[1..]), 32, w[0])
  }

  lemma {:induction false} BitOfWords(w: seq<Uint32>, i: nat)
    ensures Bit(FromWords(w), i) == (i / 32 < |w| && Bit(w[i / 32], i % 32))
  {
    if w == [] {
      BitOfZero(i);
    } else {
      BitOfConcat(FromWords(w[1..]), 32, w[0], i);
      if i >= 32 {
        BitOfWords(w[1..], i - 32);
        assert (i - 32) / 32 == i / 32 - 1 && (i - 32) % 32 == i % 32;
      }
    }
  }

  /** Sixteen words are determined by the number they stand for. */
  lemma WordsAreDetermined(v: Words16, w: Words16)
    requires forall i: nat :: i < 512 ==> Bit(FromWords(v), i) == Bit(FromWords(w), i)
    ensures v == w
  {
    forall j: nat | j < 16
      ensures v[j] == w[j]
    {
      forall i: nat
        ensures Bit(v[j], i) == Bit(w[j], i)
      {
        if i < 32 {
          assert (32 * j + i) / 32 == j && (32 * j + i) % 32 == i;
          BitOfWords(v, 32 * j + i);
          BitOfWords(w, 32 * j + i);
        } else {
          PhysBits(v[j], i);
          PhysBits(w[j], i);
        }
      }
      SameBits(v[j], w[j]);
    }
  }

  lemma BitOfStored(desc: nat, i: nat)
    requires i < 512
    ensures Bit(FromWords(ToWords(desc)), i) == Bit(desc, i)
  {
    BitOfWords(ToWords(desc), i);
    BitOfGet(desc, 32 * (i / 32), 32, i % 32);
  }

  // ---- the overlay's patch ----

  function Patch(w: Words16, phys: Uint32): Words16 {
    WordsFit(phys);
    w[8 := OverlayWord8(phys)][9 := OverlayWord9(phys)]
  }

  /** The patch by bits: both addresses hold phys/8, and the low six bits of the interlace
      offset, which share word 9 with the second address, become zero. */
  lemma BitOfPatch(w: Words16, phys: Uint32, i: nat)
    requires i < 512
    ensures Bit(FromWords(Patch(w, phys)), i)
         == if 256 <= i < 285 then Bit(phys, i - 256 + 3)
            else if 285 <= i < 314 then Bit(phys, i - 285 + 3)
            else if 314 <= i < 320 then false
            else Bit(FromWords(w), i)
  {
    BitOfWords(Patch(w, phys), i);
    BitOfWords(w, i);
    if 256 <= i < 288 {
      BitOfWord8(phys, i - 256);
    } else if 288 <= i < 320 {
      BitOfWord9(phys, i - 288);
    }
  }

  /** On any descriptor, the patch is the assignment of the two address members followed by
      clearing six bits of the interlace offset; no other bit moves. */
  lemma PatchIsMemberAssignment(w: Words16, phys: Uint32)
    ensures FromWords(Patch(w, phys))
         == Set(Apply(FromWords(w), AddressFields(phys)), ILO.lo, 6, 0)
  {
    var d := FromWords(w);
    var d1 := SetField(d, EBA0, High(phys, 3));
    var d2 := SetField(d1, EBA1, High(phys, 3));
    ApplyTwo(d, AddressFields(phys));
    forall i: nat
      ensures Bit(FromWords(Patch(w, phys)), i) == Bit(Set(d2, 314, 6, 0), i)
    {
      BitOfSet(d, 256, 29, High(phys, 3), i);
      BitOfSet(d1, 285, 29, High(phys, 3), i);
      BitOfSet(d2, 314, 6, 0, i);
      if i < 512 {
        BitOfPatch(w, phys, i);
        if 256 <= i < 285 {
          BitOfHigh(phys, 3, i - 256);
        } else if 285 <= i < 314 {
          BitOfHigh(phys, 3, i - 285);
        } else if 314 <= i < 320 {
          BitOfZero(i - 314);
        }
      } else {
        BitOfWords(Patch(w, phys), i);
        BitOfWords(w, i);
      }
    }
    SameBits(FromWords(Patch(w, phys)), Set(d2, 314, 6, 0));
  }

  lemma ApplyTwo(d: nat, todo: seq<Assignment>)
    requires |todo| == 2
    ensures Apply(d, todo) == SetField(SetField(d, todo[0].field, todo[0].value), todo[1].field, todo[1].value)
  {
    ApplySnoc(d, todo, 0);
    ApplySnoc(d, todo, 1);
    assert todo[..2] == todo;
  }

  /** The assignment number 'k' comes after the first 'k'. */
  lemma {:induction false} ApplySnoc(d: nat, todo: seq<Assignment>, k: nat)
    requires k < |todo|
    ensures Apply(d, todo[..k + 1]) == SetField(Apply(d, todo[..k]), todo[k].field, todo[k].value)
    decreases k
  {
    if k == 0 {
      assert todo[..1][1..] == [] && todo[..0] == [];
    } else {
      assert todo[..k + 1][1..] == todo[1..][..k] && todo[..k][1..] == todo[1..][..k - 1];
      ApplySnoc(SetField(d, todo[0].field, todo[0].value), todo[1..], k - 1);
    }
  }

  /** The members after the patch. */
  lemma PatchedMembers(w: Words16, phys: Uint32)
    ensures var d, d' := FromWords(w), FromWords(Patch(w, phys));
            && GetField(d', EBA0) == High(phys, 3) && GetField(d', EBA1) == High(phys, 3)
            && (forall f: Field :: f.lo + f.width <= EBA0.lo || ILO.lo + ILO.width <= f.lo ==>
                  GetField(d', f) == GetField(d, f))
            && (GetField(d', ILO) == GetField(d, ILO) <==> GetField(d, ILO) % 64 == 0)
  {
    var d, d' := FromWords(w), FromWords(Patch(w, phys));
    var d1 := SetField(d, EBA0, High(phys, 3));
    var d2 := SetField(d1, EBA1, High(phys, 3));
    ApplyTwo(d, AddressFields(phys));
    PatchIsMemberAssignment(w, phys);
    assert d' == Set(d2, 314, 6, 0);
    assert High(phys, 3) < Pow2(29) by {
      Pow2At32();
      HighFits(phys, 3, 29);
    }
    LowFits(High(phys, 3), 29);
    GetSet(d, 256, 29, High(phys, 3));
    GetSetOther(d1, 285, 29, High(phys, 3), 256, 29);
    GetSetOther(d2, 314, 6, 0, 256, 29);
    GetSet(d1, 285, 29, High(phys, 3));
    GetSetOther(d2, 314, 6, 0, 285, 29);
    forall f: Field | f.lo + f.width <= EBA0.lo || ILO.lo + ILO.width <= f.lo
      ensures GetField(d', f) == GetField(d, f)
    {
      GetSetOther(d, 256, 29, High(phys, 3), f.lo, f.width);
      GetSetOther(d1, 285, 29, High(phys, 3), f.lo, f.width);
      GetSetOther(d2, 314, 6, 0, f.lo, f.width);
    }
    GetSetOther(d, 256, 29, High(phys, 3), 314, 20);
    GetSetOther(d1, 285, 29, High(phys, 3), 314, 20);
    ClearingLowBits(d2);
  }

  /** Clearing the low six bits of the interlace offset keeps it exactly if they were 0. */
  lemma ClearingLowBits(d: nat)
    ensures Get(Set(d, 314, 6, 0), 314, 20) == Get(d, 314, 20) <==> Get(d, 314, 20) % 64 == 0
  {
    var x, y := Get(d, 314, 20), Get(Set(d, 314, 6, 0), 314, 20);
    forall i: nat
      ensures Bit(y, i) == (i >= 6 && Bit(x, i))
    {
      BitOfGet(Set(d, 314, 6, 0), 314, 20, i);
      BitOfGet(d, 314, 20, i);
      BitOfSet(d, 314, 6, 0, 314 + i);
      BitOfZero(i);
    }
    assert Pow2(6) == 64;
    LowIsMod(x, 6);
    if x % 64 == 0 {
      forall i: nat
        ensures Bit(x, i) == Bit(y, i)
      {
        BitOfLow(x, 6, i);
        BitOfZero(i);
      }
      SameBits(x, y);
    } else if x == y {
      forall i: nat
        ensures Bit(Low(x, 6), i) == Bit(0, i)
      {
        BitOfLow(x, 6, i);
        BitOfZero(i);
      }
      SameBits(Low(x, 6), 0);
      assert false;
    }
  }

  // ---- hand packing against struct packing ----

  predicate Covers(a: Assignment, i: nat) {
    a.field.lo <= i < a.field.lo + a.field.width
  }

  /** A bit that no assignment covers keeps its value. */
  lemma {:induction false} ApplyMisses(d: nat, todo: seq<Assignment>, i: nat)
    requires forall k :: 0 <= k < |todo| ==> !Covers(todo[k], i)
    ensures Bit(Apply(d, todo), i) == Bit(d, i)
    decreases todo
  {
    if todo != [] {
      assert !Covers(todo[0], i);
      BitOfSet(d, todo[0].field.lo, todo[0].field.width, todo[0].value, i);
      ApplyMisses(SetField(d, todo[0].field, todo[0].value), todo[1..], i);
    }
  }

  /** Assignments treat a bit alike in two descriptors that agree on it. */
  lemma {:induction false} ApplyAgrees(d: nat, d': nat, todo: seq<Assignment>, i: nat)
    requires Bit(d, i) == Bit(d', i)
    ensures Bit(Apply(d, todo), i) == Bit(Apply(d', todo), i)
    decreases todo
  {
    if todo != [] {
      var f, v := todo[0].field, todo[0].value;
      BitOfSet(d, f.lo, f.width, v, i);
      BitOfSet(d', f.lo, f.width, v, i);
      ApplyAgrees(SetField(d, f, v), SetField(d', f, v), todo[1..], i);
    }
  }

  /** A descriptor's bits: addresses, the unused interlace offset, and bits that do not
      depend on the address. */
  lemma BitOfDescriptor(g: Geometry, phys: Uint32, i: nat)
    ensures Bit(Descriptor(g, phys), i)
         == if 256 <= i < 285 then Bit(phys, i - 256 + 3)
            else if 285 <= i < 314 then Bit(phys, i - 285 + 3)
            else if 314 <= i < 334 then false
            else Bit(Descriptor(g, 0), i)
  {
    var d := Apply(0, SizeFields(g));
    var e, e0 := Apply(d, AddressFields(phys)), Apply(d, AddressFields(0));
    if 256 <= i < 314 {
      ApplyMisses(e, FORMAT, i);
      ApplyTwo(d, AddressFields(phys));
      var d1 := SetField(d, EBA0, High(phys, 3));
      BitOfSet(d, 256, 29, High(phys, 3), i);
      BitOfSet(d1, 285, 29, High(phys, 3), i);
      BitOfHigh(phys, 3, if i < 285 then i - 256 else i - 285);
    } else {
      ApplyMisses(d, AddressFields(phys), i);
      ApplyMisses(d, AddressFields(0), i);
      ApplyAgrees(e, e0, FORMAT, i);
      if 314 <= i < 334 {
        ApplyMisses(e, FORMAT, i);
        ApplyMisses(0, SizeFields(g), i);
        BitOfZero(i);
      }
    }
  }

  /** The struct is cleared first: all bits outside the sixteen assigned members are zero. */
  lemma UnassignedBitsAreZero(g: Geometry, phys: Uint32, i: nat)
    requires i < 107 || 110 <= i < 125 || 150 <= i < 256 || 314 <= i < 334 || 345 <= i < 358 || 404 <= i
    ensures !Bit(Descriptor(g, phys), i)
  {
    var a := Apply(0, SizeFields(g));
    var b := Apply(a, AddressFields(phys));
    ApplyMisses(0, SizeFields(g), i);
    ApplyMisses(a, AddressFields(phys), i);
    ApplyMisses(b, FORMAT, i);
    BitOfZero(i);
    hide Apply, Bit;
  }

  predicate Separate(f: Field, f': Field) {
    f.lo + f.width <= f'.lo || f'.lo + f'.width <= f.lo
  }

  lemma {:induction false} ApplyKeeps(d: nat, todo: seq<Assignment>, f: Field)
    requires forall a <- todo :: Separate(f, a.field)
    ensures GetField(Apply(d, todo), f) == GetField(d, f)
    decreases todo
  {
    if todo != [] {
      GetSetOther(d, todo[0].field.lo, todo[0].field.width, todo[0].value, f.lo, f.width);
      ApplyKeeps(SetField(d, todo[0].field, todo[0].value), todo[1..], f);
    }
  }

  lemma {:induction false} ApplyHits(d: nat, todo: seq<Assignment>, k: nat)
    requires k < |todo|
    requires forall j :: k < j < |todo| ==> Separate(todo[k].field, todo[j].field)
    ensures GetField(Apply(d, todo), todo[k].field) == Low(todo[k].value, todo[k].field.width)
    decreases todo
  {
    var f, v := todo[0].field, todo[0].value;
    if k == 0 {
      GetSet(d, f.lo, f.width, v);
      ApplyKeeps(SetField(d, f, v), todo[1..], f);
    } else {
      ApplyHits(SetField(d, f, v), todo[1..], k - 1);
    }
  }

  /** The sizes in a descriptor are stored minus one, truncated to their members. */
  lemma DescriptorHoldsSizes(g: Geometry, phys: Uint32)
    ensures var d := Descriptor(g, phys);
            && GetField(d, FW) == (g.width - 1) % 0x2000
            && GetField(d, FH) == (g.height - 1) % 0x1000
            && GetField(d, SLY) == (g.stride - 1) % 0x4000
  {
    hide SetField, GetField, High, Low, Pow2, Apply;
    var a := Apply(0, SizeFields(g));
    var b := Apply(a, AddressFields(phys));
    ApplyHits(0, SizeFields(g), 0);
    ApplyHits(0, SizeFields(g), 1);
    ApplyHits(0, SizeFields(g), 2);
    forall f | f in {FW, FH, SLY}
      ensures GetField(Descriptor(g, phys), f) == GetField(a, f)
    {
      ApplyKeeps(a, AddressFields(phys), f);
      ApplyKeeps(b, FORMAT, f);
    }
    SizeField(g.width, 13);
    SizeField(g.height, 12);
    SizeField(g.stride, 14);
  }

  /** They read back exactly if they fit: zero never does. */
  lemma SizesReadBackIff(g: Geometry, phys: Uint32)
    ensures var d := Descriptor(g, phys);
            && (GetField(d, FW) + 1 == g.width <==> 1 <= g.width <= 0x2000)
            && (GetField(d, FH) + 1 == g.height <==> 1 <= g.height <= 0x1000)
            && (GetField(d, SLY) + 1 == g.stride <==> 1 <= g.stride <= 0x4000)
  {
    DescriptorHoldsSizes(g, phys);
    hide Descriptor, GetField;
  }

  /** The addresses in a descriptor count units of eight bytes; nothing is interlaced. */
  lemma DescriptorHoldsAddress(g: Geometry, phys: Uint32)
    ensures var d := Descriptor(g, phys);
            GetField(d, EBA0) == phys / 8 && GetField(d, EBA1) == phys / 8 && GetField(d, ILO) == 0
  {
    hide SetField, GetField, High, Low, Pow2, Apply;
    var a := Apply(0, SizeFields(g));
    var b := Apply(a, AddressFields(phys));
    ApplyHits(a, AddressFields(phys), 0);
    ApplyHits(a, AddressFields(phys), 1);
    ApplyKeeps(0, SizeFields(g), ILO);
    ApplyKeeps(a, AddressFields(phys), ILO);
    FormatKeepsAddress(b);
    FieldsOfZero(ILO);
    AddressFits(phys);
  }

  lemma FormatKeepsAddress(d: nat)
    ensures forall f | f in {EBA0, EBA1, ILO} :: GetField(Apply(d, FORMAT), f) == GetField(d, f)
  {
    hide SetField, GetField, Apply;
    forall f | f in {EBA0, EBA1, ILO}
      ensures GetField(Apply(d, FORMAT), f) == GetField(d, f)
    {
      ApplyKeeps(d, FORMAT, f);
    }
  }

  lemma AddressFits(phys: Uint32)
    ensures Low(High(phys, 3), 29) == phys / 8
  {
    HighIsDiv(phys, 3);
    Pow2At32();
    HighFits(phys, 3, 29);
    LowFits(High(phys, 3), 29);
    assert Pow2(3) == 8;
  }

  lemma FieldsOfZero(f: Field)
    ensures GetField(0, f) == 0
  {
    HighIsSmaller(0, f.lo);
    LowFits(0, f.width);
  }

  lemma SizePowers()
    ensures Pow2(12) == 0x1000 && Pow2(13) == 0x2000 && Pow2(14) == 0x4000
  {
    assert Pow2(6) == 64 && Pow2(7) == 128;
    Pow2Add(6, 6);
    Pow2Add(6, 7);
    Pow2Add(7, 7);
  }

  lemma SizeField(size: nat, n: nat)
    requires 12 <= n <= 14
    ensures Low((size - 1) % U32, n)
         == (size - 1) % (if n == 12 then 0x1000 else if n == 13 then 0x2000 else 0x4000)
  {
    SizePowers();
    LowIsMod((size - 1) % U32, n);
    hide Low, Pow2;
    if n == 12 {
      ModOfMod(size - 1, 0x1000, 0x10_0000, U32);
    } else if n == 13 {
      ModOfMod(size - 1, 0x2000, 0x8_0000, U32);
    } else {
      ModOfMod(size - 1, 0x4000, 0x4_0000, U32);
    }
  }

  /** The pixel format that the descriptor selects: 32 bits per pixel, bursts of sixteen
      pixels, and four components of eight bits. */
  lemma DescriptorHoldsFormat(g: Geometry, phys: Uint32)
    ensures var d := Descriptor(g, phys);
            && GetField(d, BPP) == 0 && GetField(d, PFS) == 7 && GetField(d, NPB) == 15
            && GetField(d, WID0) == 7 && GetField(d, WID1) == 7
            && GetField(d, WID2) == 7 && GetField(d, WID3) == 7
            && GetField(d, OFF0) == 8 && GetField(d, OFF1) == 16
            && GetField(d, OFF2) == 24 && GetField(d, OFF3) == 0
  {
    var b := Apply(Apply(0, SizeFields(g)), AddressFields(phys));
    assert Pow2(3) == 8 && Pow2(4) == 16 && Pow2(5) == 32 && Pow2(7) == 128;
    forall k: nat | k < |FORMAT|
      ensures GetField(Descriptor(g, phys), FORMAT[k].field) == FORMAT[k].value
    {
      ApplyHits(b, FORMAT, k);
      LowFits(FORMAT[k].value, FORMAT[k].field.width);
    }
    assert FORMAT[0].field == BPP && FORMAT[1].field == PFS && FORMAT[2].field == NPB;
    assert FORMAT[3].field == WID0 && FORMAT[4].field == OFF0 && FORMAT[5].field == WID1;
    assert FORMAT[6].field == OFF1 && FORMAT[7].field == WID2 && FORMAT[8].field == OFF2;
    assert FORMAT[9].field == WID3 && FORMAT[10].field == OFF3;
  }

  /** Patching the words of an initialised descriptor with a new address yields the words
      that a full initialisation with that address would have stored. */
  lemma HandPackingIsStructPacking(g: Geometry, before: Uint32, phys: Uint32)
    ensures Patch(ToWords(Descriptor(g, before)), phys) == ToWords(Descriptor(g, phys))
  {
    var w := ToWords(Descriptor(g, before));
    forall i: nat | i < 512
      ensures Bit(FromWords(Patch(w, phys)), i) == Bit(FromWords(ToWords(Descriptor(g, phys))), i)
    {
      BitOfPatch(w, phys, i);
      BitOfStored(Descriptor(g, before), i);
      BitOfStored(Descriptor(g, phys), i);
      BitOfDescriptor(g, before, i);
      BitOfDescriptor(g, phys, i);
    }
    WordsAreDetermined(Patch(w, phys), ToWords(Descriptor(g, phys)));
  }

  lemma SizesInOrder(d: nat, g: Geometry)
    ensures Apply(d, SizeFields(g))
         == SetField(SetField(SetField(d, FW, (g.width - 1) % U32), FH, (g.height - 1) % U32),
                     SLY, (g.stride - 1) % U32)
  {
    hide SetField;
    var todo := SizeFields(g);
    ApplySnoc(d, todo, 0);
    ApplySnoc(d, todo, 1);
    ApplySnoc(d, todo, 2);
    assert todo[..3] == todo && todo[..0] == [];
  }

  lemma FormatInOrder(d: nat)
    ensures var a := SetField(SetField(SetField(d, BPP, 0), PFS, 7), NPB, 15);
            var b := SetField(SetField(SetField(SetField(a, WID0, 7), OFF0, 8), WID1, 7), OFF1, 16);
            Apply(d, FORMAT)
              == SetField(SetField(SetField(SetField(b, WID2, 7), OFF2, 24), WID3, 7), OFF3, 0)
  {
    hide SetField;
    ApplySnoc(d, FORMAT, 0);
    ApplySnoc(d, FORMAT, 1);
    ApplySnoc(d, FORMAT, 2);
    ApplySnoc(d, FORMAT, 3);
    ApplySnoc(d, FORMAT, 4);
    ApplySnoc(d, FORMAT, 5);
    ApplySnoc(d, FORMAT, 6);
    ApplySnoc(d, FORMAT, 7);
    ApplySnoc(d, FORMAT, 8);
    ApplySnoc(d, FORMAT, 9);
    ApplySnoc(d, FORMAT, 10);
    assert FORMAT[..11] == FORMAT && FORMAT[..0] == [];
  }

  /** The two patched words in arithmetic: the low three bits of the second address above the
      first address, and the rest of the second address. */
  lemma WordsAreArithmetic(phys: Uint32)
    ensures OverlayWord8(phys) == phys / 8 % 8 * 0x2000_0000 + phys / 8
    ensures OverlayWord9(phys) == phys / 64
  {
    var p := High(phys, 3);
    forall i: nat
      ensures Bit(OverlayWord8(phys), i) == Bit(Concat(Low(p, 3), 29, p), i)
    {
      BitOfWord8(phys, i);
      BitOfConcat(Low(p, 3), 29, p, i);
      BitOfHigh(phys, 3, i);
      if i >= 29 {
        BitOfLow(p, 3, i - 29);
        BitOfHigh(phys, 3, i - 29);
      }
    }
    SameBits(OverlayWord8(phys), Concat(Low(p, 3), 29, p));
    ConcatIsSum(Low(p, 3), 29, p);
    AddressFits(phys);
    HighIsDiv(phys, 3);
    HighIsDiv(phys, 6);
    LowIsMod(p, 3);
    assert Pow2(3) == 8 && Pow2(6) == 64;
    assert Pow2(29) == 0x2000_0000 by {
      Powers();
      Pow2Add(24, 5);
    }
    hide High, Low, Concat, Pow2, Bit;
  }

  /** 'CHAN_DP_PRIMARY_AUXI' */
  const AUXI: nat := 27

  class Ipu {
    /** The channel parameter memory, sixteen words for each channel. */
    const cpmem: array<Uint32>

    ghost predicate Valid()
    {
      cpmem.Length % 16 == 0 && cpmem.Length > 16 * AUXI
    }

    constructor (cpmem: array<Uint32>)
      requires cpmem.Length % 16 == 0 && cpmem.Length > 16 * AUXI
      ensures Valid() && this.cpmem == cpmem
    {
      this.cpmem := cpmem;
    }

    ghost function Channel(c: nat): Words16
      requires 16 * c + 16 <= cpmem.Length
      reads cpmem
    {
      cpmem[16 * c..16 * c + 16]
    }

    /** '_init_dma_channel' */
    method InitDmaChannel(c: nat, g: Geometry, phys: Uint32)
      requires Valid() && 16 * c + 16 <= cpmem.Length
      modifies cpmem
      ensures Channel(c) == ToWords(Descriptor(g, phys))
      ensures forall j :: 0 <= j < 16 ==> cpmem[16 * c + j] == Get(Descriptor(g, phys), 32 * j, 32)
      ensures forall k :: 0 <= k < cpmem.Length && k / 16 != c ==> cpmem[k] == old(cpmem[k])
    {
      var desc: nat := 0;
      SizesInOrder(desc, g);
      desc := SetField(desc, FW, (g.width - 1) % U32);
      desc := SetField(desc, FH, (g.height - 1) % U32);
      desc := SetField(desc, SLY, (g.stride - 1) % U32);
      ApplyTwo(desc, AddressFields(phys));
      desc := SetField(desc, EBA0, High(phys, 3));
      desc := SetField(desc, EBA1, High(phys, 3));
      FormatInOrder(desc);
      desc := SetField(desc, BPP, 0);
      desc := SetField(desc, PFS, 7);
      desc := SetField(desc, NPB, 15);
      desc := SetField(desc, WID0, 7);
      desc := SetField(desc, OFF0, 8);
      desc := SetField(desc, WID1, 7);
      desc := SetField(desc, OFF1, 16);
      desc := SetField(desc, WID2, 7);
      desc := SetField(desc, OFF2, 24);
      desc := SetField(desc, WID3, 7);
      desc := SetField(desc, OFF3, 0);
      assert desc == Descriptor(g, phys);
      hide Descriptor, SetField;
      for j := 0 to 16
        invariant forall i :: 0 <= i < j ==> cpmem[16 * c + i] == WordOf(desc, i)
        invariant forall k :: 0 <= k < cpmem.Length && k / 16 != c ==> cpmem[k] == old(cpmem[k])
      {
        cpmem[16 * c + j] := WordOf(desc, j);
      }
    }

    /** 'overlay', as far as the descriptor goes. */
    method Overlay(phys: Uint32)
      requires Valid()
      modifies cpmem
      ensures Channel(27) == Patch(old(Channel(27)), phys)
      ensures forall k :: 0 <= k < cpmem.Length && k != 440 && k != 441 ==> cpmem[k] == old(cpmem[k])
      ensures cpmem[440] == phys / 8 % 8 * 0x2000_0000 + phys / 8
      ensures cpmem[441] == phys / 64
    {
      WordsFit(phys);
      WordsAreArithmetic(phys);
      hide OverlayWord8, OverlayWord9;
      cpmem[16 * AUXI + 8] := OverlayWord8(phys);
      cpmem[16 * AUXI + 9] := OverlayWord9(phys);
    }
  }
}
