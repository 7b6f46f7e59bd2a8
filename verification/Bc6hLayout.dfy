/** The bit layout of BC6H block headers (ARB_texture_compression_bptc), one per mode. */
module Bc6hLayout {
  import opened Bits

  /** A channel of one of the four endpoints, or the partition number. */
  datatype Target = R0 | G0 | B0 | R1 | G1 | B1 | R2 | G2 | B2 | R3 | G3 | B3 | Shape

  function Index(t: Target): (k: nat)
    ensures k < 13
  {
    match t
    case R0 => 0 case G0 => 1 case B0 => 2 case R1 => 3 case G1 => 4 case B1 => 5 case R2 => 6 case G2 => 7 case B2 => 8 case R3 => 9 case G3 => 10 case B3 => 11 case Shape => 12
  }

  /** Header fields in the order of their bits; a reversed field has its first bit on top. */
  datatype Layout = Field(target: Target, lo: nat, hi: nat, reversed: bool, rest: Layout) | End

  /** Bits in the header. */
  function HeaderBits(l: Layout): int {
    if l == End then 0 else l.hi - l.lo + 1 + HeaderBits(l.rest)
  }

  /** Channels have at most 16 bits and partition numbers 5. */
  predicate Fits(l: Layout) {
    l == End || (l.lo <= l.hi < Width(l.target) && (l.reversed ==> l.lo < l.hi) && Fits(l.rest))
  }

  function Width(t: Target): nat {
    if t == Shape then 5 else 16
  }

  /** The powers of two that a field writes, every target with sixteen bits of its own. */
  function Mask(t: Target, lo: nat, hi: nat): int {
    Scaled(t, Power(hi + 1) - Power(lo))
  }

  function Scaled(t: Target, x: int): int {
    match t
    case R0 => x
    case G0 => 0x1_0000 * x
    case B0 => 0x1_0000_0000 * x
    case R1 => 0x1_0000_0000_0000 * x
    case G1 => 0x1_0000_0000_0000_0000 * x
    case B1 => 0x1_0000_0000_0000_0000_0000 * x
    case R2 => 0x1_0000_0000_0000_0000_0000_0000 * x
    case G2 => 0x1_0000_0000_0000_0000_0000_0000_0000 * x
    case B2 => 0x1_0000_0000_0000_0000_0000_0000_0000_0000 * x
    case R3 => 0x1_0000_0000_0000_0000_0000_0000_0000_0000_0000 * x
    case G3 => 0x1_0000_0000_0000_0000_0000_0000_0000_0000_0000_0000 * x
    case B3 => 0x1_0000_0000_0000_0000_0000_0000_0000_0000_0000_0000_0000 * x
    case Shape => 0x1_0000_0000_0000_0000_0000_0000_0000_0000_0000_0000_0000_0000 * x
  }

  function Power(n: nat): nat {
    match n
    case 0 => 1 case 1 => 2 case 2 => 4 case 3 => 8 case 4 => 16 case 5 => 32 case 6 => 64 case 7 => 128 case 8 => 256
    case 9 => 512 case 10 => 1024 case 11 => 2048 case 12 => 4096 case 13 => 8192 case 14 => 16384 case 15 => 32768
    case _ => 65536
  }

  function Sum(l: Layout): int {
    if l == End then 0 else Mask(l.target, l.lo, l.hi) + Sum(l.rest)
  }

  /** Where bit i of a variable comes from, counted from the first bit of the field that writes it. */
  function Source(lo: nat, hi: nat, reversed: bool, i: nat): int {
    if reversed then hi - i else i - lo
  }

  /** The header bit that bit b of target t comes from: that of the first field to write it. */
  function Where(l: Layout, t: Target, b: nat): int {
    if l == End then 0
    else if l.target == t && l.lo <= b <= l.hi then Source(l.lo, l.hi, l.reversed, b)
    else l.hi - l.lo + 1 + Where(l.rest, t, b)
  }

  /** A field stored in order; MSB >= LSB. */
  function EP(t: Target, msb: nat, lsb: nat, rest: Layout): (l: Layout)
    requires lsb <= msb < Width(t) && Fits(rest)
    ensures Fits(l) && HeaderBits(l) == HeaderBits(rest) + (msb - lsb + 1)
    ensures Sum(l) == Sum(rest) + Mask(t, lsb, msb)
    ensures forall u: Target, b: nat :: Where(l, u, b) == if u == t && lsb <= b <= msb then b - lsb else msb - lsb + 1 + Where(rest, u, b)
  {
    Field(t, lsb, msb, false, rest)
  }

  /** A field stored in reverse; MSB < LSB. */
  function Rev(t: Target, msb: nat, lsb: nat, rest: Layout): (l: Layout)
    requires msb < lsb < Width(t) && Fits(rest)
    ensures Fits(l) && HeaderBits(l) == HeaderBits(rest) + (lsb - msb + 1)
    ensures Sum(l) == Sum(rest) + Mask(t, msb, lsb)
    ensures forall u: Target, b: nat :: Where(l, u, b) == if u == t && msb <= b <= lsb then lsb - b else lsb - msb + 1 + Where(rest, u, b)
  {
    Field(t, msb, lsb, true, rest)
  }

  datatype ModeDesc = ModeDesc(number: nat, hasDelta: bool, partitionCount: nat, endpointBits: nat, deltaR: nat, deltaG: nat, deltaB: nat)

  function Modes(i: nat): ModeDesc {
    match i
    case 0 => ModeDesc(0, true, 2, 10, 5, 5, 5)
    case 1 => ModeDesc(1, true, 2, 7, 6, 6, 6)
    case 2 => ModeDesc(2, true, 2, 11, 5, 4, 4)
    case 3 => ModeDesc(3, false, 1, 10, 0, 0, 0)
    case 4 => ModeDesc(6, true, 2, 11, 4, 5, 4)
    case 5 => ModeDesc(7, true, 1, 11, 9, 9, 9)
    case 6 => ModeDesc(10, true, 2, 11, 4, 4, 5)
    case 7 => ModeDesc(11, true, 1, 12, 8, 8, 8)
    case 8 => ModeDesc(14, true, 2, 9, 5, 5, 5)
    case 9 => ModeDesc(15, true, 1, 16, 4, 4, 4)
    case 10 => ModeDesc(18, true, 2, 8, 6, 5, 5)
    case 11 => ModeDesc(22, true, 2, 8, 5, 6, 5)
    case 12 => ModeDesc(26, true, 2, 8, 5, 5, 6)
    case _ => ModeDesc(30, false, 2, 6, 0, 0, 0)
  }

  /** Bits of a target: deltas are narrower than the base endpoint. */
  function Size(m: ModeDesc, t: Target): nat {
    if t == Shape then (if m.partitionCount == 2 then 5 else 0)
    else if Index(t) / 3 >= 2 * m.partitionCount then 0
    else if Index(t) < 3 || !m.hasDelta then m.endpointBits
    else if Index(t) % 3 == 0 then m.deltaR
    else if Index(t) % 3 == 1 then m.deltaG
    else m.deltaB
  }

  function Fields(i: nat): Layout {
    match i
    case 0 => Fields0() case 1 => Fields1() case 2 => Fields2() case 3 => Fields3() case 4 => Fields4() case 5 => Fields5() case 6 => Fields6() case 7 => Fields7() case 8 => Fields8() case 9 => Fields9() case 10 => Fields10() case 11 => Fields11() case 12 => Fields12() case _ => Fields13()
  }

  function Fields0(): (l: Layout)
    ensures HeaderBits(l) == 80 && Fits(l)
    ensures Sum(l) == 0x001f_001f_001f_001f_001f_001f_001f_001f_001f_001f_03ff_03ff_03ff
  {
    hide HeaderBits, Fits, Sum, EP, Rev, Where, From41_0;
    EP(G2, 4, 4, EP(B2, 4, 4, EP(B3, 4, 4, EP(R0, 9, 0, EP(G0, 9, 0, EP(B0, 9, 0, EP(R1, 4, 0, EP(G3, 4, 4, From41_0()))))))))
  }

  function From41_0(): (l: Layout)
    ensures HeaderBits(l) == 41 && Fits(l)
    ensures Sum(l) == 0x001f_000f_000f_001f_000f_000f_001f_001f_001f_0000_0000_0000_0000
  {
    hide HeaderBits, Fits, Sum, EP, Rev, Where;
    EP(G2, 3, 0, EP(G1, 4, 0, EP(B3, 0, 0, EP(G3, 3, 0, EP(B1, 4, 0, EP(B3, 1, 1, EP(B2, 3, 0, EP(R2, 4, 0,
    EP(B3, 2, 2, EP(R3, 4, 0, EP(B3, 3, 3, EP(Shape, 4, 0, Nothing()))))))))))))
  }

  function Fields1(): (l: Layout)
    ensures HeaderBits(l) == 80 && Fits(l)
    ensures Sum(l) == 0x001f_003f_003f_003f_003f_003f_003f_003f_003f_003f_007f_007f_007f
  {
    hide HeaderBits, Fits, Sum, EP, Rev, Where, From25_1;
    EP(G2, 5, 5, EP(G3, 5, 4, EP(R0, 6, 0, EP(B3, 1, 0, EP(B2, 4, 4, EP(G0, 6, 0, EP(B2, 5, 5, EP(B3, 2, 2,
    EP(G2, 4, 4, From25_1())))))))))
  }

  function From25_1(): (l: Layout)
    ensures HeaderBits(l) == 57 && Fits(l)
    ensures Sum(l) == 0x001f_0038_000f_003f_000f_000f_003f_003f_003f_003f_007f_0000_0000
  {
    hide HeaderBits, Fits, Sum, EP, Rev, Where, From41_1;
    EP(B0, 6, 0, EP(B3, 3, 3, EP(B3, 5, 5, EP(B3, 4, 4, EP(R1, 5, 0, From41_1())))))
  }

  function From41_1(): (l: Layout)
    ensures HeaderBits(l) == 41 && Fits(l)
    ensures Sum(l) == 0x001f_0000_000f_003f_000f_000f_003f_003f_003f_0000_0000_0000_0000
  {
    hide HeaderBits, Fits, Sum, EP, Rev, Where;
    EP(G2, 3, 0, EP(G1, 5, 0, EP(G3, 3, 0, EP(B1, 5, 0, EP(B2, 3, 0, EP(R2, 5, 0, EP(R3, 5, 0, EP(Shape, 4, 0, Nothing()))))))))
  }

  function Fields2(): (l: Layout)
    ensures HeaderBits(l) == 77 && Fits(l)
    ensures Sum(l) == 0x001f_000f_000f_001f_000f_000f_001f_000f_000f_001f_07ff_07ff_07ff
  {
    hide HeaderBits, Fits, Sum, EP, Rev, Where, From41_2;
    EP(R0, 9, 0, EP(G0, 9, 0, EP(B0, 9, 0, EP(R1, 4, 0, EP(R0, 10, 10, From41_2())))))
  }

  function From41_2(): (l: Layout)
    ensures HeaderBits(l) == 41 && Fits(l)
    ensures Sum(l) == 0x001f_000f_000f_001f_000f_000f_001f_000f_000f_0000_0400_0400_0000
  {
    hide HeaderBits, Fits, Sum, EP, Rev, Where, From61_2;
    EP(G2, 3, 0, EP(G1, 3, 0, EP(G0, 10, 10, EP(B3, 0, 0, EP(G3, 3, 0, EP(B1, 3, 0, EP(B0, 10, 10, EP(B3, 1, 1, From61_2()))))))))
  }

  function From61_2(): (l: Layout)
    ensures HeaderBits(l) == 21 && Fits(l)
    ensures Sum(l) == 0x001f_000c_0000_001f_000f_0000_001f_0000_0000_0000_0000_0000_0000
  {
    hide HeaderBits, Fits, Sum, EP, Rev, Where;
    EP(B2, 3, 0, EP(R2, 4, 0, EP(B3, 2, 2, EP(R3, 4, 0, EP(B3, 3, 3, EP(Shape, 4, 0, Nothing()))))))
  }

  function Fields3(): (l: Layout)
    ensures HeaderBits(l) == 60 && Fits(l)
    ensures Sum(l) == 0x03ff_03ff_03ff_03ff_03ff_03ff
  {
    hide HeaderBits, Fits, Sum, EP, Rev, Where;
    EP(R0, 9, 0, EP(G0, 9, 0, EP(B0, 9, 0, EP(R1, 9, 0, EP(G1, 9, 0, EP(B1, 9, 0, Nothing()))))))
  }

  function Fields4(): (l: Layout)
    ensures HeaderBits(l) == 77 && Fits(l)
    ensures Sum(l) == 0x001f_000f_001f_000f_000f_001f_000f_000f_001f_000f_07ff_07ff_07ff
  {
    hide HeaderBits, Fits, Sum, EP, Rev, Where, From41_4;
    EP(R0, 9, 0, EP(G0, 9, 0, EP(B0, 9, 0, EP(R1, 3, 0, EP(R0, 10, 10, EP(G3, 4, 4, From41_4()))))))
  }

  function From41_4(): (l: Layout)
    ensures HeaderBits(l) == 41 && Fits(l)
    ensures Sum(l) == 0x001f_000f_000f_000f_000f_001f_000f_000f_001f_0000_0400_0400_0000
  {
    hide HeaderBits, Fits, Sum, EP, Rev, Where, From61_4;
    EP(G2, 3, 0, EP(G1, 4, 0, EP(G0, 10, 10, EP(G3, 3, 0, EP(B1, 3, 0, EP(B0, 10, 10, EP(B3, 1, 1, From61_4())))))))
  }

  function From61_4(): (l: Layout)
    ensures HeaderBits(l) == 21 && Fits(l)
    ensures Sum(l) == 0x001f_000d_0000_000f_000f_0010_000f_0000_0000_0000_0000_0000_0000
  {
    hide HeaderBits, Fits, Sum, EP, Rev, Where;
    EP(B2, 3, 0, EP(R2, 3, 0, EP(B3, 0, 0, EP(B3, 2, 2, EP(R3, 3, 0, EP(G2, 4, 4, EP(B3, 3, 3, EP(Shape, 4, 0, Nothing()))))))))
  }

  function Fields5(): (l: Layout)
    ensures HeaderBits(l) == 60 && Fits(l)
    ensures Sum(l) == 0x01ff_01ff_01ff_07ff_07ff_07ff
  {
    hide HeaderBits, Fits, Sum, EP, Rev, Where;
    EP(R0, 9, 0, EP(G0, 9, 0, EP(B0, 9, 0, EP(R1, 8, 0, EP(R0, 10, 10, EP(G1, 8, 0, EP(G0, 10, 10, EP(B1, 8, 0,
    EP(B0, 10, 10, Nothing())))))))))
  }

  function Fields6(): (l: Layout)
    ensures HeaderBits(l) == 77 && Fits(l)
    ensures Sum(l) == 0x001f_001f_000f_000f_001f_000f_000f_001f_000f_000f_07ff_07ff_07ff
  {
    hide HeaderBits, Fits, Sum, EP, Rev, Where, From41_6;
    EP(R0, 9, 0, EP(G0, 9, 0, EP(B0, 9, 0, EP(R1, 3, 0, EP(R0, 10, 10, EP(B2, 4, 4, From41_6()))))))
  }

  function From41_6(): (l: Layout)
    ensures HeaderBits(l) == 41 && Fits(l)
    ensures Sum(l) == 0x001f_001f_000f_000f_000f_000f_000f_001f_000f_0000_0400_0400_0000
  {
    hide HeaderBits, Fits, Sum, EP, Rev, Where, From61_6;
    EP(G2, 3, 0, EP(G1, 3, 0, EP(G0, 10, 10, EP(B3, 0, 0, EP(G3, 3, 0, EP(B1, 4, 0, EP(B0, 10, 10, From61_6())))))))
  }

  function From61_6(): (l: Layout)
    ensures HeaderBits(l) == 21 && Fits(l)
    ensures Sum(l) == 0x001f_001e_0000_000f_000f_0000_000f_0000_0000_0000_0000_0000_0000
  {
    hide HeaderBits, Fits, Sum, EP, Rev, Where;
    EP(B2, 3, 0, EP(R2, 3, 0, EP(B3, 1, 1, EP(B3, 2, 2, EP(R3, 3, 0, EP(B3, 4, 4, EP(B3, 3, 3, EP(Shape, 4, 0, Nothing()))))))))
  }

  function Fields7(): (l: Layout)
    ensures HeaderBits(l) == 60 && Fits(l)
    ensures Sum(l) == 0x00ff_00ff_00ff_0fff_0fff_0fff
  {
    hide HeaderBits, Fits, Sum, EP, Rev, Where;
    EP(R0, 9, 0, EP(G0, 9, 0, EP(B0, 9, 0, EP(R1, 7, 0, Rev(R0, 10, 11, EP(G1, 7, 0, Rev(G0, 10, 11, EP(B1, 7, 0,
    Rev(B0, 10, 11, Nothing())))))))))
  }

  function Fields8(): (l: Layout)
    ensures HeaderBits(l) == 77 && Fits(l)
    ensures Sum(l) == 0x001f_001f_001f_001f_001f_001f_001f_001f_001f_001f_01ff_01ff_01ff
  {
    hide HeaderBits, Fits, Sum, EP, Rev, Where, From41_8;
    EP(R0, 8, 0, EP(B2, 4, 4, EP(G0, 8, 0, EP(G2, 4, 4, EP(B0, 8, 0, EP(B3, 4, 4, EP(R1, 4, 0, EP(G3, 4, 4, From41_8()))))))))
  }

  function From41_8(): (l: Layout)
    ensures HeaderBits(l) == 41 && Fits(l)
    ensures Sum(l) == 0x001f_000f_000f_001f_000f_000f_001f_001f_001f_0000_0000_0000_0000
  {
    hide HeaderBits, Fits, Sum, EP, Rev, Where;
    EP(G2, 3, 0, EP(G1, 4, 0, EP(B3, 0, 0, EP(G3, 3, 0, EP(B1, 4, 0, EP(B3, 1, 1, EP(B2, 3, 0, EP(R2, 4, 0,
    EP(B3, 2, 2, EP(R3, 4, 0, EP(B3, 3, 3, EP(Shape, 4, 0, Nothing()))))))))))))
  }

  function Fields9(): (l: Layout)
    ensures HeaderBits(l) == 60 && Fits(l)
    ensures Sum(l) == 0x000f_000f_000f_ffff_ffff_ffff
  {
    hide HeaderBits, Fits, Sum, EP, Rev, Where;
    EP(R0, 9, 0, EP(G0, 9, 0, EP(B0, 9, 0, EP(R1, 3, 0, Rev(R0, 10, 15, EP(G1, 3, 0, Rev(G0, 10, 15, EP(B1, 3, 0,
    Rev(B0, 10, 15, Nothing())))))))))
  }

  function Fields10(): (l: Layout)
    ensures HeaderBits(l) == 77 && Fits(l)
    ensures Sum(l) == 0x001f_001f_001f_003f_001f_001f_003f_001f_001f_003f_00ff_00ff_00ff
  {
    hide HeaderBits, Fits, Sum, EP, Rev, Where, From41_10;
    EP(R0, 7, 0, EP(G3, 4, 4, EP(B2, 4, 4, EP(G0, 7, 0, EP(B3, 2, 2, EP(G2, 4, 4, EP(B0, 7, 0, EP(B3, 3, 3,
    EP(B3, 4, 4, EP(R1, 5, 0, From41_10()))))))))))
  }

  function From41_10(): (l: Layout)
    ensures HeaderBits(l) == 41 && Fits(l)
    ensures Sum(l) == 0x001f_0003_000f_003f_000f_000f_003f_001f_001f_0000_0000_0000_0000
  {
    hide HeaderBits, Fits, Sum, EP, Rev, Where;
    EP(G2, 3, 0, EP(G1, 4, 0, EP(B3, 0, 0, EP(G3, 3, 0, EP(B1, 4, 0, EP(B3, 1, 1, EP(B2, 3, 0, EP(R2, 5, 0,
    EP(R3, 5, 0, EP(Shape, 4, 0, Nothing()))))))))))
  }

  function Fields11(): (l: Layout)
    ensures HeaderBits(l) == 77 && Fits(l)
    ensures Sum(l) == 0x001f_001f_003f_001f_001f_003f_001f_001f_003f_001f_00ff_00ff_00ff
  {
    hide HeaderBits, Fits, Sum, EP, Rev, Where, From41_11;
    EP(R0, 7, 0, EP(B3, 0, 0, EP(B2, 4, 4, EP(G0, 7, 0, EP(G2, 5, 5, EP(G2, 4, 4, EP(B0, 7, 0, EP(G3, 5, 5,
    EP(B3, 4, 4, EP(R1, 4, 0, EP(G3, 4, 4, From41_11())))))))))))
  }

  function From41_11(): (l: Layout)
    ensures HeaderBits(l) == 41 && Fits(l)
    ensures Sum(l) == 0x001f_000e_000f_001f_000f_000f_001f_001f_003f_0000_0000_0000_0000
  {
    hide HeaderBits, Fits, Sum, EP, Rev, Where;
    EP(G2, 3, 0, EP(G1, 5, 0, EP(G3, 3, 0, EP(B1, 4, 0, EP(B3, 1, 1, EP(B2, 3, 0, EP(R2, 4, 0, EP(B3, 2, 2,
    EP(R3, 4, 0, EP(B3, 3, 3, EP(Shape, 4, 0, Nothing())))))))))))
  }

  function Fields12(): (l: Layout)
    ensures HeaderBits(l) == 77 && Fits(l)
    ensures Sum(l) == 0x001f_003f_001f_001f_003f_001f_001f_003f_001f_001f_00ff_00ff_00ff
  {
    hide HeaderBits, Fits, Sum, EP, Rev, Where, From41_12;
    EP(R0, 7, 0, EP(B3, 1, 1, EP(B2, 4, 4, EP(G0, 7, 0, EP(B2, 5, 5, EP(G2, 4, 4, EP(B0, 7, 0, EP(B3, 5, 5,
    EP(B3, 4, 4, EP(R1, 4, 0, EP(G3, 4, 4, From41_12())))))))))))
  }

  function From41_12(): (l: Layout)
    ensures HeaderBits(l) == 41 && Fits(l)
    ensures Sum(l) == 0x001f_000d_000f_001f_000f_000f_001f_003f_001f_0000_0000_0000_0000
  {
    hide HeaderBits, Fits, Sum, EP, Rev, Where;
    EP(G2, 3, 0, EP(G1, 4, 0, EP(B3, 0, 0, EP(G3, 3, 0, EP(B1, 5, 0, EP(B2, 3, 0, EP(R2, 4, 0, EP(B3, 2, 2,
    EP(R3, 4, 0, EP(B3, 3, 3, EP(Shape, 4, 0, Nothing())))))))))))
  }

  function Fields13(): (l: Layout)
    ensures HeaderBits(l) == 77 && Fits(l)
    ensures Sum(l) == 0x001f_003f_003f_003f_003f_003f_003f_003f_003f_003f_003f_003f_003f
  {
    hide HeaderBits, Fits, Sum, EP, Rev, Where, From25_13;
    EP(R0, 5, 0, EP(G3, 4, 4, EP(B3, 0, 0, EP(B3, 1, 1, EP(B2, 4, 4, EP(G0, 5, 0, EP(G2, 5, 5, EP(B2, 5, 5,
    EP(B3, 2, 2, EP(G2, 4, 4, From25_13()))))))))))
  }

  function From25_13(): (l: Layout)
    ensures HeaderBits(l) == 57 && Fits(l)
    ensures Sum(l) == 0x001f_0038_002f_003f_000f_000f_003f_003f_003f_003f_003f_0000_0000
  {
    hide HeaderBits, Fits, Sum, EP, Rev, Where, From41_13;
    EP(B0, 5, 0, EP(G3, 5, 5, EP(B3, 3, 3, EP(B3, 5, 5, EP(B3, 4, 4, EP(R1, 5, 0, From41_13()))))))
  }

  function From41_13(): (l: Layout)
    ensures HeaderBits(l) == 41 && Fits(l)
    ensures Sum(l) == 0x001f_0000_000f_003f_000f_000f_003f_003f_003f_0000_0000_0000_0000
  {
    hide HeaderBits, Fits, Sum, EP, Rev, Where;
    EP(G2, 3, 0, EP(G1, 5, 0, EP(G3, 3, 0, EP(B1, 5, 0, EP(B2, 3, 0, EP(R2, 5, 0, EP(R3, 5, 0, EP(Shape, 4, 0, Nothing()))))))))
  }

  function Nothing(): (l: Layout)
    ensures HeaderBits(l) == 0 && Fits(l) && Sum(l) == 0
  {
    End
  }

  // ----- every bit of every target is written exactly once

  /** Every bit of every target has a number. */
  function Slot(t: Target): nat {
    16 * Index(t)
  }

  const SLOTS: nat := 208

  /** How many fields write bit g. */
  function Covers(l: Layout, g: nat): nat {
    if l == End then 0
    else (if Slot(l.target) + l.lo <= g <= Slot(l.target) + l.hi then 1 else 0) + Covers(l.rest, g)
  }

  /** A count for each power of two: their sum and their number. */
  function Value(f: seq<nat>): nat {
    if f == [] then 0 else f[0] + 2 * Value(f[1..])
  }

  function Total(f: seq<nat>): nat {
    if f == [] then 0 else f[0] + Total(f[1..])
  }

  /** Binary notation uses the fewest powers of two, and is the only way to use that few. */
  lemma {:induction false} BinaryIsMinimal(f: seq<nat>, e: seq<nat>)
    requires |f| == |e| && Value(f) == Value(e) && forall i :: 0 <= i < |e| ==> e[i] <= 1
    ensures Total(f) >= Total(e)
    ensures Total(f) == Total(e) ==> f == e
    decreases |f|
  {
    if f != [] {
      assert f[0] % 2 == e[0];
      var carry := (f[0] - e[0]) / 2;
      if |f| == 1 {
        assert f[1..] == [] && e[1..] == [];
      } else {
        var rest := f[1..];
        var f' := rest[0 := rest[0] + carry];
        assert f'[1..] == rest[1..];
        assert Total(f') == Total(rest) + carry && Value(f') == Value(rest) + carry;
        BinaryIsMinimal(f', e[1..]);
        assert Total(f) == e[0] + carry + Total(f');
        if Total(f) == Total(e) {
          assert f' == rest;
          assert f == [f[0]] + rest && e == [e[0]] + e[1..];
        }
      }
    }
  }

  lemma {:induction false} SumsAdd(f: seq<nat>, a: seq<nat>, b: seq<nat>)
    requires |f| == |a| == |b| && forall i :: 0 <= i < |f| ==> f[i] == a[i] + b[i]
    ensures Value(f) == Value(a) + Value(b) && Total(f) == Total(a) + Total(b)
    decreases |f|
  {
    if f != [] {
      SumsAdd(f[1..], a[1..], b[1..]);
    }
  }

  /** Ones from position a up to but not including b. */
  function Ones(a: int, b: int, n: nat): seq<nat> {
    seq(n, i => if a <= i < b then 1 else 0)
  }

  lemma {:induction false} OnesSum(a: int, b: int, n: nat)
    requires a <= b <= n
    ensures Value(Ones(a, b, n)) == Pow2(if b < 0 then 0 else b) - Pow2(if a < 0 then 0 else a)
    ensures Total(Ones(a, b, n)) == (if b < 0 then 0 else b) - (if a < 0 then 0 else a)
    decreases n
  {
    if n > 0 {
      assert Ones(a, b, n)[1..] == Ones(a - 1, b - 1, n - 1);
      OnesSum(a - 1, b - 1, n - 1);
    }
  }

  function Counts(l: Layout): seq<nat> {
    seq(SLOTS, g requires 0 <= g => Covers(l, g))
  }

  lemma {:induction false} NoneCounted(n: nat)
    ensures Value(seq(n, _ => 0)) == 0 && Total(seq(n, _ => 0)) == 0
  {
    if n > 0 {
      assert seq(n, _ => 0)[1..] == seq(n - 1, _ => 0);
      NoneCounted(n - 1);
    }
  }

  lemma PowerIs(n: nat)
    requires n <= 16
    ensures Power(n) == Pow2(n)
  {
    assert Pow2(4) == 16;
    assert Pow2(8) == 256;
    assert Pow2(12) == 4096;
    assert Pow2(16) == 65536;
  }

  lemma {:induction false} Pow2Product(a: nat, b: nat)
    ensures Pow2(a) * Pow2(b) == Pow2(a + b)
  {
    hide Pow2;
    if a == 0 {
      ZeroPower();
    } else {
      Pow2Product(a - 1, b);
      Pow2Step(a - 1);
      Pow2Step(a - 1 + b);
      assert (2 * Pow2(a - 1)) * Pow2(b) == 2 * (Pow2(a - 1) * Pow2(b));
    }
  }

  /** 2^(16 k) */
  lemma {:induction false} BigPowers(k: nat)
    ensures Pow2(16 * (k + 1)) == 65536 * Pow2(16 * k)
  {
    Pow2Product(16, 16 * k);
    PowerIs(16);
  }

  lemma ScaledIs(t: Target, x: int)
    ensures Scaled(t, x) == Pow2(Slot(t)) * x
  {
    hide Pow2;
    LowPowers();
    HighPowers();
  }

  lemma LowPowers()
    ensures Pow2(0) == 1 && Pow2(16) == 0x1_0000 && Pow2(32) == 0x1_0000_0000 && Pow2(48) == 0x1_0000_0000_0000
    ensures Pow2(64) == 0x1_0000_0000_0000_0000 && Pow2(80) == 0x1_0000_0000_0000_0000_0000
    ensures Pow2(96) == 0x1_0000_0000_0000_0000_0000_0000
  {
    hide Pow2;
    ZeroPower();
    BigPowers(0);
    BigPowers(1);
    BigPowers(2);
    BigPowers(3);
    BigPowers(4);
    BigPowers(5);
  }

  lemma HighPowers()
    ensures Pow2(112) == 0x1_0000_0000_0000_0000_0000_0000_0000
    ensures Pow2(128) == 0x1_0000_0000_0000_0000_0000_0000_0000_0000
    ensures Pow2(144) == 0x1_0000_0000_0000_0000_0000_0000_0000_0000_0000
    ensures Pow2(160) == 0x1_0000_0000_0000_0000_0000_0000_0000_0000_0000_0000
    ensures Pow2(176) == 0x1_0000_0000_0000_0000_0000_0000_0000_0000_0000_0000_0000
    ensures Pow2(192) == 0x1_0000_0000_0000_0000_0000_0000_0000_0000_0000_0000_0000_0000
  {
    hide Pow2;
    LowPowers();
    BigPowers(6);
    BigPowers(7);
    BigPowers(8);
    BigPowers(9);
    BigPowers(10);
    BigPowers(11);
  }

  lemma ZeroPower()
    ensures Pow2(0) == 1
  {
  }

  lemma MaskIs(t: Target, lo: nat, hi: nat)
    requires lo <= hi < 16
    ensures Mask(t, lo, hi) == Pow2(Slot(t) + hi + 1) - Pow2(Slot(t) + lo)
  {
    hide Pow2, Power, Scaled, Slot;
    PowerIs(hi + 1);
    PowerIs(lo);
    ScaledIs(t, Pow2(hi + 1) - Pow2(lo));
    Pow2Product(Slot(t), hi + 1);
    Pow2Product(Slot(t), lo);
    assert Pow2(Slot(t)) * (Pow2(hi + 1) - Pow2(lo)) == Pow2(Slot(t)) * Pow2(hi + 1) - Pow2(Slot(t)) * Pow2(lo);
  }

  lemma {:induction false} CountsSum(l: Layout)
    requires Fits(l)
    ensures Value(Counts(l)) == Sum(l) && Total(Counts(l)) == HeaderBits(l)
  {
    hide Mask, Pow2;
    if l == End {
      NoneCounted(SLOTS);
      assert Counts(l) == seq(SLOTS, _ => 0);
    } else {
      CountsSum(l.rest);
      var a, b := Slot(l.target) + l.lo, Slot(l.target) + l.hi + 1;
      OnesSum(a, b, SLOTS);
      MaskIs(l.target, l.lo, l.hi);
      SumsAdd(Counts(l), Counts(l.rest), Ones(a, b, SLOTS));
    }
  }

  /** Each target in one piece. */
  function Put(t: Target, n: nat, rest: Layout): (l: Layout)
    requires n <= Width(t) && Fits(rest)
    ensures Fits(l) && HeaderBits(l) == HeaderBits(rest) + n && Sum(l) == Sum(rest) + Scaled(t, Power(n) - 1)
    ensures forall g: nat :: Covers(l, g) == Covers(rest, g) + if Slot(t) <= g < Slot(t) + n then 1 else 0
  {
    if n == 0 then rest else EP(t, n - 1, 0, rest)
  }

  function TargetAt(k: nat): Target
    requires k < 13
  {
    match k
    case 0 => R0 case 1 => G0 case 2 => B0 case 3 => R1 case 4 => G1 case 5 => B1 case 6 => R2 case 7 => G2 case 8 => B2 case 9 => R3 case 10 => G3 case 11 => B3 case _ => Shape
  }

  lemma TargetIndex(t: Target)
    ensures TargetAt(Index(t)) == t
  {
  }

  ghost predicate Narrow(m: ModeDesc) {
    m.endpointBits <= 16 && m.deltaR <= 16 && m.deltaG <= 16 && m.deltaB <= 16
  }

  /** Bit g belongs to a target that has that many bits. */
  predicate Wanted(m: ModeDesc, g: nat) {
    g < SLOTS && g % 16 < Size(m, TargetAt(g / 16))
  }

  /** The targets from number k on, each in one piece. */
  function Whole(m: ModeDesc, k: nat): (l: Layout)
    requires Narrow(m) && k <= 13
    ensures Fits(l)
    decreases 13 - k
  {
    if k == 13 then End
    else
      SizeFits(m, TargetAt(k));
      Put(TargetAt(k), Size(m, TargetAt(k)), Whole(m, k + 1))
  }

  lemma {:induction false} WholeCovers(m: ModeDesc, k: nat, g: nat)
    requires Narrow(m) && k <= 13
    ensures Covers(Whole(m, k), g) == if Wanted(m, g) && k <= g / 16 then 1 else 0
    decreases 13 - k
  {
    hide Put, Size, TargetAt, Fits, Slot, Covers, Width, Narrow;
    if k < 13 {
      WholeCovers(m, k + 1, g);
      SizeFits(m, TargetAt(k));
      SlotAt(k);
      InBlock(k, g, Size(m, TargetAt(k)));
    } else {
      NoneCovered(g);
    }
  }

  lemma NoneCovered(g: nat)
    ensures Covers(End, g) == 0
  {
  }

  lemma InBlock(k: nat, g: nat, n: nat)
    requires n <= 16
    ensures 16 * k <= g < 16 * k + n <==> g / 16 == k && g % 16 < n
  {
  }

  lemma WholeStep(m: ModeDesc, k: nat)
    requires Narrow(m) && k < 13
    ensures var t := TargetAt(k);
            && Sum(Whole(m, k)) == Sum(Whole(m, k + 1)) + Scaled(t, Power(Size(m, t)) - 1)
            && HeaderBits(Whole(m, k)) == HeaderBits(Whole(m, k + 1)) + Size(m, t)
  {
    hide Put, Size, TargetAt, Fits, Sum, HeaderBits, Scaled, Power;
    SizeFits(m, TargetAt(k));
  }

  function MaskSum(m: ModeDesc): int {
    Scaled(R0, Power(Size(m, R0)) - 1)
    + Scaled(G0, Power(Size(m, G0)) - 1)
    + Scaled(B0, Power(Size(m, B0)) - 1)
    + Scaled(R1, Power(Size(m, R1)) - 1)
    + Scaled(G1, Power(Size(m, G1)) - 1)
    + Scaled(B1, Power(Size(m, B1)) - 1)
    + MaskSumHigh(m)
  }

  function MaskSumHigh(m: ModeDesc): int {
    Scaled(R2, Power(Size(m, R2)) - 1)
    + Scaled(G2, Power(Size(m, G2)) - 1)
    + Scaled(B2, Power(Size(m, B2)) - 1)
    + Scaled(R3, Power(Size(m, R3)) - 1)
    + Scaled(G3, Power(Size(m, G3)) - 1)
    + Scaled(B3, Power(Size(m, B3)) - 1)
    + Scaled(Shape, Power(Size(m, Shape)) - 1)
  }

  function SizeSum(m: ModeDesc): int {
    Size(m, R0) + Size(m, G0) + Size(m, B0) + Size(m, R1) + Size(m, G1) + Size(m, B1) + SizeSumHigh(m)
  }

  function SizeSumHigh(m: ModeDesc): int {
    Size(m, R2) + Size(m, G2) + Size(m, B2) + Size(m, R3) + Size(m, G3) + Size(m, B3) + Size(m, Shape)
  }

  lemma WholeSum(m: ModeDesc)
    requires Narrow(m)
    ensures Sum(Whole(m, 0)) == MaskSum(m) && HeaderBits(Whole(m, 0)) == SizeSum(m)
  {
    hide Whole, Size, Sum, HeaderBits, Scaled, Power, Narrow, MaskSumHigh, SizeSumHigh;
    WholeStep(m, 0);
    WholeStep(m, 1);
    WholeStep(m, 2);
    WholeStep(m, 3);
    WholeStep(m, 4);
    WholeStep(m, 5);
    WholeSumHigh(m);
  }

  lemma WholeSumHigh(m: ModeDesc)
    requires Narrow(m)
    ensures Sum(Whole(m, 6)) == MaskSumHigh(m) && HeaderBits(Whole(m, 6)) == SizeSumHigh(m)
  {
    hide Whole, Size, Sum, HeaderBits, Scaled, Power, Narrow;
    WholeStep(m, 6);
    WholeStep(m, 7);
    WholeStep(m, 8);
    WholeStep(m, 9);
    WholeStep(m, 10);
    WholeStep(m, 11);
    WholeStep(m, 12);
    NoneWhole(m);
  }

  lemma NoneWhole(m: ModeDesc)
    requires Narrow(m)
    ensures Sum(Whole(m, 13)) == 0 && HeaderBits(Whole(m, 13)) == 0
  {
  }

  function Other(m: ModeDesc, delta: nat): nat {
    if m.hasDelta then delta else m.endpointBits
  }

  lemma SizesOf(m: ModeDesc)
    requires m.partitionCount == 1 || m.partitionCount == 2
    ensures Size(m, R0) == Size(m, G0) == Size(m, B0) == m.endpointBits
    ensures Size(m, R1) == Other(m, m.deltaR) && Size(m, G1) == Other(m, m.deltaG) && Size(m, B1) == Other(m, m.deltaB)
    ensures m.partitionCount == 2 ==> Size(m, R2) == Size(m, R3) == Other(m, m.deltaR) && Size(m, G2) == Size(m, G3) == Other(m, m.deltaG)
    ensures m.partitionCount == 2 ==> Size(m, B2) == Size(m, B3) == Other(m, m.deltaB) && Size(m, Shape) == 5
    ensures m.partitionCount == 1 ==> Size(m, R2) == Size(m, R3) == 0 && Size(m, G2) == Size(m, G3) == 0
    ensures m.partitionCount == 1 ==> Size(m, B2) == Size(m, B3) == 0 && Size(m, Shape) == 0
  {
  }

  function Ones1(m: ModeDesc, delta: nat): int {
    Power(Other(m, delta)) - 1
  }

  /** The masks, with the equal ones gathered. */
  lemma MaskForm(m: ModeDesc)
    requires m.partitionCount == 1 || m.partitionCount == 2
    ensures var e, r, g, b := Power(m.endpointBits) - 1, Ones1(m, m.deltaR), Ones1(m, m.deltaG), Ones1(m, m.deltaB);
            && (m.partitionCount == 1 ==>
                  MaskSum(m) == 0x0001_0001_0001 * e + 0x0001_0000_0000_0000 * r + 0x0001_0000_0000_0000_0000 * g + 0x0001_0000_0000_0000_0000_0000 * b
                  && SizeSum(m) == 3 * m.endpointBits + Other(m, m.deltaR) + Other(m, m.deltaG) + Other(m, m.deltaB))
            && (m.partitionCount == 2 ==>
                  MaskSum(m) == 0x0001_0001_0001 * e + 0x0001_0000_0000_0001_0000_0000_0001_0000_0000_0000 * r + 0x0001_0000_0000_0001_0000_0000_0001_0000_0000_0000_0000 * g + 0x0001_0000_0000_0001_0000_0000_0001_0000_0000_0000_0000_0000 * b + 0x001f_0000_0000_0000_0000_0000_0000_0000_0000_0000_0000_0000_0000
                  && SizeSum(m) == 3 * m.endpointBits + 3 * (Other(m, m.deltaR) + Other(m, m.deltaG) + Other(m, m.deltaB)) + 5)
  {
    hide Power, Size, Other;
    SizesOf(m);
    NoBits();
  }

  lemma NoBits()
    ensures Power(0) == 1 && Power(5) == 32
  {
  }

  lemma ModeSums(i: nat)
    requires i < 14
    ensures Narrow(Modes(i)) && Fits(Fields(i)) && Sum(Fields(i)) == MaskSum(Modes(i)) && HeaderBits(Fields(i)) == SizeSum(Modes(i))
  {
    hide Fields0, Fields1, Fields2, Fields3, Fields4, Fields5, Fields6, Fields7, Fields8, Fields9, Fields10, Fields11, Fields12, Fields13, Sum, HeaderBits, Fits, MaskSum, SizeSum, Size, Where;
    MaskForm(Modes(i));
    match i
    case 0 => case 1 => case 2 => case 3 => case 4 => case 5 => case 6 => case 7 => case 8 => case 9 => case 10 => case 11 => case 12 => case _ =>
  }

  /** The fields of a mode write every bit of every target exactly once, and no other bit. */
  lemma ExactlyOnce(i: nat, t: Target, b: nat)
    requires i < 14 && b < 16
    ensures Covers(Fields(i), Slot(t) + b) == if b < Size(Modes(i), t) then 1 else 0
  {
    hide Modes, Fields, Sum, HeaderBits, Fits, MaskSum, SizeSum, Whole, Covers, Size, Narrow, TargetAt;
    var m := Modes(i);
    ModeSums(i);
    WholeSum(m);
    var f, e := Counts(Fields(i)), Counts(Whole(m, 0));
    CountsSum(Fields(i));
    CountsSum(Whole(m, 0));
    forall g | 0 <= g < SLOTS
      ensures e[g] <= 1
    {
      WholeCovers(m, 0, g);
    }
    BinaryIsMinimal(f, e);
    var g := Slot(t) + b;
    TargetIndex(t);
    WholeCovers(m, 0, g);
    assert f[g] == e[g];
  }

  lemma SlotAt(k: nat)
    requires k < 13
    ensures Slot(TargetAt(k)) == 16 * k
  {
  }

  lemma SizeFits(m: ModeDesc, t: Target)
    requires Narrow(m)
    ensures Size(m, t) <= Width(t) <= 16
  {
  }
}
