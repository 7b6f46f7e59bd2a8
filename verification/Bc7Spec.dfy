/**
 * A BC7 texel as ARB_texture_compression_bptc describes it: the mode table by columns, fields as slices at
 * positions computed from it, partitions and anchors as digits, weights as rounded fractions. Nothing here
 * refers to how the decoder finds its fields; the two are shown to agree on every word.
 */
module Bc7Spec {
  import opened Arith
  import opened Bits
  import opened BptcTables
  import opened BptcMasks
  import opened Bc7

  // ----- the table of modes

  function Subsets(i: nat): nat { if i == 0 || i == 2 then 3 else if 4 <= i <= 6 then 1 else 2 }
  function PartitionBits(i: nat): nat { if i == 0 then 4 else if 4 <= i <= 6 then 0 else 6 }
  function RotationBits(i: nat): nat { if i == 4 || i == 5 then 2 else 0 }
  function SelectionBits(i: nat): nat { if i == 4 then 1 else 0 }
  function ColorBits(i: nat): nat { match i case 0 => 4 case 1 => 6 case 2 => 5 case 3 => 7 case 4 => 5 case 5 => 7 case 6 => 7 case _ => 5 }
  function AlphaBits(i: nat): nat { match i case 4 => 6 case 5 => 8 case 6 => 7 case 7 => 5 case _ => 0 }
  /** P-bits: one an endpoint, one a subset, or none. */
  predicate OwnPBit(i: nat) { i == 0 || i == 3 || i == 6 || i == 7 }
  predicate SharedPBit(i: nat) { i == 1 }
  function FirstBits(i: nat): nat { if i <= 1 then 3 else if i == 6 then 4 else 2 }
  function SecondBits(i: nat): nat { if i == 4 then 3 else if i == 5 then 2 else 0 }

  lemma Columns(i: nat)
    requires i < 8
    ensures var m := Modes(i);
            && m.IDX == i && m.NS == Subsets(i) && m.PB == PartitionBits(i) && m.RB == RotationBits(i) && m.ISB == SelectionBits(i)
            && m.CB == ColorBits(i) && m.AB == AlphaBits(i) && m.EPB == (if OwnPBit(i) then 1 else 0)
            && m.SPB == (if SharedPBit(i) then 1 else 0) && m.IB == FirstBits(i) && m.IB2 == SecondBits(i) && Legal(m)
  {
    assert Modes(i) == Modes(i);
    match i { case 0 => case 1 => case 2 => case 3 => case 4 => case 5 => case 6 => case _ => }
  }

  /** Zeros below the lowest one, at most n. */
  function TrailingZeros(word: nat, n: nat): (i: nat)
    ensures i <= n
    decreases n
  {
    if n == 0 || word % 2 == 1 then 0 else 1 + TrailingZeros(word / 2, n - 1)
  }

  // ----- where things are

  function HeaderBits(i: nat): nat { i + 1 + PartitionBits(i) + RotationBits(i) + SelectionBits(i) }

  /** Channel k (red, green, blue, alpha) of endpoint e. */
  function FieldAt(i: nat, k: nat, e: nat): nat {
    HeaderBits(i) + if k < 3 then (2 * Subsets(i) * k + e) * ColorBits(i) else 3 * (2 * Subsets(i)) * ColorBits(i) + AlphaBits(i) * e
  }

  function PBitsAt(i: nat): nat { HeaderBits(i) + 2 * Subsets(i) * (3 * ColorBits(i) + AlphaBits(i)) }

  function IndicesAt(i: nat): nat { PBitsAt(i) + if OwnPBit(i) then 2 * Subsets(i) else if SharedPBit(i) then 2 else 0 }

  // ----- endpoints

  /** n bits spread over a byte: they are on top, and repeated below. */
  function Spread(v: nat, n: nat): nat
    requires 4 <= n <= 8
  {
    Shl(v, 8 - n) + Shr(v, 2 * n - 8)
  }

  /** The field of a channel and its P-bit, if the mode has one. */
  function Extended(word: nat, i: nat, at: nat, n: nat, e: nat): nat {
    var v := Slice(word, at, n);
    if OwnPBit(i) then 2 * v + Slice(word, PBitsAt(i) + e, 1)
    else if SharedPBit(i) then 2 * v + Slice(word, PBitsAt(i) + e / 2, 1)
    else v
  }

  function PBits(i: nat): nat { if OwnPBit(i) || SharedPBit(i) then 1 else 0 }

  function ChannelOf(word: nat, i: nat, k: nat, e: nat): nat
    requires i < 8 && k < 4 && e < 2 * Subsets(i)
  {
    var n := if k < 3 then ColorBits(i) else AlphaBits(i);
    if n == 0 then 255 else Spread(Extended(word, i, FieldAt(i, k, e), n, e), n + PBits(i))
  }

  // ----- indices

  lemma SliceBound(word: nat, at: nat, n: nat)
    ensures Slice(word, at, n) < Pow2(n)
  {
    hide Low, Shr, Shl, Pow2;
    Split(Shr(word, at), n);
  }

  function SubsetOf(i: nat, p: nat, t: nat): (s: nat)
    requires i < 8 && p < 64 && t < 16
    ensures s < Subsets(i)
  {
    hide Low, Shr, Mask2, Mask3, PartitionTable2, PartitionTable3, AnchorTable2, AnchorTable3a, AnchorTable3b, Total2, Total3;
    TableSound2(p);
    TableSound3(p);
    Subset2Is(p, t);
    Subset3Is(p, t);
    if Subsets(i) == 1 then 0 else if Subsets(i) == 2 then Low(Shr(Mask2(p), t), 1) else Low(Shr(Mask3(p), t * 2), 2)
  }

  /** The anchor texel of subset s > 0. */
  function AnchorOf(i: nat, p: nat, s: nat): nat {
    Low(Shr(if Subsets(i) == 2 then Anchors2(p / 8) else if s == 1 then Anchors3a(p / 8) else Anchors3b(p / 8), p % 8 * 4), 4)
  }

  /** Anchor texels before texel t; texel 0 is the first. */
  function AnchorsAhead(i: nat, p: nat, t: nat): nat {
    (if t > 0 then 1 else 0) + (if Subsets(i) >= 2 && t > AnchorOf(i, p, 1) then 1 else 0)
    + (if Subsets(i) == 3 && t > AnchorOf(i, p, 2) then 1 else 0)
  }

  predicate Anchor(i: nat, p: nat, t: nat) {
    t == 0 || (Subsets(i) >= 2 && t == AnchorOf(i, p, 1)) || (Subsets(i) == 3 && t == AnchorOf(i, p, 2))
  }

  /** The index of texel t in the first or the second run; anchors have a bit less. */
  function IndexOf(word: nat, i: nat, p: nat, second: bool, t: nat): (r: nat)
    ensures r < Pow2(RunBits(i, second))
  {
    hide Low, Shr, Pow2, AnchorOf, IndicesAt;
    var bits := RunBits(i, second);
    var at := IndicesAt(i) + (if second then 16 * FirstBits(i) - Subsets(i) else 0) + bits * t - AnchorsAhead(i, p, t);
    var n := bits - if Anchor(i, p, t) then 1 else 0;
    if at >= 0 && n >= 0 then
      SliceBound(word, at, n);
      Pow2Monotone(n, bits);
      Slice(word, at, n)
    else 0
  }

  /** Bits of an index, but for the anchors. */
  function RunBits(i: nat, second: bool): nat { if second then SecondBits(i) else FirstBits(i) }

  // ----- colours

  /** The index as a fraction of the largest one, in 64ths, rounded. */
  function Fraction(bits: nat, index: nat): (w: nat)
    requires 2 <= bits <= 4 && index < Pow2(bits)
    ensures w <= 64
  {
    Pow2Values();
    var d := if bits == 2 then 3 else if bits == 3 then 7 else 15;
    (128 * index + d) / (2 * d)
  }

  function Mixed(a: nat, b: nat, w: nat): (r: nat)
    requires w <= 64
  {
    MulLe(0, 64 - w, a);
    MulLe(0, w, b);
    ((64 - w) * a + w * b + 32) / 64
  }

  function Exchanged(c: Color, rotation: nat): Color {
    match rotation
    case 1 => c.(a := c.b, b := c.a)
    case 2 => c.(a := c.g, g := c.a)
    case 3 => c.(a := c.r, r := c.a)
    case _ => c
  }

  /** Channel k of texel t, blended by the indices of one run. */
  function Blended(word: nat, i: nat, p: nat, k: nat, second: bool, t: nat): nat
    requires i < 8 && p < 64 && k < 4 && t < 16 && (second ==> SecondBits(i) > 0)
  {
    hide Mixed, IndexOf, ChannelOf, SubsetOf;
    var s := SubsetOf(i, p, t);
    Mixed(ChannelOf(word, i, k, 2 * s), ChannelOf(word, i, k, 2 * s + 1), Fraction(RunBits(i, second), IndexOf(word, i, p, second, t)))
  }

  /** Red of the block goes to b and blue to r; then alpha trades places as the rotation says. */
  function StandardTexel(word: nat, t: nat): Color
    requires t < 16
  {
    hide Blended, Low, Shr;
    var i := TrailingZeros(word, 8);
    if i == 8 then Color(0, 0, 0, 0)
    else
      HeaderSlices(word, i);
      var p := Slice(word, i + 1, PartitionBits(i));
      var rotation := Slice(word, i + 1 + PartitionBits(i), RotationBits(i));
      var selected := Slice(word, i + 1 + PartitionBits(i) + RotationBits(i), SelectionBits(i)) == 1;
      var other := SecondBits(i) > 0 && !selected;
      Exchanged(Color(Blended(word, i, p, 2, selected, t), Blended(word, i, p, 1, selected, t), Blended(word, i, p, 0, selected, t),
                      Blended(word, i, p, 3, other, t)), rotation)
  }

  lemma HeaderSlices(word: nat, i: nat)
    requires i < 8
    ensures Slice(word, i + 1, PartitionBits(i)) < 64
    ensures Slice(word, i + 1 + PartitionBits(i) + RotationBits(i), SelectionBits(i)) == 1 ==> SecondBits(i) > 0
  {
    hide Low, Shr, Pow2;
    SliceBound(word, i + 1, PartitionBits(i));
    Pow2Monotone(PartitionBits(i), 6);
    SliceBound(word, i + 1 + PartitionBits(i) + RotationBits(i), SelectionBits(i));
    SmallPowers();
  }

  lemma SmallPowers()
    ensures Pow2(0) == 1 && Pow2(6) == 64
  {
    assert Pow2(3) == 8;
  }

  // ----- the decoder agrees

  lemma {:induction false} ZerosAreUnary(word: nat, n: nat)
    ensures var i := TrailingZeros(word, n);
            if i < n then Low(word, i + 1) == Pow2(i) else Low(word, n) == 0
    decreases n
  {
    hide Pow2, Low;
    if n == 0 {
      LowNone(word);
    } else {
      LowNone(word / 2);
      LowUp(word, TrailingZeros(word / 2, n - 1));
      LowUp(word, n - 1);
      LowUp(word, 0);
      SmallPowers();
      Pow2Step(TrailingZeros(word / 2, n - 1));
      LowUp(word, TrailingZeros(word / 2, n - 1) + 1);
      ZerosAreUnary(word / 2, n - 1);
    }
  }

  lemma LowNone(x: nat)
    ensures Low(x, 0) == 0
  {
  }

  lemma LowUp(x: nat, n: nat)
    ensures Low(x, n + 1) == x % 2 + 2 * Low(x / 2, n)
  {
  }

  lemma ModeAgrees(low: nat, high: nat)
    ensures var i := TrailingZeros(Word(low, high), 8);
            if i == 8 then ModeOf(low).IDX < 0 else ModeOf(low) == Modes(i)
  {
    hide Low, Pow2, ModeOf, Modes;
    var word := Word(low, high);
    var i := TrailingZeros(word, 8);
    ZerosAreUnary(word, 8);
    if i < 8 {
      LowDropsHigh(low, high, i + 1, 63 - i);
      ModeIsUnary(low, i);
    } else {
      LowDropsHigh(low, high, 8, 56);
      Reserved(low);
    }
  }

  lemma Reserved(low: nat)
    requires Low(low, 8) == 0
    ensures ModeOf(low).IDX < 0
  {
    hide Low, Bit;
    LowZeroIff(low, 8);
    assert Bit(low, 0) == 0 && Bit(low, 1) == 0 && Bit(low, 2) == 0 && Bit(low, 3) == 0;
    assert Bit(low, 4) == 0 && Bit(low, 5) == 0 && Bit(low, 6) == 0 && Bit(low, 7) == 0;
  }

  /** The decoder's fields are where the standard has them. */
  lemma FieldsAgree(i: nat, k: nat, e: nat)
    requires i < 8 && k < 4 && e < 2 * Subsets(i)
    ensures var m := Modes(i);
            var bf := if k == 0 then m.Red(e) else if k == 1 then m.Green(e) else if k == 2 then m.Blue(e) else m.Alpha(e);
            && bf == Bitfield(FieldAt(i, k, e), if k < 3 then ColorBits(i) else AlphaBits(i))
            && m.EndpointPBit(e) == Bitfield(PBitsAt(i) + (if OwnPBit(i) then e else 0), if OwnPBit(i) then 1 else 0)
            && (SharedPBit(i) ==> m.SharedPBit0() == Bitfield(PBitsAt(i), 1) && m.SharedPBit1() == Bitfield(PBitsAt(i) + 1, 1))
  {
    hide Mode.Red, Mode.Green, Mode.Blue, Mode.Alpha, Mode.EndpointPBit, Mode.SharedPBit0, Mode.SharedPBit1, Modes, Legal,
         Subsets, ColorBits, AlphaBits, OwnPBit, SharedPBit, PartitionBits, RotationBits, SelectionBits;
    var m, n := Modes(i), 2 * Subsets(i);
    Columns(i);
    OnePBit(m);
    ColorsTile(m, e);
    AlphasTile(m, e);
    PBitsTile(m);
    Distribute(n * k, e, m.CB);
    Multiples(n, k, m.CB);
    PBitSpace(n, m.CB, m.AB);
  }

  lemma Distribute(a: nat, b: nat, c: nat)
    ensures (a + b) * c == a * c + c * b
  {
  }

  lemma Multiples(n: nat, k: nat, c: nat)
    ensures k == 0 ==> n * k * c == 0
    ensures k == 1 ==> n * k * c == c * n
    ensures k == 2 ==> n * k * c == 2 * (c * n)
    ensures 3 * n * c == 3 * (c * n)
  {
  }

  lemma PBitSpace(n: nat, c: nat, a: nat)
    ensures n * (3 * c + a) == 3 * (c * n) + a * n
  {
  }

  lemma ExtendedBound(word: nat, i: nat, at: nat, n: nat, e: nat)
    ensures Extended(word, i, at, n, e) < Pow2(n + PBits(i))
  {
    hide Slice, Pow2, PBitsAt, OwnPBit, SharedPBit;
    SliceBound(word, at, n);
    SliceBound(word, PBitsAt(i) + e, 1);
    SliceBound(word, PBitsAt(i) + e / 2, 1);
    Pow2Step(n);
    Pow2Values();
  }

  /** What the decoder makes of a channel, case by case. */
  lemma ChannelCases(low: nat, high: nat, m: Mode, bf: Bitfield, e: nat)
    requires Legal(m) && e < m.NumColors() && bf.Inside() && bf.count + m.SPB + m.EPB <= 8 && m.SPB + m.EPB <= 1
    ensures m.EndpointPBit(e).Inside() && m.SharedPBit0().Inside() && m.SharedPBit1().Inside()
    ensures var v := Get(low, high, bf);
            && (m.EPB > 0 ==> Channel(low, high, m, bf, e) == Widen(WithPBit(v, Get(low, high, m.EndpointPBit(e))), bf.count + 1))
            && (m.SPB > 0 ==> Channel(low, high, m, bf, e)
                              == Widen(WithPBit(v, Get(low, high, if e < 2 then m.SharedPBit0() else m.SharedPBit1())), bf.count + 1))
            && (m.SPB + m.EPB == 0 ==> Channel(low, high, m, bf, e) == Widen(v, bf.count))
  {
    hide Get, Widen, WithPBit, Legal, Mode.EndpointPBit, Mode.SharedPBit0, Mode.SharedPBit1, Mode.NumColors, Mode.Partition,
         Mode.Rotation, Mode.IndexSelection, Mode.Alpha;
    HeaderInside(m);
    AlphasInside(m, e);
  }

  lemma PBitColumns(i: nat, e: nat)
    requires i < 8 && e < 2 * Subsets(i)
    ensures var m := Modes(i);
            && Legal(m) && e < m.NumColors() && m.SPB + m.EPB == PBits(i)
            && (m.EPB > 0 <==> OwnPBit(i)) && (m.SPB > 0 <==> SharedPBit(i)) && (SharedPBit(i) ==> e < 4)
  {
    hide Modes, Legal;
    Columns(i);
  }

  lemma PBitAgrees(low: nat, high: nat, bf: Bitfield, at: nat)
    requires bf == Bitfield(at, 1) && bf.Inside() && Word64(low) && Word64(high)
    ensures Get(low, high, bf) == Slice(Word(low, high), at, 1) <= 1
  {
    hide Get, Slice, Word, Word64;
    GetIsSlice(low, high, bf);
    BitSlice(Word(low, high), at);
  }

  lemma ChannelAgrees(low: nat, high: nat, i: nat, bf: Bitfield, e: nat)
    requires i < 8 && e < 2 * Subsets(i) && Word64(low) && Word64(high)
    requires bf.Inside() && 4 <= bf.count && bf.count + PBits(i) <= 8
    ensures var m := Modes(i);
            && Legal(m) && e < m.NumColors() && m.SPB + m.EPB == PBits(i)
            && Channel(low, high, m, bf, e) == Spread(Extended(Word(low, high), i, bf.offset, bf.count, e), bf.count + PBits(i))
            && Channel(low, high, m, bf, e) < 256
  {
    hide Get, Slice, Widen, Modes, Legal, Word, Word64, Pow2, WithPBit, Subsets, PBitsAt, FieldAt, Channel, Mode.Red,
         Mode.EndpointPBit, Mode.SharedPBit0, Mode.SharedPBit1, OwnPBit, SharedPBit, Spread, Mode.NumColors;
    var m, word := Modes(i), Word(low, high);
    PBitColumns(i, e);
    ChannelCases(low, high, m, bf, e);
    FieldsAgree(i, 0, e);
    GetIsSlice(low, high, bf);
    var v, n := Slice(word, bf.offset, bf.count), bf.count + PBits(i);
    if OwnPBit(i) {
      PBitAgrees(low, high, m.EndpointPBit(e), PBitsAt(i) + e);
      WithPBitIs(v, Slice(word, PBitsAt(i) + e, 1));
    } else if SharedPBit(i) {
      PBitAgrees(low, high, if e < 2 then m.SharedPBit0() else m.SharedPBit1(), PBitsAt(i) + e / 2);
      WithPBitIs(v, Slice(word, PBitsAt(i) + e / 2, 1));
    }
    ExtendedBound(word, i, bf.offset, bf.count, e);
    WidenSpreads(Extended(word, i, bf.offset, bf.count, e), n);
  }

  lemma WidenSpreads(v: nat, n: nat)
    requires 4 <= n <= 8 && v < Pow2(n)
    ensures Widen(v, n) == Spread(v, n) < 256
  {
    hide Widen, Pow2;
    WidenKeeps(v, n);
  }

  lemma BitSlice(word: nat, at: nat)
    ensures Slice(word, at, 1) <= 1
  {
    hide Slice, Pow2;
    SliceBound(word, at, 1);
    Pow2Values();
  }

  lemma EndpointAgrees(low: nat, high: nat, i: nat, e: nat)
    requires i < 8 && e < 2 * Subsets(i) && Word64(low) && Word64(high)
    ensures var m, word := Modes(i), Word(low, high);
            && Legal(m) && e < m.NumColors()
            && Endpoint(low, high, m, e)
               == Color(ChannelOf(word, i, 0, e), ChannelOf(word, i, 1, e), ChannelOf(word, i, 2, e), ChannelOf(word, i, 3, e))
            && ChannelOf(word, i, 0, e) < 256 && ChannelOf(word, i, 1, e) < 256 && ChannelOf(word, i, 2, e) < 256 && ChannelOf(word, i, 3, e) < 256
  {
    hide Get, Modes, Legal, Word, Word64, Channel, Mode.Red, Mode.Green, Mode.Blue, Mode.Alpha, Mode.NumColors, FieldAt, Subsets,
         Mode.EndpointPBit, Mode.SharedPBit0, Mode.SharedPBit1, Extended, Spread, PBitsAt, OwnPBit, SharedPBit, Bitfield.Inside;
    var m := Modes(i);
    PBitColumns(i, e);
    Columns(i);
    Widths(i);
    ColorsInside(m, e);
    AlphasInside(m, e);
    FieldsAgree(i, 0, e);
    FieldsAgree(i, 1, e);
    FieldsAgree(i, 2, e);
    FieldsAgree(i, 3, e);
    ChannelAgrees(low, high, i, m.Red(e), e);
    ChannelAgrees(low, high, i, m.Green(e), e);
    ChannelAgrees(low, high, i, m.Blue(e), e);
    if AlphaBits(i) > 0 {
      ChannelAgrees(low, high, i, m.Alpha(e), e);
    }
  }

  lemma Widths(i: nat)
    requires i < 8
    ensures 4 <= ColorBits(i) && ColorBits(i) + PBits(i) <= 8
    ensures AlphaBits(i) > 0 ==> 4 <= AlphaBits(i) && AlphaBits(i) + PBits(i) <= 8
  {
  }

  // ----- indices agree

  lemma AnchorAgrees(i: nat, p: nat, s: nat)
    requires i < 8 && p < 64 && 0 < s < Subsets(i)
    ensures AnchorIndex(Modes(i), p, s) == AnchorOf(i, p, s)
  {
    hide Modes, Low, Shr, Anchors2, Anchors3a, Anchors3b, AnchorTable2, AnchorTable3a, AnchorTable3b;
    Columns(i);
    Anchors2Is(p);
    Anchors3aIs(p);
    Anchors3bIs(p);
  }

  lemma AnchorsAgree(i: nat, p: nat, t: nat)
    requires i < 8 && p < 64 && t < 16
    ensures AnchorsBefore(Modes(i), p, t) == AnchorsAhead(i, p, t)
    ensures IsAnchor(Modes(i), p, t) <==> Anchor(i, p, t)
  {
    hide Modes, Legal, AnchorOf, AnchorIndex, AnchorsBefore, IsAnchor, Subsets;
    var m := Modes(i);
    Columns(i);
    SubsetRange(i);
    AnchorsClosed(m, p, t);
    AnchorTexels(m, p, t);
    if Subsets(i) >= 2 {
      AnchorAgrees(i, p, 1);
    }
    if Subsets(i) == 3 {
      AnchorAgrees(i, p, 2);
    }
  }

  lemma SubsetRange(i: nat)
    ensures 1 <= Subsets(i) <= 3
  {
  }

  lemma IndicesStart(i: nat)
    requires i < 8
    ensures IndexStart(Modes(i)) == IndicesAt(i) && IndexBits(Modes(i), FirstBits(i)) == 16 * FirstBits(i) - Subsets(i)
  {
    hide Modes, Legal, Subsets, ColorBits, AlphaBits, PartitionBits, RotationBits, SelectionBits;
    var m := Modes(i);
    Columns(i);
    PBitSpace(2 * Subsets(i), m.CB, m.AB);
  }

  lemma IndexAgrees(low: nat, high: nat, i: nat, p: nat, second: bool, t: nat)
    requires i < 8 && p < 64 && t < 16
    ensures IndexValue(low, high, Modes(i), p, second, t) == IndexOf(Word(low, high), i, p, second, t)
  {
    hide Modes, Legal, IndexStart, IndexBits, AnchorsBefore, IsAnchor, AnchorsAhead, Anchor, IndicesAt, Slice, Word, Subsets, FirstBits, SecondBits;
    Columns(i);
    IndicesStart(i);
    AnchorsAgree(i, p, t);
  }

  /** The table of weights is that of rounded fractions. */
  lemma WeightAgrees(bits: nat, index: nat)
    requires 2 <= bits <= 4 && index < Pow2(bits)
    ensures Weight(bits, index) == Fraction(bits, index)
  {
    Pow2Values();
    if bits == 2 {
      Weights2(index);
    } else if bits == 3 {
      Weights3(index);
    } else {
      Weights4(index);
    }
  }

  lemma Weights2(i: nat)
    requires i < 4
    ensures Weight(2, i) == (128 * i + 3) / 6
  {
    match i { case 0 => case 1 => case 2 => case _ => }
  }

  lemma Weights3(i: nat)
    requires i < 8
    ensures Weight(3, i) == (128 * i + 7) / 14
  {
    match i { case 0 => case 1 => case 2 => case 3 => case 4 => case 5 => case 6 => case _ => }
  }

  lemma Weights4(i: nat)
    requires i < 16
    ensures Weight(4, i) == (128 * i + 15) / 30
  {
    match i { case 0 => case 1 => case 2 => case 3 => case 4 => case 5 => case 6 => case 7 => case 8 => case 9 => case 10 => case 11 => case 12 => case 13 => case 14 => case _ => }
  }

  lemma BlendAgrees(a: nat, b: nat, bits: nat, index: nat)
    requires 2 <= bits <= 4 && index < Pow2(bits) && a < 256 && b < 256
    ensures Byte(Interpolate(a, b, bits, index)) == Mixed(a, b, Fraction(bits, index))
  {
    hide Weight, Fraction, Pow2, Mixed;
    WeightAgrees(bits, index);
    InterpolateBetween(a, b, bits, index);
    MixedIs(a, b, Fraction(bits, index));
  }

  lemma MixedIs(a: nat, b: nat, w: nat)
    requires w <= 64
    ensures Mixed(a, b, w) == Blend(a, b, w)
  {
  }

  // ----- texels agree

  lemma SubsetAgrees(i: nat, p: nat, t: nat)
    requires i < 8 && p < 64 && t < 16
    ensures SubsetIndex(Modes(i), p, t) == SubsetOf(i, p, t)
  {
    hide Modes, Low, Shr, Mask2, Mask3, PartitionTable2, PartitionTable3;
    Columns(i);
    Subset2Is(p, t);
    Subset3Is(p, t);
  }

  lemma OutputAgrees(e0: Color, e1: Color, cbits: nat, ci: nat, abits: nat, ai: nat, rotation: nat)
    requires 2 <= cbits <= 4 && ci < Pow2(cbits) && 2 <= abits <= 4 && ai < Pow2(abits)
    requires e0.r < 256 && e0.g < 256 && e0.b < 256 && e0.a < 256 && e1.r < 256 && e1.g < 256 && e1.b < 256 && e1.a < 256
    ensures var cw, aw := Fraction(cbits, ci), Fraction(abits, ai);
            Output(e0, e1, cbits, ci, abits, ai, rotation)
            == Exchanged(Color(Mixed(e0.b, e1.b, cw), Mixed(e0.g, e1.g, cw), Mixed(e0.r, e1.r, cw), Mixed(e0.a, e1.a, aw)), rotation)
  {
    hide Interpolate, Mixed, Fraction, Byte, Pow2;
    BlendAgrees(e0.r, e1.r, cbits, ci);
    BlendAgrees(e0.g, e1.g, cbits, ci);
    BlendAgrees(e0.b, e1.b, cbits, ci);
    BlendAgrees(e0.a, e1.a, abits, ai);
  }

  lemma RunWidths(i: nat, second: bool)
    requires i < 8 && (second ==> SecondBits(i) > 0)
    ensures 2 <= RunBits(i, second) <= 4
  {
  }

  lemma TexelAgrees(low: nat, high: nat, i: nat, p: nat, cs: bool, as_: bool, t: nat, rotation: nat)
    requires i < 8 && p < 64 && t < 16 && Word64(low) && Word64(high) && (cs || as_ ==> SecondBits(i) > 0)
    requires Legal(Modes(i)) && Modes(i).Rotation().Inside() && rotation == Get(low, high, Modes(i).Rotation())
    ensures var word := Word(low, high);
            TexelWith(low, high, Modes(i), p, cs, as_, t)
            == Exchanged(Color(Blended(word, i, p, 2, cs, t), Blended(word, i, p, 1, cs, t), Blended(word, i, p, 0, cs, t), Blended(word, i, p, 3, as_, t)), rotation)
  {
    hide Get, Modes, Legal, Word, Word64, Mode.NumColors, Mode.Rotation, Bitfield.Inside, Subsets, FirstBits, SecondBits, Endpoint, IndexValue, IndexOf,
         SubsetIndex, SubsetOf, ChannelOf, Mixed, Fraction, Output, Exchanged, Pow2;
    var m, word := Modes(i), Word(low, high);
    var s := SubsetOf(i, p, t);
    Columns(i);
    RotationInside(m);
    SubsetAgrees(i, p, t);
    SubsetFits(m, p, t);
    EndpointAgrees(low, high, i, 2 * s);
    EndpointAgrees(low, high, i, 2 * s + 1);
    IndexAgrees(low, high, i, p, cs, t);
    IndexAgrees(low, high, i, p, as_, t);
    RunWidths(i, cs);
    RunWidths(i, as_);
    OutputAgrees(Endpoint(low, high, m, 2 * s), Endpoint(low, high, m, 2 * s + 1), RunBits(i, cs), IndexOf(word, i, p, cs, t),
                 RunBits(i, as_), IndexOf(word, i, p, as_, t), rotation);
  }

  lemma HeaderAgrees(low: nat, high: nat, i: nat)
    requires i < 8 && Word64(low) && Word64(high)
    ensures var m, word := Modes(i), Word(low, high);
            && Legal(m) && m.Rotation().Inside() && m.IndexSelection().Inside()
            && PartitionOf(low, high, m) == Slice(word, i + 1, PartitionBits(i))
            && Get(low, high, m.Rotation()) == Slice(word, i + 1 + PartitionBits(i), RotationBits(i))
            && Get(low, high, m.IndexSelection()) == Slice(word, i + 1 + PartitionBits(i) + RotationBits(i), SelectionBits(i))
            && m.IB2 == SecondBits(i)
  {
    hide Get, Modes, Legal, Word, Word64, Slice, PartitionBits, RotationBits, SelectionBits, SecondBits, Pow2, Mode.SharedPBit0, Mode.SharedPBit1;
    var m := Modes(i);
    Columns(i);
    HeaderInside(m);
    GetIsSlice(low, high, m.Partition());
    GetIsSlice(low, high, m.Rotation());
    GetIsSlice(low, high, m.IndexSelection());
  }

  lemma SelectionSmall(word: nat, i: nat, at: nat)
    ensures Slice(word, at, SelectionBits(i)) <= 1
  {
    hide Slice, Pow2;
    SliceBound(word, at, SelectionBits(i));
    SmallPowers();
    Pow2Values();
  }

  /** On every word the decoder's texel is the standard's. */
  lemma BlockIsStandard(low: nat, high: nat, t: nat)
    requires t < 16 && Word64(low) && Word64(high)
    ensures BlockTexel(low, high, t) == StandardTexel(Word(low, high), t)
  {
    hide Get, Modes, Legal, Word, Word64, Slice, ModeOf, PartitionOf, TexelWith, Blended, Exchanged, Mode.Rotation, Mode.IndexSelection,
         Bitfield.Inside, PartitionBits, RotationBits, SelectionBits, SecondBits, TrailingZeros;
    var word := Word(low, high);
    var i := TrailingZeros(word, 8);
    ModeAgrees(low, high);
    if i < 8 {
      HeaderAgrees(low, high, i);
      HeaderSlices(word, i);
      SelectionSmall(word, i, i + 1 + PartitionBits(i) + RotationBits(i));
      Columns(i);
      var selected := Slice(word, i + 1 + PartitionBits(i) + RotationBits(i), SelectionBits(i)) == 1;
      TexelAgrees(low, high, i, Slice(word, i + 1, PartitionBits(i)), selected, SecondBits(i) > 0 && !selected, t,
                  Slice(word, i + 1 + PartitionBits(i), RotationBits(i)));
    }
  }

  /** Texel 4 y + x is in column x and row y of the block, and shown when that is inside the picture. */
  lemma TexelShown(x: nat, y: nat, dstX: nat, dstY: nat, dstWidth: nat, dstHeight: nat)
    requires x < 4 && y < 4
    ensures Visible(4 * y + x, dstX, dstY, dstWidth, dstHeight) <==> dstX + x < dstWidth && dstY + y < dstHeight
  {
  }
}
