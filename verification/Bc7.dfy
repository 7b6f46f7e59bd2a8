/** BC7 blocks: a 128-bit word cut into fields that depend on the mode (ARB_texture_compression_bptc). */
module Bc7 {
  import opened Arith
  import opened Bits
  import opened BptcTables
  import opened BptcMasks

  // ----- fields of the word

  datatype Bitfield = Bitfield(offset: int, count: int) {
    function Then(bits: int): Bitfield {
      Bitfield(offset + count, bits)
    }

    predicate Inside() {
      0 <= offset && 0 <= count < 64 && offset + count <= 128
    }
  }

  /** The block as one little-endian number. */
  function Word(low: nat, high: nat): nat {
    low + Shl(high, 64)
  }

  ghost predicate Word64(x: nat) {
    x < Pow2(64)
  }

  /** `count` bits from position `offset`. */
  function Slice(word: nat, offset: nat, count: nat): nat {
    Low(Shr(word, offset), count)
  }

  function Get(low: nat, high: nat, bf: Bitfield): nat
    requires bf.Inside()
  {
    if bf.offset + bf.count <= 64 then Low(Shr(low, bf.offset), bf.count)
    else if bf.offset >= 64 then Low(Shr(high, bf.offset - 64), bf.count)
    else Low(Or(Shr(low, bf.offset), Low(Shl(high, 64 - bf.offset), 64)), bf.count)
  }

  lemma LowDropsHigh(q: nat, h: nat, a: nat, b: nat)
    ensures Low(q + Shl(h, a + b), a) == Low(q, a)
  {
    hide Low, Shl, Shr, Pow2;
    Split(q, a);
    ShlShl(h, b, a);
    ShlAdd(Shr(q, a), Shl(h, b), a);
    ShlSplit(Shr(q, a) + Shl(h, b), Low(q, a), a);
  }

  /** Shifting the word down past part of its low half. */
  lemma ShrWord(low: nat, high: nat, o: nat)
    requires Word64(low) && o <= 64
    ensures Shr(Word(low, high), o) == Shr(low, o) + Shl(high, 64 - o)
    ensures Shr(low, o) < Pow2(64 - o)
  {
    hide Low, Shl, Shr, Pow2;
    Split(low, o);
    var q, r := Shr(low, o), Low(low, o);
    ShlShl(high, 64 - o, o);
    ShlAdd(q, Shl(high, 64 - o), o);
    ShlSplit(q + Shl(high, 64 - o), r, o);
    ShlMonotone(q, Pow2(64 - o), o);
    ShlPow2(64 - o, o);
  }

  /** The part of the high half that the mixed read keeps. */
  lemma HighPart(high: nat, o: nat)
    requires o <= 64
    ensures Low(Shl(high, 64 - o), 64) == Shl(Low(high, o), 64 - o)
    ensures Shl(high, 64 - o) == Shl(Low(high, o), 64 - o) + Shl(Shr(high, o), 64)
  {
    hide Low, Shl, Shr, Pow2;
    Split(high, o);
    ShlAdd(Shl(Shr(high, o), o), Low(high, o), 64 - o);
    ShlShl(Shr(high, o), o, 64 - o);
    ShlMonotone(Low(high, o), Pow2(o), 64 - o);
    ShlPow2(o, 64 - o);
    ShlSplit(Shr(high, o), Shl(Low(high, o), 64 - o), 64);
  }

  /** Reading a field is taking a slice of the word, also across the middle. */
  lemma GetIsSlice(low: nat, high: nat, bf: Bitfield)
    requires bf.Inside() && Word64(low) && Word64(high)
    ensures Get(low, high, bf) == Slice(Word(low, high), bf.offset, bf.count)
  {
    hide Low, Shl, Shr, Or, Pow2, Word;
    var o, n := bf.offset, bf.count;
    if o + n <= 64 {
      ShrWord(low, high, o);
      LowDropsHigh(Shr(low, o), high, n, 64 - o - n);
    } else if o >= 64 {
      ShrWord(low, high, 64);
      AllShifted(low, high);
      ShrShr(Word(low, high), 64, o - 64);
    } else {
      ShrWord(low, high, o);
      HighPart(high, o);
      var part := Low(high, o);
      OrDisjoint(Shr(low, o), part, 64 - o);
      LowDropsHigh(Shr(low, o) + Shl(part, 64 - o), Shr(high, o), n, 64 - n);
    }
  }

  lemma AllShifted(low: nat, high: nat)
    requires Word64(low)
    ensures Shr(low, 64) + Shl(high, 0) == high
  {
    hide Low, Shr, Pow2;
    ShlZero(64);
    ShlSplit(0, low, 64);
  }

  // ----- modes

  datatype Mode = Mode(IDX: int, NS: nat, PB: nat, RB: nat, ISB: nat, CB: nat, AB: nat, EPB: nat, SPB: nat, IB: nat, IBC: nat, IB2: nat) {
    function NumColors(): nat { NS * 2 }
    function Partition(): Bitfield { Bitfield(IDX + 1, PB) }
    function Rotation(): Bitfield { Partition().Then(RB) }
    function IndexSelection(): Bitfield { Rotation().Then(ISB) }
    function Red(idx: int): Bitfield { IndexSelection().Then(CB * idx).Then(CB) }
    function Green(idx: int): Bitfield { Red(NumColors() - 1).Then(CB * idx).Then(CB) }
    function Blue(idx: int): Bitfield { Green(NumColors() - 1).Then(CB * idx).Then(CB) }
    function Alpha(idx: int): Bitfield { Blue(NumColors() - 1).Then(AB * idx).Then(AB) }
    function EndpointPBit(idx: int): Bitfield { Alpha(NumColors() - 1).Then(EPB * idx).Then(EPB) }
    function SharedPBit0(): Bitfield { EndpointPBit(NumColors() - 1).Then(SPB) }
    function SharedPBit1(): Bitfield { SharedPBit0().Then(SPB) }
    function PrimaryIndex(offset: int, count: int): Bitfield { SharedPBit1().Then(offset).Then(count) }
    function SecondaryIndex(offset: int, count: int): Bitfield { SharedPBit1().Then(IBC + offset).Then(count) }
  }

  function Modes(i: nat): Mode {
    match i
    case 0 => Mode(0, 3, 4, 0, 0, 4, 0, 1, 0, 3, 0x2d, 0)
    case 1 => Mode(1, 2, 6, 0, 0, 6, 0, 0, 1, 3, 0x2e, 0)
    case 2 => Mode(2, 3, 6, 0, 0, 5, 0, 0, 0, 2, 0x1d, 0)
    case 3 => Mode(3, 2, 6, 0, 0, 7, 0, 1, 0, 2, 0x1e, 0)
    case 4 => Mode(4, 1, 0, 2, 1, 5, 6, 0, 0, 2, 0x1f, 3)
    case 5 => Mode(5, 1, 0, 2, 0, 7, 8, 0, 0, 2, 0x1f, 2)
    case 6 => Mode(6, 1, 0, 0, 0, 7, 7, 1, 0, 4, 0x3f, 0)
    case 7 => Mode(7, 2, 6, 0, 0, 5, 5, 1, 0, 2, 0x1e, 0)
    case _ => Mode(-1, 0, 0, 0, 0, 0, 0, 0, 0, 0, 0, 0)
  }

  ghost predicate Legal(m: Mode) {
    exists i :: 0 <= i < 8 && m == Modes(i)
  }

  /** The first set bit of the low byte names the mode. */
  function ModeOf(low: nat): Mode {
    if Bit(low, 0) != 0 then Modes(0)
    else if Bit(low, 1) != 0 then Modes(1)
    else if Bit(low, 2) != 0 then Modes(2)
    else if Bit(low, 3) != 0 then Modes(3)
    else if Bit(low, 4) != 0 then Modes(4)
    else if Bit(low, 5) != 0 then Modes(5)
    else if Bit(low, 6) != 0 then Modes(6)
    else if Bit(low, 7) != 0 then Modes(7)
    else Modes(8)
  }

  lemma {:induction false} LowStepUp(x: nat, n: nat)
    ensures Low(x, n + 1) == Low(x, n) + Shl(Bit(x, n), n)
    decreases n
  {
    if n > 0 {
      LowStepUp(x / 2, n - 1);
    }
  }

  lemma {:induction false} LowZeroIff(x: nat, n: nat)
    ensures Low(x, n) == 0 <==> forall i: nat :: i < n ==> Bit(x, i) == 0
  {
    if n > 0 {
      LowZeroIff(x, n - 1);
      LowStepUp(x, n - 1);
      ShlMonotone(0, Bit(x, n - 1), n - 1);
      ShlZero(n - 1);
    }
  }

  /** Mode i is a field of i + 1 bits: i zeros and a one. */
  lemma ModeIsUnary(low: nat, i: nat)
    requires i < 8
    ensures ModeOf(low) == Modes(i) <==> Low(low, i + 1) == Pow2(i)
  {
    hide Low, Bit, Pow2, Shl;
    LowZeroIff(low, i);
    LowStepUp(low, i);
    ShlOne(i);
    ShlZero(i);
    Split(low, i);
    if Low(low, i) == 0 {
      assert forall j: nat :: j < i ==> Bit(low, j) == 0;
    }
  }

  // ----- where the fields are

  /** The first colour bit, and the first index bit. */
  function ColorStart(m: Mode): int {
    m.IDX + 1 + m.PB + m.RB + m.ISB
  }

  function IndexStart(m: Mode): int {
    ColorStart(m) + 3 * (m.CB * m.NumColors()) + m.AB * m.NumColors() + m.EPB * m.NumColors() + 2 * m.SPB
  }

  /** Anchor texels take one index bit less; there is one a subset. */
  function IndexBits(m: Mode, bits: nat): int {
    if bits == 0 then 0 else 16 * bits - m.NS
  }

  lemma ColorsTile(m: Mode, e: int)
    requires m.NS > 0
    ensures m.Red(e) == Bitfield(ColorStart(m) + m.CB * e, m.CB)
    ensures m.Green(e) == Bitfield(ColorStart(m) + m.CB * m.NumColors() + m.CB * e, m.CB)
    ensures m.Blue(e) == Bitfield(ColorStart(m) + 2 * (m.CB * m.NumColors()) + m.CB * e, m.CB)
  {
    var n := m.NumColors();
    assert m.CB * (n - 1) + m.CB == m.CB * n;
  }

  lemma AlphasTile(m: Mode, e: int)
    requires m.NS > 0
    ensures m.Alpha(e) == Bitfield(ColorStart(m) + 3 * (m.CB * m.NumColors()) + m.AB * e, m.AB)
    ensures m.EndpointPBit(e) == Bitfield(ColorStart(m) + 3 * (m.CB * m.NumColors()) + m.AB * m.NumColors() + m.EPB * e, m.EPB)
  {
    hide Mode.Blue;
    var n := m.NumColors();
    ColorsTile(m, n - 1);
    assert m.CB * (n - 1) + m.CB == m.CB * n;
    assert m.AB * (n - 1) + m.AB == m.AB * n;
  }

  lemma PBitsTile(m: Mode)
    requires m.NS > 0
    ensures m.SharedPBit0() == Bitfield(IndexStart(m) - 2 * m.SPB, m.SPB)
    ensures m.SharedPBit1() == Bitfield(IndexStart(m) - m.SPB, m.SPB)
  {
    hide Mode.EndpointPBit;
    var n := m.NumColors();
    AlphasTile(m, n - 1);
    assert m.EPB * (n - 1) + m.EPB == m.EPB * n;
  }

  lemma IndexField(m: Mode, o: int, c: int)
    requires Legal(m)
    ensures m.PrimaryIndex(o, c) == Bitfield(IndexStart(m) + o, c)
    ensures m.SecondaryIndex(o, c) == Bitfield(IndexStart(m) + IndexBits(m, m.IB) + o, c)
  {
    WordFull(m);
    hide Mode.SharedPBit1, IndexStart, IndexBits, Legal;
    PBitsTile(m);
  }

  /**
   * The fields follow one another without gap or overlap: mode, partition, rotation, index
   * selection, colours channel by channel, alphas, P-bits (ColorsTile, AlphasTile, PBitsTile),
   * then the two runs of indices, which end with the word.
   */
  lemma WordFull(m: Mode)
    requires Legal(m)
    ensures m.IBC == IndexBits(m, m.IB)
    ensures IndexStart(m) + IndexBits(m, m.IB) + IndexBits(m, m.IB2) == 128
    ensures 1 <= m.NS <= 3 && 2 <= m.IB <= 4 && m.IB2 <= 3 && m.PB <= 6 && m.RB <= 2 && m.ISB <= 1 && 0 <= m.IDX < 8
    ensures m.SPB + m.EPB <= 1 && (m.AB == 0 || m.SPB == 0)
    ensures 5 <= m.CB + m.SPB + m.EPB <= 8 && (m.AB > 0 ==> 6 <= m.AB + m.SPB + m.EPB <= 8)
    ensures m.NS > 1 ==> m.IB2 == 0 && m.ISB == 0
    ensures m.ISB == 1 ==> m.IB2 > 0
  {
    var i :| 0 <= i < 8 && m == Modes(i);
    match i
    case 0 => case 1 => case 2 => case 3 => case 4 => case 5 => case 6 => case _ =>
  }

  lemma HeaderInside(m: Mode)
    requires Legal(m)
    ensures m.Partition().Inside() && m.Rotation().Inside() && m.IndexSelection().Inside()
    ensures m.SharedPBit0().Inside() && m.SharedPBit1().Inside()
  {
    WordFull(m);
    IndexStartInside(m);
    hide Legal, Modes, IndexBits, IndexStart, Mode.SharedPBit0, Mode.SharedPBit1;
    PBitsTile(m);
  }

  lemma ColorsInside(m: Mode, e: nat)
    requires Legal(m) && e < m.NumColors()
    ensures m.Red(e).Inside() && m.Green(e).Inside() && m.Blue(e).Inside()
  {
    WordFull(m);
    IndexStartInside(m);
    hide Legal, Modes, IndexBits, IndexStart, ColorStart, Mode.NumColors, Mode.Red, Mode.Green, Mode.Blue;
    ColorsTile(m, e);
    Within(m.CB, e, m.NumColors());
  }

  lemma AlphasInside(m: Mode, e: nat)
    requires Legal(m) && e < m.NumColors()
    ensures m.Alpha(e).Inside() && m.EndpointPBit(e).Inside()
  {
    WordFull(m);
    IndexStartInside(m);
    hide Legal, Modes, IndexBits, IndexStart, ColorStart, Mode.NumColors, Mode.Alpha, Mode.EndpointPBit;
    AlphasTile(m, e);
    Within(m.AB, e, m.NumColors());
    Within(m.EPB, e, m.NumColors());
  }

  lemma Within(bits: nat, e: nat, n: nat)
    requires e < n
    ensures 0 <= bits * e && bits * e + bits <= bits * n
  {
    MulLe(e + 1, n, bits);
  }

  lemma IndexStartInside(m: Mode)
    requires Legal(m)
    ensures 0 <= ColorStart(m) && IndexStart(m) <= 128 && m.CB <= 8 && m.AB <= 8
    ensures var n := m.NumColors();
            && 0 <= m.CB * n && 0 <= m.AB * n && 0 <= m.EPB * n
            && ColorStart(m) + 3 * (m.CB * n) + m.AB * n + m.EPB * n + 2 * m.SPB == IndexStart(m)
  {
    WordFull(m);
    MulLe(0, m.NumColors(), m.CB);
    MulLe(0, m.NumColors(), m.AB);
    MulLe(0, m.NumColors(), m.EPB);
  }

  // ----- subsets and anchors

  function SubsetIndex(m: Mode, p: nat, t: nat): nat
    requires p < 64 && t < 16
  {
    TableSound2(p);
    TableSound3(p);
    if m.NS == 2 then PartitionTable2(p)[t] else if m.NS == 3 then PartitionTable3(p)[t] else 0
  }

  function AnchorIndex(m: Mode, p: nat, subset: nat): nat {
    if subset == 1 then (if m.NS == 2 then AnchorTable2(p) else AnchorTable3a(p))
    else if subset == 2 then AnchorTable3b(p)
    else 0
  }

  predicate IsAnchor(m: Mode, p: nat, t: nat)
    requires p < 64 && t < 16
  {
    AnchorIndex(m, p, SubsetIndex(m, p, t)) == t
  }

  /** Each subset has exactly one anchor texel, and every texel a subset. */
  lemma OneAnchorEach(m: Mode, p: nat, s: nat)
    requires 1 <= m.NS <= 3 && p < 64 && s < m.NS
    ensures AnchorIndex(m, p, s) < 16
    ensures SubsetIndex(m, p, AnchorIndex(m, p, s)) == s && IsAnchor(m, p, AnchorIndex(m, p, s))
    ensures forall t | 0 <= t < 16 && SubsetIndex(m, p, t) == s && IsAnchor(m, p, t) :: t == AnchorIndex(m, p, s)
    ensures forall t | 0 <= t < 16 :: SubsetIndex(m, p, t) < m.NS
  {
    hide PartitionTable2, PartitionTable3, AnchorTable2, AnchorTable3a, AnchorTable3b;
    TableSound2(p);
    TableSound3(p);
  }

  /** Anchor texels before texel t. */
  function AnchorsBefore(m: Mode, p: nat, t: nat): nat
    requires p < 64 && t <= 16
  {
    if t == 0 then 0 else AnchorsBefore(m, p, t - 1) + if IsAnchor(m, p, t - 1) then 1 else 0
  }

  lemma {:induction false} AnchorsClosed(m: Mode, p: nat, t: nat)
    requires 1 <= m.NS <= 3 && p < 64 && t <= 16
    ensures AnchorsBefore(m, p, t) == (if t > 0 then 1 else 0)
                                      + (if m.NS >= 2 && t > AnchorIndex(m, p, 1) then 1 else 0)
                                      + (if m.NS == 3 && t > AnchorIndex(m, p, 2) then 1 else 0)
  {
    hide PartitionTable2, PartitionTable3, AnchorTable2, AnchorTable3a, AnchorTable3b, SubsetIndex, AnchorIndex;
    if t > 0 {
      AnchorsClosed(m, p, t - 1);
      AnchorTexels(m, p, t - 1);
    }
  }

  lemma AnchorTexels(m: Mode, p: nat, t: nat)
    requires 1 <= m.NS <= 3 && p < 64 && t < 16
    ensures IsAnchor(m, p, t) <==> t == 0 || (m.NS >= 2 && t == AnchorIndex(m, p, 1)) || (m.NS == 3 && t == AnchorIndex(m, p, 2))
    ensures m.NS >= 2 ==> 0 < AnchorIndex(m, p, 1) < 16
    ensures m.NS == 3 ==> 0 < AnchorIndex(m, p, 2) < 16 && AnchorIndex(m, p, 1) != AnchorIndex(m, p, 2)
  {
    hide PartitionTable2, PartitionTable3, AnchorTable2, AnchorTable3a, AnchorTable3b;
    TableSound2(p);
    TableSound3(p);
  }

  /** As many anchors as subsets. */
  lemma AnchorsTotal(m: Mode, p: nat)
    requires 1 <= m.NS <= 3 && p < 64
    ensures AnchorsBefore(m, p, 16) == m.NS
  {
    hide AnchorsBefore, AnchorIndex, IsAnchor;
    AnchorsClosed(m, p, 16);
    AnchorTexels(m, p, 15);
  }

  // ----- indices

  /** Bits of the index of texel t in a run of indices of `bits` bits. */
  function ReadBits(m: Mode, p: nat, bits: nat, t: nat): int
    requires p < 64 && t < 16
  {
    bits - if IsAnchor(m, p, t) then 1 else 0
  }

  /** Where the index of texel t is, counted from the start of the run. */
  function IndexOffset(m: Mode, p: nat, bits: nat, t: nat): int
    requires p < 64 && t <= 16
  {
    bits * t - AnchorsBefore(m, p, t)
  }

  /** Indices follow one another and fill the run exactly. */
  lemma IndicesTile(m: Mode, p: nat, bits: nat, t: nat)
    requires 1 <= m.NS <= 3 && p < 64 && t < 16
    ensures IndexOffset(m, p, bits, 0) == 0
    ensures IndexOffset(m, p, bits, t + 1) == IndexOffset(m, p, bits, t) + ReadBits(m, p, bits, t)
    ensures IndexOffset(m, p, bits, 16) == 16 * bits - m.NS
  {
    hide IsAnchor;
    AnchorsTotal(m, p);
    assert bits * (t + 1) == bits * t + bits;
  }

  lemma {:induction false} OffsetBound(m: Mode, p: nat, bits: nat, t: nat)
    requires p < 64 && t <= 16 && bits > 0
    ensures 0 <= IndexOffset(m, p, bits, t)
    ensures IndexOffset(m, p, bits, t) <= IndexOffset(m, p, bits, 16)
    decreases 16 - t
  {
    hide IsAnchor;
    AnchorsAtMost(m, p, t);
    MulLe(1, bits, t);
    if t < 16 {
      OffsetBound(m, p, bits, t + 1);
      assert bits * (t + 1) == bits * t + bits;
    }
  }

  lemma {:induction false} AnchorsAtMost(m: Mode, p: nat, t: nat)
    requires p < 64 && t <= 16
    ensures AnchorsBefore(m, p, t) <= t
  {
    hide IsAnchor;
    if t > 0 {
      AnchorsAtMost(m, p, t - 1);
    }
  }

  // ----- endpoints

  /** `(rgb << (8 - n)) | (that >> n)` on a byte */
  function Widen(v: nat, n: nat): nat
    requires n <= 8
  {
    var top := Low(Shl(v, 8 - n), 8);
    Or(top, Shr(top, n))
  }

  /** The n bits stay on top and are repeated below them: the ends of the range stay the ends. */
  lemma WidenKeeps(v: nat, n: nat)
    requires 4 <= n <= 8 && v < Pow2(n)
    ensures Widen(v, n) < 256 && Shr(Widen(v, n), 8 - n) == v
    ensures Widen(v, n) == Shl(v, 8 - n) + Shr(v, 2 * n - 8)
  {
    hide Low, Shl, Shr, Or, Pow2;
    Pow2Values();
    ShlMonotone(v, Pow2(n), 8 - n);
    ShlPow2(n, 8 - n);
    var top := Shl(v, 8 - n);
    LowSmall(top, 8);
    ShrOfShl(v, 8 - n, 2 * n - 8);
    var below := Shr(v, 2 * n - 8);
    BelowBound(v, n);
    OrCommutes(top, below);
    OrDisjoint(below, v, 8 - n);
    ShlSplit(v, below, 8 - n);
    ShlAdd(v, 1, 8 - n);
    ShlMonotone(v + 1, Pow2(n), 8 - n);
    ShlOne(8 - n);
  }

  lemma ShrOfShl(v: nat, a: nat, b: nat)
    ensures Shr(Shl(v, a), a + b) == Shr(v, b)
  {
    hide Low, Shl, Shr, Pow2;
    ShrShr(Shl(v, a), a, b);
    ShlSplit(v, 0, a);
  }

  lemma BelowBound(v: nat, n: nat)
    requires 4 <= n <= 8 && v < Pow2(n)
    ensures Shr(v, 2 * n - 8) < Pow2(8 - n)
  {
    hide Low, Shl, Shr, Pow2;
    var k := 2 * n - 8;
    Split(v, k);
    ShlMonotone(Shr(v, k), Pow2(8 - n), k);
    ShlPow2(8 - n, k);
  }

  datatype Color = Color(r: nat, g: nat, b: nat, a: nat)

  function WithPBit(v: nat, pbit: nat): nat {
    Or(Shl(v, 1), pbit)
  }

  /** One channel: the field, its P-bit if the mode has one, widened to a byte. */
  function Channel(low: nat, high: nat, m: Mode, bf: Bitfield, e: nat): nat
    requires Legal(m) && e < m.NumColors() && bf.Inside() && bf.count + m.SPB + m.EPB <= 8
  {
    HeaderInside(m);
    AlphasInside(m, e);
    var v := Get(low, high, bf);
    var shared := if m.SPB > 0 then WithPBit(v, Get(low, high, if e < 2 then m.SharedPBit0() else m.SharedPBit1())) else v;
    var own := if m.EPB > 0 then WithPBit(shared, Get(low, high, m.EndpointPBit(e))) else shared;
    Widen(own, bf.count + m.SPB + m.EPB)
  }

  lemma WithPBitIs(v: nat, pbit: nat)
    requires pbit <= 1
    ensures WithPBit(v, pbit) == 2 * v + pbit
  {
    assert Shl(v, 1) == 2 * v;
    OrCommutes(Shl(v, 1), pbit);
    OrDisjoint(pbit, v, 1);
  }

  /** A channel is a byte whose top bits are the field and, below it, the P-bit if the mode has one. */
  lemma ChannelTop(low: nat, high: nat, m: Mode, bf: Bitfield, e: nat)
    requires Legal(m) && e < m.NumColors() && bf.Inside() && 4 <= bf.count && bf.count + m.SPB + m.EPB <= 8
    ensures m.EndpointPBit(e).Inside() && m.SharedPBit0().Inside() && m.SharedPBit1().Inside()
    ensures var v := Get(low, high, bf);
            var pbit := if m.SPB > 0 then Get(low, high, if e < 2 then m.SharedPBit0() else m.SharedPBit1())
                        else if m.EPB > 0 then Get(low, high, m.EndpointPBit(e)) else 0;
            var n := bf.count + m.SPB + m.EPB;
            && Channel(low, high, m, bf, e) < 256
            && Shr(Channel(low, high, m, bf, e), 8 - n) == if m.SPB + m.EPB > 0 then 2 * v + pbit else v
  {
    hide Legal, Get, Widen, WithPBit, Shr, Pow2, Mode.EndpointPBit, Mode.SharedPBit0, Mode.SharedPBit1, Mode.NumColors, IndexStart,
         IndexBits, Mode.Partition, Mode.Rotation, Mode.IndexSelection, Mode.Alpha;
    OnePBit(m);
    HeaderInside(m);
    AlphasInside(m, e);
    PBitCounts(m, e);
    var v := Get(low, high, bf);
    GetBound(low, high, bf);
    GetBound(low, high, m.SharedPBit0());
    GetBound(low, high, m.SharedPBit1());
    GetBound(low, high, m.EndpointPBit(e));
    Pow2Values();
    Pow2Step(bf.count);
    var pbit := if m.SPB > 0 then Get(low, high, if e < 2 then m.SharedPBit0() else m.SharedPBit1())
                else if m.EPB > 0 then Get(low, high, m.EndpointPBit(e)) else 0;
    WithPBitIs(v, pbit);
    WidenKeeps(if m.SPB + m.EPB > 0 then 2 * v + pbit else v, bf.count + m.SPB + m.EPB);
  }

  lemma OnePBit(m: Mode)
    requires Legal(m)
    ensures m.NS > 0 && m.SPB + m.EPB <= 1
  {
    WordFull(m);
  }

  lemma PBitCounts(m: Mode, e: nat)
    requires Legal(m) && m.NS > 0
    ensures m.SharedPBit0().count == m.SharedPBit1().count == m.SPB && m.EndpointPBit(e).count == m.EPB
  {
    PBitsTile(m);
    AlphasTile(m, e);
  }

  /** Endpoint e % 2 of subset e / 2. */
  function Endpoint(low: nat, high: nat, m: Mode, e: nat): Color
    requires Legal(m) && e < m.NumColors()
  {
    WordFull(m);
    ColorsInside(m, e);
    AlphasInside(m, e);
    ColorsTile(m, e);
    AlphasTile(m, e);
    Color(Channel(low, high, m, m.Red(e), e), Channel(low, high, m, m.Green(e), e), Channel(low, high, m, m.Blue(e), e),
          if m.AB > 0 then Channel(low, high, m, m.Alpha(e), e) else 255)
  }

  // ----- interpolation

  function Weight(bits: nat, index: nat): nat {
    if bits == 2 then (match index case 0 => 0 case 1 => 21 case 2 => 43 case _ => 64)
    else if bits == 3 then (match index case 0 => 0 case 1 => 9 case 2 => 18 case 3 => 27 case 4 => 37 case 5 => 46 case 6 => 55 case _ => 64)
    else (match index
          case 0 => 0 case 1 => 4 case 2 => 9 case 3 => 13 case 4 => 17 case 5 => 21 case 6 => 26 case 7 => 30
          case 8 => 34 case 9 => 38 case 10 => 43 case 11 => 47 case 12 => 51 case 13 => 55 case 14 => 60 case _ => 64)
  }

  function Blend(e0: nat, e1: nat, w: int): int {
    ((64 - w) * e0 + w * e1 + 32) / 64
  }

  function Interpolate(e0: nat, e1: nat, bits: nat, index: nat): int {
    Blend(e0, e1, Weight(bits, index))
  }

  /** The weights run from 0 to 64 and mirror each other. */
  lemma WeightsMirror(bits: nat, index: nat)
    requires 2 <= bits <= 4 && index < Pow2(bits)
    ensures Weight(bits, 0) == 0 && Weight(bits, index) <= 64
    ensures Weight(bits, Pow2(bits) - 1 - index) == 64 - Weight(bits, index)
  {
    Pow2Values();
    hide Weight, Pow2;
    WeightEnds(bits);
    if bits == 2 {
      Mirror2(index);
    } else if bits == 3 {
      Mirror3(index);
    } else {
      Mirror4(index);
    }
  }

  lemma WeightEnds(bits: nat)
    ensures Weight(bits, 0) == 0
  {
  }

  lemma Mirror2(i: nat)
    requires i < 4
    ensures Weight(2, i) <= 64 && Weight(2, 3 - i) == 64 - Weight(2, i)
  {
  }

  lemma Mirror3(i: nat)
    requires i < 8
    ensures Weight(3, i) <= 64 && Weight(3, 7 - i) == 64 - Weight(3, i)
  {
  }

  lemma Mirror4(i: nat)
    requires i < 16
    ensures Weight(4, i) <= 64 && Weight(4, 15 - i) == 64 - Weight(4, i)
  {
  }

  /** Interpolated values lie between the endpoints, and the first and last index give the endpoints. */
  lemma InterpolateBetween(e0: nat, e1: nat, bits: nat, index: nat)
    requires 2 <= bits <= 4 && index < Pow2(bits)
    ensures var lo, hi := (if e0 <= e1 then e0 else e1), (if e0 <= e1 then e1 else e0); lo <= Interpolate(e0, e1, bits, index) <= hi
    ensures Interpolate(e0, e1, bits, 0) == e0 && Interpolate(e0, e1, bits, Pow2(bits) - 1) == e1
    ensures Interpolate(e0, e1, bits, index) == Interpolate(e1, e0, bits, Pow2(bits) - 1 - index)
  {
    WeightsMirror(bits, index);
    WeightsMirror(bits, 0);
    hide Weight, Blend;
    var w := Weight(bits, index);
    BlendEnds(e0, e1, w);
    if e0 <= e1 {
      BlendBetween(e0, e1, w);
    } else {
      BlendBetween(e1, e0, 64 - w);
      BlendEnds(e1, e0, 64 - w);
    }
  }

  lemma BlendEnds(e0: nat, e1: nat, w: nat)
    requires w <= 64
    ensures Blend(e0, e1, 0) == e0 && Blend(e0, e1, 64) == e1 && Blend(e0, e1, w) == Blend(e1, e0, 64 - w)
  {
  }

  lemma BlendBetween(e0: nat, e1: nat, w: nat)
    requires w <= 64 && e0 <= e1
    ensures e0 <= Blend(e0, e1, w) <= e1
  {
    var d := e1 - e0;
    assert (64 - w) * e0 + w * e1 == 64 * e0 + w * d;
    MulLe(0, w, d);
    MulLe(w, 64, d);
  }

  // ----- decoding

  /** What the texel's index says, straight from the word. */
  function IndexValue(low: nat, high: nat, m: Mode, p: nat, secondary: bool, t: nat): nat
    requires p < 64 && t < 16
  {
    var bits := if secondary then m.IB2 else m.IB;
    var start := if secondary then IndexStart(m) + IndexBits(m, m.IB) else IndexStart(m);
    var offset, count := start + IndexOffset(m, p, bits, t), ReadBits(m, p, bits, t);
    if offset >= 0 && count >= 0 then Slice(Word(low, high), offset, count) else 0
  }

  /** Colour uses the secondary index if the selection bit says so, alpha the other one if there are two. */
  predicate ColorSecondary(low: nat, high: nat, m: Mode)
    requires m.IndexSelection().Inside()
  {
    Get(low, high, m.IndexSelection()) == 1
  }

  predicate AlphaSecondary(low: nat, high: nat, m: Mode)
    requires m.IndexSelection().Inside()
  {
    m.IB2 != 0 && Get(low, high, m.IndexSelection()) == 0
  }

  /** Blends the endpoints, swapping red and blue on the way out, then undoes the rotation. */
  function Output(e0: Color, e1: Color, cbits: nat, cindex: nat, abits: nat, aindex: nat, rotation: nat): Color {
    var r := Byte(Interpolate(e0.b, e1.b, cbits, cindex));
    var g := Byte(Interpolate(e0.g, e1.g, cbits, cindex));
    var b := Byte(Interpolate(e0.r, e1.r, cbits, cindex));
    var a := Byte(Interpolate(e0.a, e1.a, abits, aindex));
    if rotation == 1 then Color(r, g, a, b)
    else if rotation == 2 then Color(r, a, b, g)
    else if rotation == 3 then Color(a, g, b, r)
    else Color(r, g, b, a)
  }

  /** `(uint8_t) x` */
  function Byte(x: int): nat {
    x % 256
  }

  function PartitionOf(low: nat, high: nat, m: Mode): (p: nat)
    requires Legal(m)
    ensures p < 64
  {
    HeaderInside(m);
    WordFull(m);
    GetBound(low, high, m.Partition());
    Pow2Monotone(m.PB, 6);
    assert Pow2(6) == 64;
    Get(low, high, m.Partition())
  }

  lemma GetBound(low: nat, high: nat, bf: Bitfield)
    requires bf.Inside()
    ensures Get(low, high, bf) < Pow2(bf.count)
  {
    hide Low, Shl, Shr, Or, Pow2;
    Split(Shr(low, bf.offset), bf.count);
    if bf.offset >= 64 {
      Split(Shr(high, bf.offset - 64), bf.count);
    } else {
      Split(Or(Shr(low, bf.offset), Low(Shl(high, 64 - bf.offset), 64)), bf.count);
    }
  }

  lemma RotationInside(m: Mode)
    requires Legal(m)
    ensures 1 <= m.NS <= 3 && m.Rotation().Inside()
  {
    WordFull(m);
    HeaderInside(m);
  }

  /** Texel t, given the partition and which run of indices colour and alpha use. */
  function TexelWith(low: nat, high: nat, m: Mode, p: nat, cs: bool, as_: bool, t: nat): Color
    requires Legal(m) && p < 64 && t < 16
  {
    RotationInside(m);
    SubsetFits(m, p, t);
    var s := SubsetIndex(m, p, t);
    Output(Endpoint(low, high, m, 2 * s), Endpoint(low, high, m, 2 * s + 1),
           if cs then m.IB2 else m.IB, IndexValue(low, high, m, p, cs, t),
           if as_ then m.IB2 else m.IB, IndexValue(low, high, m, p, as_, t),
           Get(low, high, m.Rotation()))
  }

  /** Texel t of a block of a legal mode. */
  function Texel(low: nat, high: nat, m: Mode, t: nat): Color
    requires Legal(m) && t < 16
  {
    HeaderInside(m);
    TexelWith(low, high, m, PartitionOf(low, high, m), ColorSecondary(low, high, m), AlphaSecondary(low, high, m), t)
  }

  lemma SubsetFits(m: Mode, p: nat, t: nat)
    requires 1 <= m.NS <= 3 && p < 64 && t < 16
    ensures 2 * SubsetIndex(m, p, t) + 1 < m.NumColors()
  {
    hide SubsetIndex;
    OneAnchorEach(m, p, 0);
  }

  /** The run of indices that a cursor walks. */
  ghost predicate Cursor(m: Mode, p: nat, secondary: bool, offset: int, t: nat)
    requires p < 64 && t <= 16
  {
    offset == IndexOffset(m, p, if secondary then m.IB2 else m.IB, t)
  }

  /** colorIndex and alphaIndex: read at the cursor and move it. */
  method ReadIndex(low: nat, high: nat, m: Mode, p: nat, t: nat, secondary: bool, isAnchor: bool, offset: int) returns (index: nat, numBits: nat, next: int)
    requires Word64(low) && Word64(high) && Legal(m) && p < 64 && t < 16 && isAnchor == IsAnchor(m, p, t)
    requires (secondary ==> m.IB2 > 0) && Cursor(m, p, secondary, offset, t)
    ensures index == IndexValue(low, high, m, p, secondary, t) && numBits == (if secondary then m.IB2 else m.IB)
    ensures Cursor(m, p, secondary, next, t + 1)
  {
    hide Legal, Get, IsAnchor, AnchorsBefore, IndexOffset, IndexStart, IndexBits, Mode.PrimaryIndex, Mode.SecondaryIndex, Word, Slice, Word64;
    numBits := if secondary then m.IB2 else m.IB;
    var numReadBits := numBits - if isAnchor then 1 else 0;
    IndexInside(m, p, secondary, t);
    IndexField(m, offset, numReadBits);
    var bf := if secondary then m.SecondaryIndex(offset, numReadBits) else m.PrimaryIndex(offset, numReadBits);
    GetIsSlice(low, high, bf);
    index := Get(low, high, bf);
    next := offset + numReadBits;
    IndicesTile(m, p, numBits, t);
  }

  lemma IndexStartPositive(m: Mode)
    requires Legal(m)
    ensures 0 <= IndexStart(m)
  {
    hide Legal, IndexStart, ColorStart;
    IndexStartInside(m);
  }

  /** Index fields stay inside the word. */
  lemma IndexInside(m: Mode, p: nat, secondary: bool, t: nat)
    requires Legal(m) && p < 64 && t < 16 && (secondary ==> m.IB2 > 0)
    ensures 1 <= m.NS <= 3
    ensures var bits := if secondary then m.IB2 else m.IB;
            var start := if secondary then IndexStart(m) + IndexBits(m, m.IB) else IndexStart(m);
            0 <= ReadBits(m, p, bits, t) && Bitfield(start + IndexOffset(m, p, bits, t), ReadBits(m, p, bits, t)).Inside()
  {
    hide Legal, IsAnchor, IndexStart, IndexOffset;
    WordFull(m);
    IndexStartPositive(m);
    var bits := if secondary then m.IB2 else m.IB;
    IndicesTile(m, p, bits, t);
    OffsetBound(m, p, bits, t);
    OffsetBound(m, p, bits, t + 1);
  }

  /** Texel t of any block; a reserved mode is transparent black. */
  function BlockTexel(low: nat, high: nat, t: nat): Color
    requires t < 16
  {
    if ModeOf(low).IDX < 0 then Color(0, 0, 0, 0)
    else
      ModeLegal(low);
      Texel(low, high, ModeOf(low), t)
  }

  predicate Visible(t: nat, dstX: nat, dstY: nat, dstWidth: nat, dstHeight: nat) {
    t / 4 + dstY < dstHeight && t % 4 + dstX < dstWidth
  }

  /** Decodes a block; texels outside the picture are skipped but still move the cursors. */
  method Decode(low: nat, high: nat, dst: array<Color>, dstX: nat, dstY: nat, dstWidth: nat, dstHeight: nat)
    requires Word64(low) && Word64(high) && dst.Length == 16
    modifies dst
    ensures forall t :: 0 <= t < 16 ==>
              dst[t] == if Visible(t, dstX, dstY, dstWidth, dstHeight) then BlockTexel(low, high, t) else old(dst[t])
  {
    var m := ModeOf(low);
    hide ModeOf, Modes, Texel, Visible, Cursors, Word64, Legal, PartitionOf;
    if m.IDX < 0 {
      var t := 0;
      while t < 16
        invariant 0 <= t <= 16
        invariant forall i :: 0 <= i < t ==> dst[i] == if Visible(i, dstX, dstY, dstWidth, dstHeight) then Color(0, 0, 0, 0) else old(dst[i])
        invariant forall i :: t <= i < 16 ==> dst[i] == old(dst[i])
      {
        if Visible(t, dstX, dstY, dstWidth, dstHeight) {
          dst[t] := Color(0, 0, 0, 0);
        }
        t := t + 1;
      }
      return;
    }
    ModeLegal(low);
    var colorOffset, alphaOffset, t := 0, 0, 0;
    CursorsStart(low, high, m);
    while t < 16
      invariant 0 <= t <= 16
      invariant Cursors(low, high, m, colorOffset, alphaOffset, t)
      invariant forall i :: 0 <= i < t ==> dst[i] == if Visible(i, dstX, dstY, dstWidth, dstHeight) then Texel(low, high, m, i) else old(dst[i])
      invariant forall i :: t <= i < 16 ==> dst[i] == old(dst[i])
    {
      var c;
      c, colorOffset, alphaOffset := DecodeTexel(low, high, m, t, colorOffset, alphaOffset);
      if Visible(t, dstX, dstY, dstWidth, dstHeight) {
        dst[t] := c;
      }
      t := t + 1;
    }
  }

  lemma ModeLegal(low: nat)
    requires ModeOf(low).IDX >= 0
    ensures Legal(ModeOf(low))
  {
  }

  ghost predicate Cursors(low: nat, high: nat, m: Mode, c: int, a: int, t: nat)
    requires Legal(m) && t <= 16
  {
    HeaderInside(m);
    var p := PartitionOf(low, high, m);
    Cursor(m, p, ColorSecondary(low, high, m), c, t) && Cursor(m, p, AlphaSecondary(low, high, m), a, t)
  }

  lemma CursorsStart(low: nat, high: nat, m: Mode)
    requires Legal(m)
    ensures Cursors(low, high, m, 0, 0, 0)
  {
    HeaderInside(m);
    hide Get, PartitionOf, Legal;
  }

  method DecodeTexel(low: nat, high: nat, m: Mode, t: nat, colorOffset: int, alphaOffset: int) returns (c: Color, colorNext: int, alphaNext: int)
    requires Word64(low) && Word64(high) && Legal(m) && t < 16 && Cursors(low, high, m, colorOffset, alphaOffset, t)
    ensures c == Texel(low, high, m, t) && Cursors(low, high, m, colorNext, alphaNext, t + 1)
  {
    hide Legal, Get, Cursor, PartitionOf, Word64, TexelWith, ColorSecondary, AlphaSecondary;
    HeaderInside(m);
    SelectionBit(low, high, m);
    var p, cs, as_ := PartitionOf(low, high, m), ColorSecondary(low, high, m), AlphaSecondary(low, high, m);
    c, colorNext, alphaNext := DecodeWith(low, high, m, p, cs, as_, t, colorOffset, alphaOffset);
  }

  method DecodeWith(low: nat, high: nat, m: Mode, p: nat, cs: bool, as_: bool, t: nat, colorOffset: int, alphaOffset: int)
    returns (c: Color, colorNext: int, alphaNext: int)
    requires Word64(low) && Word64(high) && Legal(m) && p < 64 && t < 16 && (cs || as_ ==> m.IB2 > 0)
    requires Cursor(m, p, cs, colorOffset, t) && Cursor(m, p, as_, alphaOffset, t)
    ensures c == TexelWith(low, high, m, p, cs, as_, t)
    ensures Cursor(m, p, cs, colorNext, t + 1) && Cursor(m, p, as_, alphaNext, t + 1)
  {
    hide Legal, Get, Cursor, IndexValue, Endpoint, Output, SubsetIndex, AnchorIndex, Word64, Mode.Rotation, Bitfield.Inside;
    RotationInside(m);
    var subset := SubsetIndex(m, p, t);
    SubsetFits(m, p, t);
    var isAnchor := AnchorIndex(m, p, subset) == t;
    var ci, cbits, ai, abits;
    ci, cbits, colorNext := ReadIndex(low, high, m, p, t, cs, isAnchor, colorOffset);
    ai, abits, alphaNext := ReadIndex(low, high, m, p, t, as_, isAnchor, alphaOffset);
    c := Output(Endpoint(low, high, m, 2 * subset), Endpoint(low, high, m, 2 * subset + 1), cbits, ci, abits, ai, Get(low, high, m.Rotation()));
  }

  lemma SelectionBit(low: nat, high: nat, m: Mode)
    requires Legal(m) && m.IndexSelection().Inside()
    ensures ColorSecondary(low, high, m) ==> m.IB2 > 0
    ensures AlphaSecondary(low, high, m) ==> m.IB2 > 0
  {
    WordFull(m);
    hide Legal, Get;
    GetBound(low, high, m.IndexSelection());
  }
}
