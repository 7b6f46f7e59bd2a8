/** Which BC6H blocks decode to finite half floats: all unsigned ones, and all but a few signed ones. */
module Bc6hFinite {
  import opened Bits
  import opened Bc6hLayout
  import opened Bc6h
  import Bc6hPlaces
  import Bc7

  // ----- one channel

  /** Unsigned blocks decode to finite, non-negative half floats. */
  lemma UnsignedFinite(blend: int)
    requires 0 <= blend <= 0xffff
    ensures 0 <= ToHalf(blend, false) <= 0x7bff && FiniteHalf(ToHalf(blend, false))
  {
  }

  /** So do signed blocks, unless the blend is -32768, which becomes negative infinity. */
  lemma SignedFinite(blend: int)
    requires -0x8000 <= blend <= 0x7fff
    ensures FiniteHalf(ToHalf(blend, true)) <==> blend != -0x8000
    ensures blend == -0x8000 ==> ToHalf(blend, true) == 0xfc00
  {
    hide Or;
    if blend < 0 {
      var n: nat := -blend;
      var m: nat := n * 31 / 32;
      assert m < 0x7c00 <==> n < 0x8000;
      OrDisjointBit(m);
    }
  }

  lemma OrDisjointBit(m: nat)
    requires m < 0x8000
    ensures Or(m, 0x8000) == m + 0x8000
  {
    hide Or, Shl, Pow2;
    Pow2Values();
    ShlOne(15);
    OrDisjoint(m, 1, 15);
  }

  lemma MixBetween(e0: int, e1: int, w: int, lo: int, hi: int)
    requires 0 <= w <= 64 && lo <= e0 <= hi && lo <= e1 <= hi
    ensures lo <= Mix(e0, e1, w) <= hi
  {
    assert (64 - w) * e0 + w * e1 == 64 * lo + (64 - w) * (e0 - lo) + w * (e1 - lo);
    assert (64 - w) * e0 + w * e1 == 64 * hi - (64 - w) * (hi - e0) - w * (hi - e1);
    assert (64 - w) * (e0 - lo) >= 0 && w * (e1 - lo) >= 0 && (64 - w) * (hi - e0) >= 0 && w * (hi - e1) >= 0;
  }

  lemma UnsignedChannelFinite(m: ModeDesc, e: seq<nat>, first: nat, c: nat, index: nat)
    requires |e| == 13 && first < 3 && c < 3 && 0 < m.endpointBits <= 16 && forall k :: 0 <= k < 13 ==> e[k] < 65536
    requires m.hasDelta ==> m.deltaR > 0 && m.deltaG > 0 && m.deltaB > 0
    ensures 0 <= ChannelOf(m, e, first, c, index, false) <= 0x7bff && FiniteHalf(ChannelOf(m, e, first, c, index, false))
  {
    hide Resolve, Mix, ToHalf;
    WeightBound(IndexBits(m), index);
    hide Bc7.Weight;
    ChannelBound(m, e, first, c);
    ChannelBound(m, e, first + 1, c);
    var e0, e1, w := EndpointValue(m, e, first, c, false), EndpointValue(m, e, first + 1, c, false), Bc7.Weight(IndexBits(m), index);
    MixBetween(e0, e1, w, 0, 0xffff);
    UnsignedFinite(Mix(e0, e1, w));
  }

  lemma WeightBound(bits: nat, index: nat)
    ensures Bc7.Weight(bits, index) <= 64
  {
  }

  lemma ChannelBound(m: ModeDesc, e: seq<nat>, ep: nat, c: nat)
    requires |e| == 13 && ep < 4 && c < 3 && 0 < m.endpointBits <= 16 && forall k :: 0 <= k < 13 ==> e[k] < 65536
    requires m.hasDelta ==> m.deltaR > 0 && m.deltaG > 0 && m.deltaB > 0
    ensures 0 <= EndpointValue(m, e, ep, c, false) <= 0xffff
  {
    hide Low, Xor, Shl, Shr, Pow2;
    Split(e[c] + Word16(if m.hasDelta then ExtendSign(e[3 * ep + c], DeltaBits(m, c)) else 0), m.endpointBits);
    Pow2Monotone(m.endpointBits, 16);
    Pow2Values();
  }

  /** A blend is -32768 exactly when both ends are nearly there. */
  lemma MixLowest(e0: int, e1: int, w: int)
    requires 0 <= w <= 64 && -0x8000 <= e0 && -0x8000 <= e1
    ensures Mix(e0, e1, w) == -0x8000 <==> (64 - w) * (e0 + 0x8000) + w * (e1 + 0x8000) < 32
  {
    var s := (64 - w) * (e0 + 0x8000) + w * (e1 + 0x8000);
    assert (64 - w) * e0 + w * e1 == s - 64 * 0x8000;
    assert (64 - w) * (e0 + 0x8000) >= 0 && w * (e1 + 0x8000) >= 0;
  }

  lemma SignedEndpoint(m: ModeDesc, e: seq<nat>, ep: nat, c: nat)
    requires |e| == 13 && ep < 4 && c < 3 && 0 < m.endpointBits <= 16
    requires m.hasDelta ==> m.deltaR > 0 && m.deltaG > 0 && m.deltaB > 0
    ensures -0x8000 <= EndpointValue(m, e, ep, c, true) <= 0x7fff
    ensures m.endpointBits < 16 ==> EndpointValue(m, e, ep, c, true) != -0x8000
  {
    hide Low, Xor, UnquantizeSigned;
    var r := Resolve(e[c], e[3 * ep + c], ep == 0, m.hasDelta, true, m.endpointBits, DeltaBits(m, c));
    UnquantizedSignedRange(Signed(r, 16), m.endpointBits);
    Pow2Values();
  }

  lemma SignedChannelFinite(m: ModeDesc, e: seq<nat>, first: nat, c: nat, index: nat)
    requires |e| == 13 && first < 3 && c < 3 && 0 < m.endpointBits <= 16
    requires m.hasDelta ==> m.deltaR > 0 && m.deltaG > 0 && m.deltaB > 0
    ensures m.endpointBits < 16 ==> FiniteHalf(ChannelOf(m, e, first, c, index, true))
    ensures var e0, e1 := EndpointValue(m, e, first, c, true), EndpointValue(m, e, first + 1, c, true);
            var w := Bc7.Weight(IndexBits(m), index);
            && (!FiniteHalf(ChannelOf(m, e, first, c, index, true)) <==> (64 - w) * (e0 + 0x8000) + w * (e1 + 0x8000) < 32)
            && (!FiniteHalf(ChannelOf(m, e, first, c, index, true)) ==> ChannelOf(m, e, first, c, index, true) == 0xfc00)
  {
    hide Mix, ToHalf, EndpointValue, Bc7.Weight, FiniteHalf;
    WeightBound(IndexBits(m), index);
    SignedEndpoint(m, e, first, c);
    SignedEndpoint(m, e, first + 1, c);
    var e0, e1, w := EndpointValue(m, e, first, c, true), EndpointValue(m, e, first + 1, c, true), Bc7.Weight(IndexBits(m), index);
    MixBetween(e0, e1, w, if m.endpointBits < 16 then -0x7fff else -0x8000, 0x7fff);
    MixLowest(e0, e1, w);
    SignedFinite(Mix(e0, e1, w));
  }

  // ----- header values

  /** No header value is wider than the mode says. */
  lemma HeaderValue(i: nat, word: nat, t: Target)
    requires i < 14
    ensures Size(Modes(i), t) <= 16 && Header(i, word)[Index(t)] < Pow2(Size(Modes(i), t))
  {
    hide Bit, Fields, Modes, Fits, Parse, Size, HeaderBits, Shr, Shl, Low, Pow2, WhereFrom;
    SizeNarrow(i, t);
    var n := Size(Modes(i), t);
    var x := Header(i, word)[Index(t)];
    forall b | n <= b < 16
      ensures Bit(x, b) == 0
    {
      HeaderBit(i, Shr(word, if i < 2 then 2 else 5), t, b);
    }
    Pow2Values();
    Narrowed(x, n, 16);
  }

  lemma SizeNarrow(i: nat, t: Target)
    requires i < 14
    ensures Size(Modes(i), t) <= 16
  {
  }

  /** A value of m bits whose bits from n on are clear has n bits. */
  lemma {:induction false} Narrowed(x: nat, n: nat, m: nat)
    requires n <= m && x < Pow2(m) && forall b :: n <= b < m ==> Bit(x, b) == 0
    ensures x < Pow2(n)
    decreases m
  {
    if n < m {
      hide Bit, Pow2;
      var k: nat := m - 1;
      Pow2Step(k);
      if x >= Pow2(k) {
        TopBit(x, k);
        assert false;
      } else {
        Narrowed(x, n, k);
      }
    }
  }

  lemma TopBit(x: nat, k: nat)
    requires Pow2(k) <= x < 2 * Pow2(k)
    ensures Bit(x, k) == 1
  {
    hide Bit, Shl, Pow2;
    ShlOne(k);
    BitSplit(1, x - Pow2(k), k, k);
    BitOne();
  }

  lemma BitOne()
    ensures Bit(1, 0) == 1
  {
  }

  // ----- whole blocks

  function Channel(color: Color, c: nat): int {
    if c == 0 then color.r else if c == 1 then color.g else color.b
  }

  /** A channel of a texel, from the header values. */
  lemma ChannelIs(i: nat, m: ModeDesc, e: seq<nat>, t: nat, c: nat, index: nat, isSigned: bool)
    requires t < 16 && c < 3 && i < 14 && m == Modes(i) && Sound(m) && |e| == 13 && e[12] < 64
    ensures Channel(Blended(i, e, t, index, isSigned), c) == ChannelOf(m, e, FirstEndpoint(m, e[12], t), c, index, isSigned)
  {
    hide Modes, ChannelOf, FirstEndpoint;
  }

  predicate Sound(m: ModeDesc) {
    && (m.partitionCount == 1 || m.partitionCount == 2) && 0 < m.endpointBits <= 16
    && (m.hasDelta ==> m.deltaR > 0 && m.deltaG > 0 && m.deltaB > 0)
  }

  lemma ModeOfBlock(word: nat) returns (i: nat, m: ModeDesc, e: seq<nat>)
    requires ModeOf(word) >= 0
    ensures i < 14 && ModeOf(word) == i && m == Modes(i) && Sound(m)
    ensures |e| == 13 && e[12] < 64 && e == Header(i, word) && forall k :: 0 <= k < 13 ==> e[k] < 65536
  {
    hide Modes, Fields, ModeOf, ModeBits, Header;
    ModeFound(word);
    i := ModeOf(word);
    ModeSane(i);
    m, e := Modes(i), Header(i, word);
  }

  /** Whatever the bits of an unsigned block, every channel of every texel is a finite half float. */
  lemma UnsignedBlockFinite(word: nat, t: nat, c: nat)
    requires t < 16 && c < 3
    ensures var h := Channel(BlockTexel(word, t, false), c); 0 <= h <= 0x7bff && FiniteHalf(h)
  {
    hide Modes, ModeOf, Header, IndexOf, ChannelOf, FirstEndpoint, BlockTexel, Blended;
    if ModeOf(word) < 0 {
      ReservedBlack(word, false);
    } else {
      var i, m, e := ModeOfBlock(word);
      TexelIs(i, word, e, t, false);
      ChannelIs(i, m, e, t, c, IndexOf(i, word, e[12], t), false);
      UnsignedChannelFinite(m, e, FirstEndpoint(m, e[12], t), c, IndexOf(i, word, e[12], t));
    }
  }

  /** The ends of a channel in the mode of 16-bit endpoints: the base, and the base plus a four-bit delta. */
  function Base(e: seq<nat>, c: nat): int
    requires |e| == 13 && c < 3
  {
    Signed(e[c], 16)
  }

  function Moved(e: seq<nat>, c: nat): int
    requires |e| == 13 && c < 3
  {
    Signed((Base(e, c) + Signed(e[3 + c], 4)) % 65536, 16)
  }

  /** Channel c of texel t is blended from values that weigh less than half a step above -32768. */
  predicate Bottom(word: nat, t: nat, c: nat)
    requires t < 16 && c < 3
  {
    var e := Header(9, word);
    var w := Bc7.Weight(4, IndexOf(9, word, e[12], t));
    (64 - w) * (Base(e, c) + 0x8000) + w * (Moved(e, c) + 0x8000) < 32
  }

  /**
   * A channel of a signed block is a finite half float unless the block has the mode of 16-bit endpoints
   * and the blend rounds down to -32768; then, and only then, it is negative infinity.
   */
  lemma SignedBlockFinite(word: nat, t: nat, c: nat)
    requires t < 16 && c < 3
    ensures var h := Channel(BlockTexel(word, t, true), c);
            && (FiniteHalf(h) <==> !(ModeOf(word) == 9 && Bottom(word, t, c)))
            && (!FiniteHalf(h) ==> h == 0xfc00)
  {
    hide Modes, ModeOf, Header, IndexOf, ChannelOf, FirstEndpoint, Bc7.Weight, EndpointValue, Base, Moved, BlockTexel, Blended;
    if ModeOf(word) < 0 {
      ReservedBlack(word, true);
    } else {
      var i, m, e := ModeOfBlock(word);
      TexelIs(i, word, e, t, true);
      ChannelIs(i, m, e, t, c, IndexOf(i, word, e[12], t), true);
      SignedChannelFinite(m, e, FirstEndpoint(m, e[12], t), c, IndexOf(i, word, e[12], t));
      WideMode(i, e[12], t);
      if i == 9 {
        DeltaBound(word, c);
        WideEndpoints(e, c);
      }
    }
  }

  const WIDE: ModeDesc := ModeDesc(15, true, 1, 16, 4, 4, 4)

  /** Only one mode has 16-bit endpoints, and it has one subset. */
  lemma WideMode(i: nat, p: nat, t: nat)
    requires i < 14 && p < 64 && t < 16
    ensures Modes(i).endpointBits < 16 <==> i != 9
    ensures i == 9 ==> Modes(i) == WIDE && IndexBits(WIDE) == 4 && FirstEndpoint(WIDE, p, t) == 0
  {
  }

  lemma DeltaBound(word: nat, c: nat)
    requires c < 3
    ensures Header(9, word)[3 + c] < 16
  {
    hide Header, Modes, Size, Fields, Pow2;
    var t := if c == 0 then R1 else if c == 1 then G1 else B1;
    HeaderValue(9, word, t);
    WideMode(9, 0, 0);
    WideDelta(t);
    Pow2Values();
  }

  lemma WideDelta(t: Target)
    requires t in {R1, G1, B1}
    ensures Size(WIDE, t) == 4 && 3 <= Index(t) < 6
  {
  }

  lemma WideEndpoints(e: seq<nat>, c: nat)
    requires |e| == 13 && c < 3 && e[c] < 65536 && e[3 + c] < 16
    ensures EndpointValue(WIDE, e, 0, c, true) == Base(e, c) && EndpointValue(WIDE, e, 1, c, true) == Moved(e, c)
  {
    hide Resolve, Signed, Pow2;
    Pow2Values();
    SignedRange(e[c]);
    SignedRange((Base(e, c) + Signed(e[3 + c], 4)) % 65536);
    BaseResolved(e[c]);
    SignedDeltaAdds(e[c], e[3 + c], 16, 4);
    SignedAgain(Base(e, c));
    SignedAgain(Moved(e, c));
  }

  lemma BaseResolved(base: nat)
    requires base < 65536
    ensures Resolve(base, base, true, true, true, 16, 4) == Word16(Signed(base, 16))
  {
    hide ExtendSign, Word16;
    Pow2Values();
    ExtendSignIs(base, 16);
  }

  lemma SignedRange(v: nat)
    requires v < 65536
    ensures -0x8000 <= Signed(v, 16) <= 0x7fff
  {
    Pow2Values();
  }

  lemma SignedAgain(x: int)
    requires -0x8000 <= x <= 0x7fff
    ensures Signed(Word16(x), 16) == x
  {
    Pow2Values();
  }

  // ----- a block that is not finite

  /** Mode 15, all other bits clear but the sign of the red base. */
  const DARKEST: nat := 15 + 0x80_0000_0000

  lemma DarkestWord()
    ensures Bc7.Word64(DARKEST) && Bc7.Word(DARKEST, 0) == DARKEST
    ensures Low(DARKEST, 5) == 15 && Shr(DARKEST, 5) == Pow2(34) && ModeOf(DARKEST) == 9
  {
    hide Low, Shr, Shl, Bit, Pow2;
    ShlZero(64);
    Pow2Values();
    Pow2Product(32, 2);
    Pow2Monotone(40, 64);
    Pow2Product(32, 8);
    ShlPow2(34, 5);
    Pow2Product(32, 7);
    ShlSplit(Pow2(34), 15, 5);
    LowTwo(DARKEST);
  }

  lemma {:induction false} SingleBit(n: nat, i: nat)
    ensures Bit(Pow2(n), i) == if i == n then 1 else 0
  {
    hide Shl, Pow2, Bit;
    ShlOne(n);
    BitZero(i);
    Pow2Step(n);
    BitSplit(1, 0, n, i);
    if i >= n {
      BitOfOne(i - n);
    }
  }

  lemma BitOfOne(i: nat)
    ensures Bit(1, i) == if i == 0 then 1 else 0
  {
    if i > 0 {
      BitZero(i - 1);
    }
  }

  /** The sign of the red base is the only header bit that is set. */
  lemma DarkestHeader(i: nat, word: nat, t: Target, b: nat)
    requires i == 9 && b < 16 && Shr(word, 5) == Pow2(34)
    ensures Bit(Header(i, word)[Index(t)], b) == if t == R0 && b == 15 then 1 else 0
  {
    hide Bit, Pow2, Shr, Fields, Modes, Parse, Covers, Slot, Where, Fits, Size, HeaderBits, Index, Sum, MaskSum, SizeSum, Narrow;
    HeaderBit(i, Shr(word, 5), t, b);
    ExactlyOnce(i, t, b);
    ExactlyOnce(i, R0, 15);
    ModeSums(i);
    SignOfRed(i);
    SingleBit(34, WhereFrom(i, t, b));
    if (t != R0 || b != 15) && b < Size(Modes(i), t) {
      WhereInjective(Fields(i), t, b, R0, 15);
      WhereInside(Fields(i), t, b);
    }
  }

  lemma SignOfRed(i: nat)
    requires i == 9
    ensures Where(Fields(i), R0, 15) == 34 && Size(Modes(i), R0) == 16
  {
    hide Fields, Modes, Where, Size;
    Bc6hPlaces.PlaceIs(i, 0, 15);
    Bc6hPlaces.WidthIs(i, 0);
  }

  /** In the signed form of this block red is negative infinity throughout. */
  lemma NegativeInfinity(t: nat)
    requires t < 16
    ensures Bc7.Word64(DARKEST) && BlockTexel(Bc7.Word(DARKEST, 0), t, true).r == 0xfc00
  {
    hide Bit, Header, BlockTexel, ModeOf, IndexOf, Bc7.Weight, Pow2, FiniteHalf, Bc7.Word, Bc7.Word64, Low, Shr;
    var word: nat := DARKEST;
    DarkestWord();
    DarkestEnds(9, word);
    SignedBlockFinite(word, t, 0);
    assert Bottom(word, t, 0);
  }

  lemma DarkestEnds(i: nat, word: nat)
    requires i == 9 && Shr(word, 5) == Pow2(34)
    ensures var e := Header(i, word); Base(e, 0) == -0x8000 && Moved(e, 0) == -0x8000
  {
    hide Bit, Header, Pow2, Shr, Low;
    var e := Header(i, word);
    forall b | 0 <= b < 16
      ensures Bit(e[0], b) == Bit(Pow2(15), b) && Bit(e[3], b) == Bit(0, b)
    {
      DarkestHeader(i, word, R0, b);
      DarkestHeader(i, word, R1, b);
      SingleBit(15, b);
      BitZero(b);
    }
    Pow2Values();
    BitsDetermine(e[0], Pow2(15), 16);
    BitsDetermine(e[3], 0, 16);
  }
}
