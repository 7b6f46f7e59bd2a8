/**
 * A BC6H texel as ARB_texture_compression_bptc describes it: header values gathered bit by bit from their
 * numbered places, deltas added in two's complement, unquantization and blending as divisions, the result
 * scaled to a half float. The decoder is shown to agree on every word, signed and unsigned.
 */
module Bc6hSpec {
  import opened Arith
  import opened Bits
  import opened BptcTables
  import opened BptcMasks
  import opened Bc6hLayout
  import opened Bc6hPlaces
  import opened Bc6h
  import opened Bc6hFinite
  import Bc7
  import Bc7Spec

  // ----- the mode

  /** Two bits 00 and 01, or five bits; -1 for the four reserved patterns. */
  function ModeNumber(word: nat): int {
    if word % 4 < 2 then word % 4
    else
      match word % 32
      case 2 => 2 case 3 => 3 case 6 => 4 case 7 => 5 case 10 => 6 case 11 => 7 case 14 => 8 case 15 => 9
      case 18 => 10 case 22 => 11 case 26 => 12 case 30 => 13 case _ => -1
  }

  lemma ModeAgrees(word: nat)
    ensures ModeOf(word) == ModeNumber(word)
  {
    hide Low, Bit, Pow2;
    LowIsMod(word, 2);
    LowIsMod(word, 5);
    LowTwo(word);
    Pow2Values();
    assert word % 4 == word % 32 % 4 by { Residue(word); }
    var r := word % 32;
    assert Bit(word, 1) == r / 2 % 2;
    ModePattern(r);
  }

  lemma Residue(word: nat)
    ensures word % 4 == word % 32 % 4
  {
    DivModUnique(word, 4, 8 * (word / 32) + word % 32 / 4, word % 32 % 4);
  }

  lemma ModePattern(r: nat)
    requires r < 32
    ensures r / 2 % 2 == 0 <==> r % 4 < 2
    ensures r % 4 < 2 ==> ModeToIndex(r % 4) == r % 4
    ensures r % 4 >= 2 ==>
              ModeToIndex(r) == match r
                                case 2 => 2 case 3 => 3 case 6 => 4 case 7 => 5 case 10 => 6 case 11 => 7 case 14 => 8 case 15 => 9
                                case 18 => 10 case 22 => 11 case 26 => 12 case 30 => 13 case _ => -1
  {
  }

  // ----- header values

  /** The first n bits of value k. */
  function Gathered(word: nat, i: nat, k: nat, n: nat): nat {
    if n == 0 then 0 else Gathered(word, i, k, n - 1) + Shl(PlaceBit(word, i, k, n - 1), n - 1)
  }

  function PlaceBit(word: nat, i: nat, k: nat, b: nat): (r: nat)
    ensures r <= 1
  {
    if Place(i, k, b) < 0 then 0 else Bit(word, Place(i, k, b))
  }

  function Value(word: nat, i: nat, k: nat): nat { Gathered(word, i, k, ValueWidth(i, k)) }

  lemma {:induction false} GatheredBits(word: nat, i: nat, k: nat, n: nat, b: nat)
    ensures Gathered(word, i, k, n) < Pow2(n)
    ensures Bit(Gathered(word, i, k, n), b) == if b < n then PlaceBit(word, i, k, b) else 0
  {
    hide Bit, Shl, PlaceBit, Pow2;
    if n == 0 {
      BitZero(b);
      Bc7Spec.SmallPowers();
    } else {
      GatheredBits(word, i, k, n - 1, b);
      var top := PlaceBit(word, i, k, n - 1);
      BitSplit(top, Gathered(word, i, k, n - 1), n - 1, b);
      ShlMonotone(top, 1, n - 1);
      ShlOne(n - 1);
      Pow2Step(n - 1);
      if b >= n - 1 {
        SmallBit(top, b - (n - 1));
      }
    }
  }

  lemma SmallBit(x: nat, b: nat)
    requires x <= 1
    ensures Bit(x, b) == if b == 0 then x else 0
  {
    if b > 0 {
      BitZero(b - 1);
    }
  }

  /** The decoder gathers the same values. */
  lemma ValueAgrees(i: nat, word: nat, k: nat)
    requires i < 14 && k < 13
    ensures Header(i, word)[k] == Value(word, i, k) < Pow2(ValueWidth(i, k))
  {
    hide Bit, Header, Gathered, Pow2, ValueWidth, Place;
    var x, y := Header(i, word)[k], Value(word, i, k);
    WidthIs(i, k);
    forall b | 0 <= b < 16
      ensures Bit(x, b) == Bit(y, b)
    {
      ValueBit(i, word, k, b);
      GatheredBits(word, i, k, ValueWidth(i, k), b);
    }
    GatheredBits(word, i, k, ValueWidth(i, k), 0);
    Pow2Values();
    Pow2Monotone(ValueWidth(i, k), 16);
    BitsDetermine(x, y, 16);
  }

  lemma ValueBit(i: nat, word: nat, k: nat, b: nat)
    requires i < 14 && k < 13 && b < 16
    ensures Bit(Header(i, word)[k], b) == if b < ValueWidth(i, k) then PlaceBit(word, i, k, b) else 0
  {
    hide Bit, Parse, Fields, Modes, Fits, HeaderBits, Where, Size, Shr, ValueWidth, Place, Slot, Covers, Index, TargetAt, Sum, MaskSum, SizeSum, Narrow;
    var t := TargetAt(k);
    IndexOfTarget(k);
    WidthIs(i, k);
    HeaderBit(i, Shr(word, ModeLength(i)), t, b);
    if b < ValueWidth(i, k) {
      PlaceIs(i, k, b);
      ExactlyOnce(i, t, b);
      ModeSums(i);
      WhereInside(Fields(i), t, b);
      BitShr(word, ModeLength(i), Where(Fields(i), t, b));
    }
  }

  lemma IndexOfTarget(k: nat)
    requires k < 13
    ensures Index(TargetAt(k)) == k
  {
  }

  // ----- endpoints

  /** The two modes without deltas give every endpoint in full. */
  predicate HasDelta(i: nat) { i != 3 && i != 13 }

  function TwosComplement(v: nat, n: nat): int {
    if 2 * v < Pow2(n) then v else v - Pow2(n)
  }

  /** Channel c of endpoint ep: its own value, or the base plus a signed delta, in as many bits as the base. */
  function EndpointOf(word: nat, i: nat, ep: nat, c: nat, isSigned: bool): int {
    var n := BaseWidth(i);
    var v := if ep == 0 || !HasDelta(i) then Value(word, i, 3 * ep + c)
             else (Value(word, i, c) + TwosComplement(Value(word, i, 3 * ep + c), DeltaWidth(i, c))) % Pow2(n);
    if isSigned then TwosComplement(v, n) else v
  }

  /** The middle of the x-th of 2^n parts of the range, but for the ends; wide values stay as they are. */
  function Unquantized(x: int, n: nat, isSigned: bool): int
    requires 0 < n
  {
    if x == 0 then 0
    else if !isSigned then
      if n >= 15 then x else if x == Pow2(n) - 1 then 65535 else (65536 * x + 32768) / Pow2(n)
    else
      var a := if x < 0 then -x else x;
      var u := if n >= 16 then a else if a >= Pow2(n - 1) - 1 then 32767 else (32768 * a + 16384) / Pow2(n - 1);
      if x < 0 then -u else u
  }

  lemma TwosIsSigned(v: nat, n: nat)
    requires n > 0 && v < Pow2(n)
    ensures TwosComplement(v, n) == Signed(v, n) && 0 <= Signed(v, n) + Pow2(n - 1) && Signed(v, n) < Pow2(n - 1)
  {
    hide Pow2;
    Pow2Step(n - 1);
  }

  lemma ShrIsDiv(x: nat, n: nat)
    ensures Shr(x, n) == x / Pow2(n)
  {
    hide Low, Shl, Shr, Pow2;
    Split(x, n);
    ShlIsProduct(Shr(x, n), n);
    DivModUnique(x, Pow2(n), Shr(x, n), Low(x, n));
  }

  lemma UnsignedAgrees(v: nat, n: nat)
    requires 0 < n <= 16 && v < Pow2(n)
    ensures UnquantizeUnsigned(v, n) == Unquantized(v, n, false)
  {
    hide Shl, Shr, Pow2;
    if n < 15 && 0 < v < Pow2(n) - 1 {
      MiddleAgrees(v, n);
    }
  }

  lemma MiddleAgrees(v: nat, n: nat)
    requires 0 < n < 15 && v < Pow2(n) - 1
    ensures Word16(Shr(Shl(v, 16) + 0x8000, n)) == (65536 * v + 32768) / Pow2(n)
  {
    hide Shl, Shr, Pow2;
    UnquantizedRange(v, n);
    ShlIsProduct(v, 16);
    Pow2Values();
    ShrIsDiv(Shl(v, 16) + 0x8000, n);
  }

  lemma SignedAgrees(x: int, n: nat)
    requires 0 < n <= 16
    ensures UnquantizeSigned(x, n) == Unquantized(x, n, true)
  {
    hide Shl, Shr, Pow2;
    var a: nat := if x < 0 then -x else x;
    ShlIsProduct(a, 15);
    Pow2Values();
    ShrIsDiv(Shl(a, 15) + 0x4000, n - 1);
  }

  lemma TableAgrees(i: nat)
    requires i < 14
    ensures var m := Modes(i);
            && m.hasDelta == HasDelta(i) && m.endpointBits == BaseWidth(i) && 0 < BaseWidth(i) <= 16
            && m.partitionCount == (if OneSubset(i) then 1 else 2)
            && (HasDelta(i) ==> m.deltaR == DeltaWidth(i, 0) > 0 && m.deltaG == DeltaWidth(i, 1) > 0 && m.deltaB == DeltaWidth(i, 2) > 0)
            && (HasDelta(i) ==> DeltaWidth(i, 0) <= 16 && DeltaWidth(i, 1) <= 16 && DeltaWidth(i, 2) <= 16)
  {
    match i { case 0 => case 1 => case 2 => case 3 => case 4 => case 5 => case 6 => case 7 => case 8 => case 9 => case 10 => case 11 => case 12 => case _ => }
  }

  lemma WidthsOf(i: nat, ep: nat, c: nat)
    requires i < 14 && ep < 4 && c < 3
    ensures ValueWidth(i, c) == BaseWidth(i)
    ensures ep > 0 && HasDelta(i) ==> ValueWidth(i, 3 * ep + c) <= DeltaWidth(i, c)
    ensures !HasDelta(i) ==> ValueWidth(i, 3 * ep + c) <= BaseWidth(i)
  {
    hide BaseWidth, DeltaWidth;
    assert (3 * ep + c) % 3 == c;
  }

  /** The resolved channel as the 16-bit variable holds it. */
  lemma ResolvedUnsigned(base: nat, raw: nat, full: bool, bits: nat, deltaBits: nat)
    requires 0 < bits <= 16 && (!full ==> 0 < deltaBits <= 16 && base < Pow2(bits) && raw < Pow2(deltaBits)) && (full ==> raw < Pow2(bits))
    ensures var v := if full then raw else (base + TwosComplement(raw, deltaBits)) % Pow2(bits);
            0 <= v < Pow2(bits) && Resolve(base, raw, full, !full, false, bits, deltaBits) == v
  {
    hide Pow2, Low, Xor, TwosComplement;
    if !full {
      DeltaAdds(base, raw, bits, deltaBits);
      TwosIsSigned(raw, deltaBits);
    }
  }

  lemma ResolvedSigned(base: nat, raw: nat, full: bool, bits: nat, deltaBits: nat)
    requires 0 < bits <= 16 && (!full ==> 0 < deltaBits <= 16 && base < Pow2(bits) && raw < Pow2(deltaBits)) && (full ==> raw < Pow2(bits))
    ensures var v := if full then raw else (base + TwosComplement(raw, deltaBits)) % Pow2(bits);
            0 <= v < Pow2(bits) && Signed(Resolve(base, raw, full, !full, true, bits, deltaBits), 16) == TwosComplement(v, bits)
  {
    hide Pow2, Low, Xor, TwosComplement, Signed, Word16, ExtendSign;
    var v := if full then raw else (base + TwosComplement(raw, deltaBits)) % Pow2(bits);
    if full {
      ExtendSignIs(raw, bits);
    } else {
      SignedDeltaAdds(base, raw, bits, deltaBits);
      TwosIsSigned(raw, deltaBits);
      SameResidue(base, Signed(raw, deltaBits), bits);
    }
    TwosIsSigned(v, bits);
    Pow2Monotone(bits - 1, 15);
    Pow2Values();
    SignedAgain(Signed(v, bits));
  }

  /** Sign extension of the base does not change the sum modulo its width. */
  lemma SameResidue(base: nat, d: int, bits: nat)
    requires 0 < bits && base < Pow2(bits)
    ensures (Signed(base, bits) + d) % Pow2(bits) == (base + d) % Pow2(bits)
  {
    hide Pow2;
    if Signed(base, bits) != base {
      ModShift(base + d, Pow2(bits), -1);
    }
  }

  lemma ResolveForm(base: nat, raw: nat, isBase: bool, hasDelta: bool, isSigned: bool, bits: nat, deltaBits: nat)
    requires bits > 0 && (hasDelta ==> deltaBits > 0)
    ensures var full := isBase || !hasDelta;
            Resolve(base, raw, isBase, hasDelta, isSigned, bits, deltaBits) == Resolve(base, raw, full, !full, isSigned, bits, deltaBits)
  {
    hide Low, ExtendSign, Word16;
  }

  lemma EndpointAgrees(i: nat, word: nat, ep: nat, c: nat, isSigned: bool, m: ModeDesc, e: seq<nat>)
    requires i < 14 && ep < 4 && c < 3 && Sound(m) && m == Modes(i) && |e| == 13
    requires e[c] == Value(word, i, c) < Pow2(ValueWidth(i, c))
    requires e[3 * ep + c] == Value(word, i, 3 * ep + c) < Pow2(ValueWidth(i, 3 * ep + c))
    ensures 0 < BaseWidth(i) <= 16
    ensures EndpointValue(m, e, ep, c, isSigned) == Unquantized(EndpointOf(word, i, ep, c, isSigned), BaseWidth(i), isSigned)
  {
    hide Modes, Header, Value, ValueWidth, BaseWidth, DeltaWidth, Resolve, Pow2, TwosComplement, UnquantizeSigned, UnquantizeUnsigned, Unquantized,
         Signed, HasDelta;
    TableAgrees(i);
    WidthsOf(i, ep, c);
    var n, d := BaseWidth(i), DeltaBits(m, c);
    var full := ep == 0 || !m.hasDelta;
    if full {
      Pow2Monotone(ValueWidth(i, 3 * ep + c), n);
    } else {
      Pow2Monotone(ValueWidth(i, 3 * ep + c), d);
    }
    ResolveForm(e[c], e[3 * ep + c], ep == 0, m.hasDelta, isSigned, n, d);
    var v := if full then e[3 * ep + c] else (e[c] + TwosComplement(e[3 * ep + c], d)) % Pow2(n);
    if isSigned {
      ResolvedSigned(e[c], e[3 * ep + c], full, n, d);
      SignedAgrees(TwosComplement(v, n), n);
    } else {
      ResolvedUnsigned(e[c], e[3 * ep + c], full, n, d);
      UnsignedAgrees(v, n);
    }
  }

  // ----- texels

  /** A blend in the range of half floats; signed ones as sign and magnitude, without a negative zero. */
  function HalfOf(x: int, isSigned: bool): int {
    if !isSigned then x * 31 / 64
    else if x >= 0 then x * 31 / 32
    else if -x * 31 / 32 == 0 then 0
    else 0x8000 + -x * 31 / 32
  }

  lemma HalfAgrees(x: int, isSigned: bool)
    requires if isSigned then -0x8000 <= x <= 0x7fff else 0 <= x <= 0xffff
    ensures ToHalf(x, isSigned) == HalfOf(x, isSigned)
  {
    hide Or;
    if isSigned && x < 0 {
      OrDisjointBit(-x * 31 / 32);
    }
  }

  function IndexWidth(i: nat): nat { if OneSubset(i) then 4 else 3 }

  /** The anchor texel of the second subset. */
  function SecondAnchor(p: nat): nat { Low(Shr(Anchors2(p / 8), p % 8 * 4), 4) }

  /** Indices come last; the anchor texels have a bit less. */
  function IndexAt(word: nat, i: nat, p: nat, t: nat): nat {
    var two := !OneSubset(i);
    var ahead := (if t > 0 then 1 else 0) + (if two && t > SecondAnchor(p) then 1 else 0);
    var anchor := t == 0 || (two && t == SecondAnchor(p));
    var at := (if two then 82 else 65) + IndexWidth(i) * t - ahead;
    Bc7.Slice(word, at, IndexWidth(i) - if anchor then 1 else 0)
  }

  function SubsetAt(i: nat, p: nat, t: nat): nat {
    if OneSubset(i) then 0 else Low(Shr(Mask2(p), t), 1)
  }

  /** Channel c of texel t. */
  function ChannelAt(word: nat, i: nat, t: nat, c: nat, isSigned: bool): int
    requires 0 < BaseWidth(i)
  {
    var p := Value(word, i, 12);
    var s := SubsetAt(i, p, t);
    var e0 := Unquantized(EndpointOf(word, i, 2 * s, c, isSigned), BaseWidth(i), isSigned);
    var e1 := Unquantized(EndpointOf(word, i, 2 * s + 1, c, isSigned), BaseWidth(i), isSigned);
    var d := if OneSubset(i) then 15 else 7;
    var w := (128 * IndexAt(word, i, p, t) + d) / (2 * d);
    HalfOf(((64 - w) * e0 + w * e1 + 32) / 64, isSigned)
  }

  function StandardTexel(word: nat, t: nat, isSigned: bool): Color {
    var i := ModeNumber(word);
    if i < 0 then Color(0, 0, 0)
    else
      WidthPositive(i);
      Color(ChannelAt(word, i, t, 0, isSigned), ChannelAt(word, i, t, 1, isSigned), ChannelAt(word, i, t, 2, isSigned))
  }

  lemma WidthPositive(i: nat)
    ensures 0 < BaseWidth(i)
  {
  }

  // ----- the decoder agrees

  lemma SubsetAgrees(i: nat, p: nat, t: nat)
    requires i < 14 && p < 64 && t < 16 && Sound(Modes(i))
    ensures FirstEndpoint(Modes(i), p, t) == 2 * SubsetAt(i, p, t) && SubsetAt(i, p, t) <= 1
  {
    hide Modes, Low, Shr, Mask2, PartitionTable2, AnchorTable2, Total2;
    TableAgrees(i);
    TableSound2(p);
    Subset2Is(p, t);
  }

  /** The anchors of a block, as BC7 counts them. */
  lemma AnchorsAgree(n: nat, p: nat, t: nat)
    requires (n == 1 || n == 2) && p < 64 && t < 16
    ensures Bc7.AnchorsBefore(Subsets(n), p, t) == (if t > 0 then 1 else 0) + (if n == 2 && t > SecondAnchor(p) then 1 else 0)
    ensures Bc7.IsAnchor(Subsets(n), p, t) <==> t == 0 || (n == 2 && t == SecondAnchor(p))
  {
    hide Low, Shr, Anchors2, AnchorTable2, Bc7.AnchorsBefore, Bc7.IsAnchor;
    Anchors2Is(p);
    Bc7.AnchorsClosed(Subsets(n), p, t);
    Bc7.AnchorTexels(Subsets(n), p, t);
  }

  lemma IndicesStart(i: nat)
    requires i < 14
    ensures HeaderEnd(i) == (if OneSubset(i) then 65 else 82) && IndexBits(Modes(i)) == IndexWidth(i)
  {
    hide Modes, Fields, HeaderBits, Fits;
    TableAgrees(i);
    AllBitsUsed(i);
  }

  lemma IndexAgrees(i: nat, word: nat, p: nat, t: nat)
    requires i < 14 && p < 64 && t < 16
    ensures IndexOf(i, word, p, t) == IndexAt(word, i, p, t) < Pow2(IndexWidth(i))
  {
    hide Modes, HeaderEnd, Bc7.AnchorsBefore, Bc7.IsAnchor, SecondAnchor, Bc7.Slice, Pow2, OneSubset;
    TableAgrees(i);
    IndicesStart(i);
    AnchorsAgree(Modes(i).partitionCount, p, t);
    var n := IndexWidth(i) - if Bc7.IsAnchor(Subsets(Modes(i).partitionCount), p, t) then 1 else 0;
    var at := HeaderEnd(i) + Bc7.IndexOffset(Subsets(Modes(i).partitionCount), p, IndexWidth(i), t);
    Bc7Spec.SliceBound(word, at, n);
    Pow2Monotone(n, IndexWidth(i));
  }

  lemma BlendAgrees(m: ModeDesc, e: seq<nat>, first: nat, c: nat, index: nat, isSigned: bool)
    requires Sound(m) && |e| == 13 && first < 3 && c < 3 && index < Pow2(IndexBits(m)) && forall k :: 0 <= k < 13 ==> e[k] < 65536
    ensures var e0, e1 := EndpointValue(m, e, first, c, isSigned), EndpointValue(m, e, first + 1, c, isSigned);
            var d := if m.partitionCount == 1 then 15 else 7;
            var w := (128 * index + d) / (2 * d);
            ChannelOf(m, e, first, c, index, isSigned) == HalfOf(((64 - w) * e0 + w * e1 + 32) / 64, isSigned)
  {
    hide EndpointValue, ToHalf, HalfOf, Bc7.Weight, Pow2;
    var e0, e1 := EndpointValue(m, e, first, c, isSigned), EndpointValue(m, e, first + 1, c, isSigned);
    Bc7Spec.WeightAgrees(IndexBits(m), index);
    var w := Bc7.Weight(IndexBits(m), index);
    WeightBound(IndexBits(m), index);
    if isSigned {
      SignedEndpoint(m, e, first, c);
      SignedEndpoint(m, e, first + 1, c);
      MixBetween(e0, e1, w, -0x8000, 0x7fff);
    } else {
      ChannelBound(m, e, first, c);
      ChannelBound(m, e, first + 1, c);
      MixBetween(e0, e1, w, 0, 0xffff);
    }
    HalfAgrees(Mix(e0, e1, w), isSigned);
  }

  /** The values of a header are those gathered from the word. */
  ghost predicate Holds(e: seq<nat>, word: nat, i: nat) {
    |e| == 13 && forall k :: 0 <= k < 13 ==> e[k] < 65536 && e[k] == Value(word, i, k) < Pow2(ValueWidth(i, k))
  }

  lemma HeaderHolds(i: nat, word: nat)
    requires i < 14
    ensures Holds(Header(i, word), word, i)
  {
    hide Header, Value, Pow2, ValueWidth;
    forall k | 0 <= k < 13
      ensures Header(i, word)[k] == Value(word, i, k) < Pow2(ValueWidth(i, k))
    {
      ValueAgrees(i, word, k);
    }
  }

  lemma EndpointHolds(i: nat, word: nat, ep: nat, c: nat, isSigned: bool, m: ModeDesc, e: seq<nat>)
    requires i < 14 && ep < 4 && c < 3 && Sound(m) && m == Modes(i) && Holds(e, word, i)
    ensures 0 < BaseWidth(i) <= 16
    ensures EndpointValue(m, e, ep, c, isSigned) == Unquantized(EndpointOf(word, i, ep, c, isSigned), BaseWidth(i), isSigned)
  {
    hide Modes, Value, ValueWidth, Pow2, EndpointValue, EndpointOf, Unquantized, BaseWidth;
    EndpointAgrees(i, word, ep, c, isSigned, m, e);
  }

  lemma ChannelAgrees(i: nat, word: nat, t: nat, c: nat, isSigned: bool, m: ModeDesc, e: seq<nat>, s: nat, index: nat)
    requires i < 14 && t < 16 && c < 3 && Sound(m) && m == Modes(i) && Holds(e, word, i)
    requires s == SubsetAt(i, e[12], t) <= 1 && index == IndexAt(word, i, e[12], t) < Pow2(IndexBits(m))
    ensures 0 < BaseWidth(i)
    ensures ChannelOf(m, e, 2 * s, c, index, isSigned) == ChannelAt(word, i, t, c, isSigned)
  {
    hide Modes, Value, ValueWidth, BaseWidth, IndexAt, SubsetAt, ChannelOf, EndpointValue, EndpointOf, Unquantized, HalfOf, Pow2, OneSubset;
    TableAgrees(i);
    EndpointHolds(i, word, 2 * s, c, isSigned, m, e);
    EndpointHolds(i, word, 2 * s + 1, c, isSigned, m, e);
    BlendAgrees(m, e, 2 * s, c, index, isSigned);
    hide Holds;
  }

  lemma TexelChannel(word: nat, t: nat, c: nat, isSigned: bool)
    requires t < 16 && c < 3 && ModeOf(word) >= 0
    ensures 0 < BaseWidth(ModeOf(word))
    ensures Bc6hFinite.Channel(BlockTexel(word, t, isSigned), c) == ChannelAt(word, ModeOf(word), t, c, isSigned)
  {
    hide ModeOf, Modes, Header, IndexOf, ChannelOf, FirstEndpoint, BlockTexel, Blended, ChannelAt, Holds, IndexAt, SubsetAt, Pow2, Bc6hFinite.Channel;
    var i, m, e := ModeOfBlock(word);
    TexelIs(i, word, e, t, isSigned);
    HeaderHolds(i, word);
    SubsetAgrees(i, e[12], t);
    IndexAgrees(i, word, e[12], t);
    IndicesStart(i);
    var s, index := SubsetAt(i, e[12], t), IndexAt(word, i, e[12], t);
    Bc6hFinite.ChannelIs(i, m, e, t, c, index, isSigned);
    ChannelAgrees(i, word, t, c, isSigned, m, e, s, index);
  }

  /** On every word, signed and unsigned, the decoder's texel is the standard's. */
  lemma BlockIsStandard(word: nat, t: nat, isSigned: bool)
    requires t < 16
    ensures BlockTexel(word, t, isSigned) == StandardTexel(word, t, isSigned)
  {
    hide ModeOf, ModeNumber, BlockTexel, ChannelAt;
    ModeAgrees(word);
    if ModeOf(word) < 0 {
      ReservedBlack(word, isSigned);
    } else {
      TexelChannel(word, t, 0, isSigned);
      TexelChannel(word, t, 1, isSigned);
      TexelChannel(word, t, 2, isSigned);
    }
  }
}
