/**
 * The alpha block of DXT5: stb__CompressAlphaBlock encodes, the unsigned BC_channel::decode decodes.
 * The two live in different files; what ties them together is proved here.
 */
module Dxt {
  import opened Arith
  import opened Bits

  function Abs(x: int): nat { if x < 0 then -x else x }

  // ----- nearest entries of the eight-step ramp

  /** Step t of the ramp from 0 to `dist` in seven steps, rounded down as the decoder rounds. */
  function Ramp(t: nat, dist: nat): nat { t * dist / 7 }

  function Bias(dist: nat): int { if dist < 8 then dist - 1 else dist / 2 + 2 }

  /** The linear index the encoder arrives at: how often `dist` fits into the biased value, at most 7. */
  ghost predicate Chosen(t: nat, dist: nat, d: nat) {
    && t <= 7
    && t * dist <= 7 * d + Bias(dist)
    && (t < 7 ==> 7 * d + Bias(dist) < (t + 1) * dist)
  }

  lemma MultipleOf7(t: nat, dist: nat)
    requires dist % 7 == 0
    ensures (t * dist) % 7 == 0
  {
    var q := dist / 7;
    assert t * dist == 7 * (t * q);
  }

  /** The step above is no nearer: the roundings of two neighbours cannot both lose six sevenths. */
  lemma NeighbourAbove(t: nat, dist: nat, d: nat)
    requires t < 7 && 8 <= dist && Chosen(t, dist, d)
    ensures 2 * d <= Ramp(t, dist) + Ramp(t + 1, dist)
  {
    var x := t * dist;
    assert (t + 1) * dist == x + dist;
    if x % 7 == 6 && (x + dist) % 7 == 6 {
      MultipleOf7(t, dist);
    }
  }

  /** The step below is no nearer. */
  lemma NeighbourBelow(t: nat, dist: nat, d: nat)
    requires 1 <= t && 8 <= dist && Chosen(t, dist, d)
    ensures Ramp(t - 1, dist) + Ramp(t, dist) <= 2 * d
  {
    var x := (t - 1) * dist;
    assert t * dist == x + dist;
  }

  /** Up to a range of seven the ramp contains every value, and the chosen step is that value. */
  lemma ExactStep(t: nat, dist: nat, d: nat)
    requires 1 <= dist <= 7 && d <= dist && Chosen(t, dist, d)
    ensures Ramp(t, dist) == d
  {
    if t == 7 {
      assert 7 * dist / 7 == dist;
    } else {
      assert (t + 1) * dist == t * dist + dist;
    }
  }

  lemma RampMonotone(a: nat, b: nat, dist: nat)
    requires a <= b
    ensures Ramp(a, dist) <= Ramp(b, dist)
  {
    assert b * dist == a * dist + (b - a) * dist;
    assert (b - a) * dist >= 0;
  }

  /** No step of the ramp is nearer than the chosen one. */
  lemma ChosenNearest(t: nat, u: nat, dist: nat, d: nat)
    requires 1 <= dist && d <= dist && Chosen(t, dist, d) && u <= 7
    ensures Abs(d - Ramp(t, dist)) <= Abs(d - Ramp(u, dist))
  {
    hide Ramp, Chosen;
    if dist <= 7 {
      ExactStep(t, dist, d);
    } else if t < u {
      ChosenAtMost7(t, dist, d);
      NeighbourAbove(t, dist, d);
      RampMonotone(t + 1, u, dist);
      RampMonotone(t, u, dist);
    } else if u < t {
      NeighbourBelow(t, dist, d);
      RampMonotone(u, t - 1, dist);
      RampMonotone(u, t, dist);
    }
  }

  lemma ChosenAtMost7(t: nat, dist: nat, d: nat)
    requires Chosen(t, dist, d)
    ensures t <= 7
  {
  }

  // ----- the decoder's palette

  /** `(p * a + q * b) / n` for weights that sum up to n. */
  function Blend(p: nat, a: int, q: nat, b: int, n: nat): (v: int)
    requires p + q == n > 0 && 0 <= a < 256 && 0 <= b < 256
    ensures 0 <= v < 256
  {
    assert 0 <= p * a <= p * 255 && 0 <= q * b <= q * 255;
    assert p * 255 + q * 255 == 255 * n;
    Quotient(p * a + q * b, n);
    (p * a + q * b) / n
  }

  lemma Quotient(x: nat, n: nat)
    requires n > 0 && x <= 255 * n
    ensures 0 <= x / n <= 255
  {
    var q := x / n;
    assert x == n * q + x % n;
    assert q > 255 ==> n * q >= n * 256;
  }

  /** The eight values of the unsigned channel decoder for end points c0 and c1. */
  function Palette(c0: byte, c1: byte, k: nat): (v: int)
    requires k < 8
    ensures 0 <= v < 256
  {
    var a: int, b: int := c0, c1;
    if k == 0 then a
    else if k == 1 then b
    else if a > b then Blend(8 - k, a, k - 1, b, 7)
    else if k < 6 then Blend(6 - k, a, k - 1, b, 5)
    else if k == 6 then 0 else 255
  }

  /** The decoder's index of a step of the ramp: 0 and 1 are the extremes, the others run downwards. */
  function DxtIndex(t: nat): (k: nat)
    requires t <= 7
    ensures k < 8
  {
    var ind := (8 - t) % 8; // -ind & 7
    if ind < 2 then 1 - ind else ind // ind ^= (2 > ind)
  }

  /** Every palette entry is a step of the ramp over the smaller end point. */
  lemma PaletteIsRamp(mx: byte, mn: byte, t: nat)
    requires mx > mn && t <= 7
    ensures Palette(mx, mn, DxtIndex(t)) == mn + Ramp(t, mx - mn)
  {
    var dist: int := mx - mn;
    if t == 0 || t == 7 {
      assert 7 * dist / 7 == dist;
    } else {
      var k := DxtIndex(t);
      assert k == 8 - t;
      RampOffset(t, mx, mn);
    }
  }

  /** With the end points in the other order there are five steps, then the two extremes. */
  lemma PaletteIsShortRamp(c0: byte, c1: byte, k: nat)
    requires c0 <= c1 && k < 8
    ensures Palette(c0, c1, k) == if k == 0 then c0 else if k == 1 then c1 else if k == 6 then 0 else if k == 7 then 255
                                  else c0 + (k - 1) * (c1 - c0) / 5
  {
    if 2 <= k < 6 {
      var a: int, b: int := c0, c1;
      assert (6 - k) * a + (k - 1) * b == 5 * a + (k - 1) * (b - a);
    }
  }

  lemma RampOffset(t: nat, a: int, b: int)
    requires t <= 7 && a >= b
    ensures (t * a + (7 - t) * b) / 7 == b + Ramp(t, a - b)
  {
    assert t * a + (7 - t) * b == 7 * b + t * (a - b);
  }

  lemma DxtIndexOnto(k: nat)
    requires k < 8
    ensures exists t: nat :: t <= 7 && DxtIndex(t) == k
  {
    var t := if k == 0 then 7 else if k == 1 then 0 else 8 - k;
    assert DxtIndex(t) == k;
  }

  // ----- sixteen indices of three bits in six bytes

  /** The value of bytes, first byte least significant. */
  function Word(bytes: seq<byte>): nat {
    if bytes == [] then 0 else Word(bytes[..|bytes| - 1]) + Shl(bytes[|bytes| - 1], 8 * (|bytes| - 1))
  }

  /** The value of three-bit indices, first index least significant. */
  function Packed(inds: seq<nat>): nat {
    if inds == [] then 0 else Packed(inds[..|inds| - 1]) + Shl(inds[|inds| - 1], 3 * (|inds| - 1))
  }

  ghost predicate ThreeBit(inds: seq<nat>) {
    forall i :: 0 <= i < |inds| ==> inds[i] < 8
  }

  lemma {:induction false} PackedBound(inds: seq<nat>)
    requires ThreeBit(inds)
    ensures Packed(inds) < Pow2(3 * |inds|)
  {
    if inds != [] {
      var n := |inds| - 1;
      PackedBound(inds[..n]);
      ShlMonotone(inds[n], 7, 3 * n);
      ShlAdd(7, 1, 3 * n);
      ShlOne(3 * n);
      ShlPow2(3, 3 * n);
      Pow2Values();
    }
  }

  /** Shifting and masking gives back each index. */
  lemma {:induction false} PackedAt(inds: seq<nat>, i: nat)
    requires ThreeBit(inds) && i < |inds|
    ensures Low(Shr(Packed(inds), 3 * i), 3) == inds[i]
  {
    var n := |inds| - 1;
    PackedBound(inds[..n]);
    if i == n {
      ShlSplit(inds[n], Packed(inds[..n]), 3 * n);
      Pow2Values();
      LowSmall(inds[n], 3);
    } else {
      PackedAt(inds[..n], i);
      LowAbove(Packed(inds[..n]), inds[n], 3 * n, 3 * i, 3);
    }
  }

  /** Bits below a shifted summand do not see it. */
  lemma LowAbove(x: nat, hi: nat, n: nat, i: nat, w: nat)
    requires i + w <= n
    ensures Low(Shr(x + Shl(hi, n), i), w) == Low(Shr(x, i), w)
  {
    ShlShl(hi, n - i, i);
    ShrAddShl(x, Shl(hi, n - i), i);
    ShlShl(hi, n - i - w, w);
    LowAddShl(Shr(x, i), Shl(hi, n - i - w), w);
  }

  lemma {:induction false} ShrAddShl(x: nat, y: nat, n: nat)
    ensures Shr(x + Shl(y, n), n) == Shr(x, n) + y
    decreases n
  {
    if n != 0 {
      assert (x + Shl(y, n)) / 2 == x / 2 + Shl(y, n - 1);
      ShrAddShl(x / 2, y, n - 1);
    }
  }

  lemma {:induction false} LowAddShl(x: nat, y: nat, n: nat)
    ensures Low(x + Shl(y, n), n) == Low(x, n)
    decreases n
  {
    if n != 0 {
      assert (x + Shl(y, n)) / 2 == x / 2 + Shl(y, n - 1);
      LowAddShl(x / 2, y, n - 1);
    }
  }

  /** Masking in place and shifting down is shifting down and masking. */
  lemma {:induction false} MaskedShift(x: nat, m: nat, n: nat)
    ensures Shr(And(x, Shl(m, n)), n) == And(Shr(x, n), m)
    decreases n
  {
    if n != 0 {
      var k := Shl(m, n - 1);
      assert And(x, 2 * k) / 2 == And(x / 2, k) by {
        if x == 0 || k == 0 {
          assert And(x / 2, k) == 0;
        }
      }
      MaskedShift(x / 2, m, n - 1);
    }
  }

  lemma {:induction false} AndOnes(x: nat, n: nat)
    ensures And(x, Pow2(n) - 1) == Low(x, n)
    decreases n
  {
    if n != 0 {
      var m := Pow2(n) - 1;
      assert m / 2 == Pow2(n - 1) - 1 && m % 2 == 1;
      AndOnes(x / 2, n - 1);
      if x == 0 {
        AndOnes(0, n - 1);
      }
    }
  }

  // ----- the decoder

  /** BC_channel::getIdx on the block as a 64-bit little-endian value. */
  function GetIdx(data: nat, i: nat): nat {
    var offset := i * 3 + 16;
    Shr(And(data, Shl(7, offset)), offset)
  }

  /** The value that the unsigned BC_channel::decode gives texel i. */
  function Texel(block: seq<byte>, i: nat): int
    requires |block| == 8 && GetIdx(Word(block), i) < 8
  {
    Palette(block[0], block[1], GetIdx(Word(block), i))
  }

  lemma GetIdxIsField(data: nat, i: nat)
    ensures GetIdx(data, i) == Low(Shr(data, i * 3 + 16), 3) < 8
  {
    MaskedShift(data, 7, i * 3 + 16);
    Pow2Values();
    AndOnes(Shr(data, i * 3 + 16), 3);
    Split(Shr(data, i * 3 + 16), 3);
  }

  // ----- the encoder

  /** Sample i of the sixteen, `stride` bytes apart. */
  function Sample(src: seq<byte>, stride: nat, i: nat): byte
    requires i < 16 && 15 * stride < |src|
  {
    SampleInside(stride, i);
    src[i * stride]
  }

  lemma SampleInside(stride: nat, i: nat)
    requires i < 16
    ensures 0 <= i * stride <= 15 * stride
  {
    MulLe(0, i, stride);
    MulLe(i, 15, stride);
  }

  lemma SampleAt(src: seq<byte>, stride: nat, i: nat)
    requires i < 16 && 15 * stride < |src|
    ensures 0 <= i * stride < |src| && Sample(src, stride, i) == src[i * stride]
  {
    SampleInside(stride, i);
  }

  /** Smallest and largest sample. */
  method MinMax(src: seq<byte>, stride: nat) returns (mn: byte, mx: byte)
    requires 15 * stride < |src|
    ensures mn <= mx
    ensures forall i :: 0 <= i < 16 ==> mn <= Sample(src, stride, i) <= mx
    ensures exists i :: 0 <= i < 16 && Sample(src, stride, i) == mn
    ensures exists i :: 0 <= i < 16 && Sample(src, stride, i) == mx
  {
    hide Sample;
    SampleAt(src, stride, 0);
    mn := src[0];
    mx := mn;
    ghost var lo, hi := 0, 0;
    var i := 1;
    while i < 16
      invariant 1 <= i <= 16 && mn <= mx
      invariant forall j :: 0 <= j < i ==> mn <= Sample(src, stride, j) <= mx
      invariant 0 <= lo < 16 && Sample(src, stride, lo) == mn
      invariant 0 <= hi < 16 && Sample(src, stride, hi) == mx
    {
      SampleAt(src, stride, i);
      var v := src[i * stride];
      if v < mn {
        mn, lo := v, i;
      } else if v > mx {
        mx, hi := v, i;
      }
      i := i + 1;
    }
  }

  /** What makes index k right for value v: no palette entry is nearer. */
  ghost predicate Nearest(mx: byte, mn: byte, k: nat, v: byte)
    requires k < 8
  {
    forall u :: 0 <= u < 8 ==> Abs(Palette(mx, mn, k) - v) <= Abs(Palette(mx, mn, u) - v)
  }

  /** The body of the encoder's loop up to the bit packing. */
  method SelectIndex(v: byte, mn: byte, mx: byte, dist: nat, bias: int) returns (ind: nat)
    requires mn <= v <= mx && dist == mx - mn && bias == Bias(dist) - mn * 7
    ensures ind < 8 && Nearest(mx, mn, ind, v)
    ensures mx - mn <= 7 ==> Palette(mx, mn, ind) == v
  {
    var value: int := v;
    var a := value * 7 + bias;
    ghost var d: int := v - mn;
    assert a == 7 * d + Bias(dist);
    // how many sevenths of the way up the ramp
    var t := 0;
    if a >= dist * 4 {
      t, a := t + 4, a - dist * 4;
    }
    if a >= dist * 2 {
      t, a := t + 2, a - dist * 2;
    }
    if a >= dist {
      t := t + 1;
    }
    ind := DxtIndex(t);
    if dist == 0 {
      assert t == 0 && Palette(mx, mn, 1) == v;
    } else {
      assert Chosen(t, dist, d) by { StepsChosen(t, dist, d); }
      ChosenIsNearest(mx, mn, t, v);
    }
  }

  lemma StepsChosen(t: nat, dist: nat, d: nat)
    requires t <= 7
    requires var a := 7 * d + Bias(dist);
             && (t == 0 ==> 0 <= a < dist) && (t == 1 ==> dist <= a < 2 * dist) && (t == 2 ==> 2 * dist <= a < 3 * dist)
             && (t == 3 ==> 3 * dist <= a < 4 * dist) && (t == 4 ==> 4 * dist <= a < 5 * dist)
             && (t == 5 ==> 5 * dist <= a < 6 * dist) && (t == 6 ==> 6 * dist <= a < 7 * dist) && (t == 7 ==> 7 * dist <= a)
    ensures Chosen(t, dist, d)
  {
  }

  lemma ChosenIsNearest(mx: byte, mn: byte, t: nat, v: byte)
    requires mn < mx && mn <= v <= mx && t <= 7 && Chosen(t, mx - mn, v - mn)
    ensures Nearest(mx, mn, DxtIndex(t), v)
    ensures mx - mn <= 7 ==> Palette(mx, mn, DxtIndex(t)) == v
  {
    hide Palette, Ramp, Chosen, DxtIndex;
    var dist: nat, d: nat := mx - mn, v - mn;
    PaletteIsRamp(mx, mn, t);
    forall u: nat | u < 8
      ensures Abs(Palette(mx, mn, DxtIndex(t)) - v) <= Abs(Palette(mx, mn, u) - v)
    {
      DxtIndexOnto(u);
      var s: nat :| s <= 7 && DxtIndex(s) == u;
      PaletteIsRamp(mx, mn, s);
      ChosenNearest(t, s, dist, d);
    }
    if dist <= 7 {
      ExactStep(t, dist, d);
    }
  }

  /** The bytes written so far and the bits still in `mask` are the packed indices. */
  ghost predicate Packing(inds: seq<nat>, bytes: seq<byte>, mask: nat, bits: nat) {
    && ThreeBit(inds) && 3 * |inds| == 8 * |bytes| + bits && mask < Pow2(bits)
    && Packed(inds) == Word(bytes) + Shl(mask, 8 * |bytes|)
  }

  lemma PackOne(inds: seq<nat>, bytes: seq<byte>, mask: nat, bits: nat, ind: nat)
    requires Packing(inds, bytes, mask, bits) && ind < 8
    ensures Packing(inds + [ind], bytes, Or(mask, Shl(ind, bits)), bits + 3)
  {
    hide Word, Or, Shl, Pow2;
    var all, w := inds + [ind], 8 * |bytes|;
    assert all[..|inds|] == inds;
    OrDisjoint(mask, ind, bits);
    ShlAdd(mask, Shl(ind, bits), w);
    ShlShl(ind, bits, w);
    assert bits + w == 3 * |inds|;
    Pow2Values();
    ShlPow2(3, bits);
    OrBelow(mask, ind, bits);
  }

  lemma OrBelow(mask: nat, ind: nat, bits: nat)
    requires mask < Pow2(bits) && ind < 8
    ensures mask + Shl(ind, bits) < Pow2(bits + 3)
  {
    hide Shl;
    ShlMonotone(ind, 7, bits);
    ShlAdd(7, 1, bits);
    ShlOne(bits);
    Pow2Values();
    ShlPow2(3, bits);
  }

  lemma EmitByte(inds: seq<nat>, bytes: seq<byte>, mask: nat, bits: nat)
    requires Packing(inds, bytes, mask, bits) && 8 <= bits
    ensures Low(mask, 8) < 256
    ensures Packing(inds, bytes + [Low(mask, 8)], Shr(mask, 8), bits - 8)
  {
    hide Packed, Low, Shr, Shl, Word, Pow2;
    Split(mask, 8);
    Pow2Values();
    var b: byte, hi := Low(mask, 8), Shr(mask, 8);
    WordSnoc(bytes, b);
    ShlAdd(Shl(hi, 8), b, 8 * |bytes|);
    ShlShl(hi, 8, 8 * |bytes|);
    assert 8 * |bytes| + 8 == 8 * (|bytes| + 1);
    ShrBelow(mask, bits);
  }

  lemma WordSnoc(bytes: seq<byte>, b: byte)
    ensures Word(bytes + [b]) == Word(bytes) + Shl(b, 8 * |bytes|)
  {
    assert (bytes + [b])[..|bytes|] == bytes;
  }

  lemma ShrBelow(mask: nat, bits: nat)
    requires mask < Pow2(bits) && 8 <= bits
    ensures Shr(mask, 8) < Pow2(bits - 8)
  {
    hide Shl, Shr, Low;
    Split(mask, 8);
    ShlPow2(bits - 8, 8);
    ShlMonotone(Shr(mask, 8), Pow2(bits - 8), 8);
  }

  /** stb__CompressAlphaBlock: the end points are the extremes, and every texel decodes to the nearest value of their palette. */
  method CompressAlphaBlock(src: seq<byte>, stride: nat) returns (dest: seq<byte>)
    requires 15 * stride < |src|
    ensures |dest| == 8
    ensures forall i :: 0 <= i < 16 ==> dest[1] <= Sample(src, stride, i) <= dest[0]
    ensures (exists i :: 0 <= i < 16 && Sample(src, stride, i) == dest[0]) && exists i :: 0 <= i < 16 && Sample(src, stride, i) == dest[1]
    ensures forall i :: 0 <= i < 16 ==> GetIdx(Word(dest), i) < 8
    ensures forall i, u :: 0 <= i < 16 && 0 <= u < 8 ==>
              Abs(Texel(dest, i) - Sample(src, stride, i)) <= Abs(Palette(dest[0], dest[1], u) - Sample(src, stride, i))
    ensures (forall i, j :: 0 <= i < 16 && 0 <= j < 16 ==> Sample(src, stride, i) - Sample(src, stride, j) <= 7) ==>
              forall i :: 0 <= i < 16 ==> Texel(dest, i) == Sample(src, stride, i)
  {
    hide Sample, Nearest, Palette, Texel, Packing, Word, GetIdx;
    var mn, mx := MinMax(src, stride);
    var lo: int, hi: int := mn, mx;
    var dist := hi - lo;
    var bias := (if dist < 8 then dist - 1 else dist / 2 + 2) - lo * 7;
    ghost var inds: seq<nat>;
    var body;
    body, inds := EmitIndices(src, stride, mn, mx, dist, bias);
    dest := [mx, mn] + body;
    forall i | 0 <= i < 16
      ensures GetIdx(Word(dest), i) == inds[i] < 8
    {
      BlockIndex(mx, mn, body, inds, i);
    }
    forall i | 0 <= i < 16
      ensures GetIdx(Word(dest), i) < 8 && Texel(dest, i) == Palette(mx, mn, inds[i])
    {
      TexelIs(dest, i);
    }
    forall i, u | 0 <= i < 16 && 0 <= u < 8
      ensures Abs(Texel(dest, i) - Sample(src, stride, i)) <= Abs(Palette(dest[0], dest[1], u) - Sample(src, stride, i))
    {
      NearestMeans(mx, mn, inds[i], Sample(src, stride, i), u);
    }
  }

  lemma TexelIs(block: seq<byte>, i: nat)
    requires |block| == 8 && GetIdx(Word(block), i) < 8
    ensures Texel(block, i) == Palette(block[0], block[1], GetIdx(Word(block), i))
  {
  }

  lemma NearestMeans(mx: byte, mn: byte, k: nat, v: byte, u: nat)
    requires k < 8 && u < 8 && Nearest(mx, mn, k, v)
    ensures Abs(Palette(mx, mn, k) - v) <= Abs(Palette(mx, mn, u) - v)
  {
  }

  /** The loop over the sixteen samples. */
  method EmitIndices(src: seq<byte>, stride: nat, mn: byte, mx: byte, dist: nat, bias: int)
    returns (bytes: seq<byte>, ghost inds: seq<nat>)
    requires 15 * stride < |src| && mn <= mx && dist == mx - mn && bias == Bias(dist) - mn * 7
    requires forall i :: 0 <= i < 16 ==> mn <= Sample(src, stride, i) <= mx
    ensures |bytes| == 6 && |inds| == 16 && ThreeBit(inds) && Word(bytes) == Packed(inds)
    ensures forall i :: 0 <= i < 16 ==> Nearest(mx, mn, inds[i], Sample(src, stride, i))
    ensures mx - mn <= 7 ==> forall i :: 0 <= i < 16 ==> Palette(mx, mn, inds[i]) == Sample(src, stride, i)
  {
    hide Sample, Nearest, Palette, Word, Packed, Or, Shl, Shr, Low;
    bytes, inds := [], [];
    var mask: nat, bits: nat := 0, 0;
    StartPacking();
    var i := 0;
    while i < 16
      invariant 0 <= i <= 16 && |inds| == i && bits < 8
      invariant Packing(inds, bytes, mask, bits)
      invariant forall j :: 0 <= j < i ==> Nearest(mx, mn, inds[j], Sample(src, stride, j))
      invariant mx - mn <= 7 ==> forall j :: 0 <= j < i ==> Palette(mx, mn, inds[j]) == Sample(src, stride, j)
    {
      SampleAt(src, stride, i);
      var ind := SelectIndex(src[i * stride], mn, mx, dist, bias);
      PackOne(inds, bytes, mask, bits, ind);
      mask := Or(mask, Shl(ind, bits));
      bits := bits + 3;
      inds := inds + [ind];
      if bits >= 8 {
        EmitByte(inds, bytes, mask, bits);
        bytes := bytes + [Low(mask, 8)];
        mask := Shr(mask, 8);
        bits := bits - 8;
      }
      i := i + 1;
    }
    EndPacking(inds, bytes, mask, bits);
  }

  lemma StartPacking()
    ensures Packing([], [], 0, 0)
  {
  }

  lemma EndPacking(inds: seq<nat>, bytes: seq<byte>, mask: nat, bits: nat)
    requires Packing(inds, bytes, mask, bits) && |inds| == 16 && bits < 8
    ensures |bytes| == 6 && Word(bytes) == Packed(inds)
  {
    hide Word, Packed;
    assert bits == 0 && mask == 0;
    ShlZero(8 * |bytes|);
  }

  /** The decoder finds index i of the body behind the two end points. */
  lemma BlockIndex(mx: byte, mn: byte, body: seq<byte>, inds: seq<nat>, i: nat)
    requires |inds| == 16 && ThreeBit(inds) && Word(body) == Packed(inds) && i < 16
    ensures GetIdx(Word([mx, mn] + body), i) == inds[i]
  {
    hide Packed, GetIdx, Shr, Shl, Low;
    var data := Word([mx, mn] + body);
    WordAppend([mx, mn], body);
    WordBound([mx, mn]);
    ShlSplit(Word(body), Word([mx, mn]), 16);
    ShrShr(data, 16, 3 * i);
    GetIdxIsField(data, i);
    PackedAt(inds, i);
  }

  lemma {:induction false} WordAppend(a: seq<byte>, b: seq<byte>)
    ensures Word(a + b) == Word(a) + Shl(Word(b), 8 * |a|)
    decreases |b|
  {
    if b == [] {
      assert a + b == a;
      ShlZero(8 * |a|);
    } else {
      var n := |b| - 1;
      WordAppend(a, b[..n]);
      assert (a + b)[..|a + b| - 1] == a + b[..n];
      ShlAdd(Word(b[..n]), Shl(b[n], 8 * n), 8 * |a|);
      ShlShl(b[n], 8 * n, 8 * |a|);
    }
  }

  lemma {:induction false} WordBound(a: seq<byte>)
    ensures Word(a) < Pow2(8 * |a|)
  {
    if a != [] {
      var n := |a| - 1;
      WordBound(a[..n]);
      ShlMonotone(a[n], 255, 8 * n);
      ShlAdd(255, 1, 8 * n);
      ShlOne(8 * n);
      ShlPow2(8, 8 * n);
      Pow2Values();
    }
  }
}
