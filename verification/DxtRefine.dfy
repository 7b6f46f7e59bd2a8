/** The integer part of stb__RefineBlock: normal equations accumulated in one packed register. */
module DxtRefine {
  import opened Bits

  // ----- weights

  /** Weight of the first end point for a two-bit index, in thirds. */
  function W1(step: nat): nat
    requires step < 4
  {
    if step == 0 then 3 else if step == 1 then 0 else if step == 2 then 2 else 1
  }

  /** Weight of the second end point. */
  function W2(step: nat): nat
    requires step < 4
  {
    3 - W1(step)
  }

  /** The precomputed products, packed as w1*w1 << 16 | w2*w2 << 8 | w1*w2. */
  function Prods(step: nat): nat
    requires step < 4
  {
    if step == 0 then 0x090000 else if step == 1 then 0x000900 else if step == 2 then 0x040102 else 0x010402
  }

  /** Index i of the mask. */
  function Pair(mask: nat, i: nat): (s: nat)
    ensures s < 4
  {
    PairBound(Shr(mask, 2 * i));
    Low(Shr(mask, 2 * i), 2)
  }

  lemma PairBound(x: nat)
    ensures Low(x, 2) < 4
  {
    Split(x, 2);
    Pow2Values();
  }

  /** Sum over the first n texels of a product of two weights, each given by its table. */
  ghost function SumXX(mask: nat, n: nat): nat {
    if n == 0 then 0 else SumXX(mask, n - 1) + W1(Pair(mask, n - 1)) * W1(Pair(mask, n - 1))
  }

  ghost function SumYY(mask: nat, n: nat): nat {
    if n == 0 then 0 else SumYY(mask, n - 1) + W2(Pair(mask, n - 1)) * W2(Pair(mask, n - 1))
  }

  ghost function SumXY(mask: nat, n: nat): nat {
    if n == 0 then 0 else SumXY(mask, n - 1) + W1(Pair(mask, n - 1)) * W2(Pair(mask, n - 1))
  }

  /** Sums of a colour channel against either weight; `ch` selects red, green or blue. */
  ghost function SumX(mask: nat, block: seq<byte>, ch: nat, n: nat): nat
    requires |block| == 64 && ch < 4 && n <= 16
  {
    if n == 0 then 0 else SumX(mask, block, ch, n - 1) + W1(Pair(mask, n - 1)) * block[4 * (n - 1) + ch]
  }

  ghost function SumY(mask: nat, block: seq<byte>, ch: nat, n: nat): nat
    requires |block| == 64 && ch < 4 && n <= 16
  {
    if n == 0 then 0 else SumY(mask, block, ch, n - 1) + W2(Pair(mask, n - 1)) * block[4 * (n - 1) + ch]
  }

  // ----- the determinant

  ghost function CountOf(mask: nat, s: nat, n: nat): nat {
    if n == 0 then 0 else CountOf(mask, s, n - 1) + (if Pair(mask, n - 1) == s then 1 else 0)
  }

  /** The sums in terms of how often each index occurs. */
  lemma {:induction false} SumsByCount(mask: nat, n: nat)
    ensures SumXX(mask, n) == 9 * CountOf(mask, 0, n) + 4 * CountOf(mask, 2, n) + CountOf(mask, 3, n)
    ensures SumYY(mask, n) == 9 * CountOf(mask, 1, n) + CountOf(mask, 2, n) + 4 * CountOf(mask, 3, n)
    ensures SumXY(mask, n) == 2 * CountOf(mask, 2, n) + 2 * CountOf(mask, 3, n)
    ensures n == CountOf(mask, 0, n) + CountOf(mask, 1, n) + CountOf(mask, 2, n) + CountOf(mask, 3, n)
    decreases n
  {
    hide Pair, W1, W2;
    if n != 0 {
      SumsByCount(mask, n - 1);
      Products(Pair(mask, n - 1));
    }
  }

  lemma Products(step: nat)
    requires step < 4
    ensures W1(step) * W1(step) == if step == 0 then 9 else if step == 1 then 0 else if step == 2 then 4 else 1
    ensures W2(step) * W2(step) == if step == 0 then 0 else if step == 1 then 9 else if step == 2 then 1 else 4
    ensures W1(step) * W2(step) == if step < 2 then 0 else 2
  {
  }

  /** Lagrange's identity for the four weight pairs. */
  lemma Determinant(a: nat, b: nat, c: nat, d: nat)
    ensures (9 * a + 4 * c + d) * (9 * b + c + 4 * d) - (2 * c + 2 * d) * (2 * c + 2 * d)
            == 81 * (a * b) + 9 * (a * c) + 36 * (a * d) + 36 * (b * c) + 9 * (b * d) + 9 * (c * d)
  {
  }

  ghost predicate AllSame(mask: nat, n: nat) {
    forall i :: 0 <= i < n ==> Pair(mask, i) == Pair(mask, 0)
  }

  lemma {:induction false} CountAll(mask: nat, s: nat, n: nat)
    ensures CountOf(mask, s, n) <= n
    ensures CountOf(mask, s, n) == n <==> forall i :: 0 <= i < n ==> Pair(mask, i) == s
    decreases n
  {
    hide Pair;
    if n != 0 {
      CountAll(mask, s, n - 1);
      if CountOf(mask, s, n) == n {
        forall i | 0 <= i < n
          ensures Pair(mask, i) == s
        {
        }
      }
    }
  }

  /** The system is singular exactly when all texels have the same index. */
  lemma Solvable(mask: nat, n: nat)
    requires n > 0
    ensures SumXX(mask, n) * SumYY(mask, n) - SumXY(mask, n) * SumXY(mask, n) >= 0
    ensures SumXX(mask, n) * SumYY(mask, n) - SumXY(mask, n) * SumXY(mask, n) == 0 <==> AllSame(mask, n)
  {
    hide Pair, CountOf, SumXX, SumYY, SumXY;
    var a, b, c, d := CountOf(mask, 0, n), CountOf(mask, 1, n), CountOf(mask, 2, n), CountOf(mask, 3, n);
    SumsByCount(mask, n);
    Determinant(a, b, c, d);
    TwoCounts(a, b, c, d);
    CountAll(mask, Pair(mask, 0), n);
    CountAll(mask, 0, n);
    CountAll(mask, 1, n);
    CountAll(mask, 2, n);
    CountAll(mask, 3, n);
  }

  /** The identity's right-hand side vanishes exactly when at most one count is not zero. */
  lemma TwoCounts(a: nat, b: nat, c: nat, d: nat)
    ensures var det := 81 * (a * b) + 9 * (a * c) + 36 * (a * d) + 36 * (b * c) + 9 * (b * d) + 9 * (c * d);
            && det >= 0
            && (det == 0 <==> var n := a + b + c + d; a == n || b == n || c == n || d == n)
  {
    Positive(a, b);
    Positive(a, c);
    Positive(a, d);
    Positive(b, c);
    Positive(b, d);
    Positive(c, d);
    OneLeft(a, b, c, d, a * b, a * c, a * d, b * c, b * d, c * d);
  }

  lemma OneLeft(a: nat, b: nat, c: nat, d: nat, ab: nat, ac: nat, ad: nat, bc: nat, bd: nat, cd: nat)
    requires (ab == 0 <==> a == 0 || b == 0) && (ac == 0 <==> a == 0 || c == 0) && (ad == 0 <==> a == 0 || d == 0)
    requires (bc == 0 <==> b == 0 || c == 0) && (bd == 0 <==> b == 0 || d == 0) && (cd == 0 <==> c == 0 || d == 0)
    ensures 81 * ab + 9 * ac + 36 * ad + 36 * bc + 9 * bd + 9 * cd == 0
            <==> var n := a + b + c + d; a == n || b == n || c == n || d == n
  {
  }

  lemma Positive(x: nat, y: nat)
    ensures x * y >= 0
    ensures x * y == 0 <==> x == 0 || y == 0
  {
  }

  // ----- the singularity test on the mask

  lemma {:induction false} XorZero(x: nat, y: nat)
    ensures Xor(x, y) == 0 <==> x == y
    decreases x + y
  {
    if x != 0 && y != 0 {
      XorZero(x / 2, y / 2);
    }
  }

  lemma {:induction false} ShrXor(x: nat, y: nat, n: nat)
    ensures Shr(Xor(x, y), n) == Xor(Shr(x, n), Shr(y, n))
    decreases n
  {
    if n != 0 {
      assert Xor(x, y) / 2 == Xor(x / 2, y / 2);
      ShrXor(x / 2, y / 2, n - 1);
    }
  }

  lemma {:induction false} ShrLow(x: nat, n: nat, a: nat)
    ensures Shr(Low(x, n + a), a) == Low(Shr(x, a), n)
    decreases a
  {
    if a != 0 {
      var y := Low(x, n + a);
      assert y / 2 == Low(x / 2, n + (a - 1));
      ShrLow(x / 2, n, a - 1);
    }
  }

  lemma SmallMeansShrZero(x: nat)
    ensures x < 4 <==> Shr(x, 2) == 0
  {
  }

  /** `(mask ^ (mask << 2)) < 4` compares every index with its predecessor, all at once. */
  lemma TestComparesNeighbours(mask: nat)
    requires mask < Pow2(32)
    ensures Xor(mask, Low(Shl(mask, 2), 32)) < 4 <==> Shr(mask, 2) == Low(mask, 30)
  {
    hide Xor, Low, Shr, Shl, Pow2;
    var y := Low(Shl(mask, 2), 32);
    SmallMeansShrZero(Xor(mask, y));
    ShrXor(mask, y, 2);
    ShrLow(Shl(mask, 2), 30, 2);
    ShlBack(mask, 2);
    XorZero(Shr(mask, 2), Low(mask, 30));
  }

  lemma ShlBack(x: nat, n: nat)
    ensures Shr(Shl(x, n), n) == x
  {
    ShlSplit(x, 0, n);
  }

  lemma PairNext(mask: nat, i: nat)
    ensures Pair(mask, i + 1) == Pair(Shr(mask, 2), i)
  {
    ShrShr(mask, 2, 2 * i);
  }

  /** Indices below the cut are those of the whole mask. */
  lemma PairLow(mask: nat, i: nat, n: nat)
    requires i < n
    ensures Pair(Low(mask, 2 * n), i) == Pair(mask, i)
  {
    ShrLow(mask, 2 * (n - i), 2 * i);
    LowLow(Shr(mask, 2 * i), 2, 2 * (n - i) - 2);
  }

  /** Values of n indices are determined by them. */
  lemma {:induction false} PairsDetermine(x: nat, y: nat, n: nat)
    requires x < Pow2(2 * n) && y < Pow2(2 * n)
    requires forall i :: 0 <= i < n ==> Pair(x, i) == Pair(y, i)
    ensures x == y
    decreases n
  {
    if n != 0 {
      assert Pair(x, 0) == Pair(y, 0);
      FourBound(x, n);
      FourBound(y, n);
      forall i | 0 <= i < n - 1
        ensures Pair(Shr(x, 2), i) == Pair(Shr(y, 2), i)
      {
        PairNext(x, i);
        PairNext(y, i);
        assert Pair(x, i + 1) == Pair(y, i + 1);
      }
      PairsDetermine(Shr(x, 2), Shr(y, 2), n - 1);
      Split(x, 2);
      Split(y, 2);
    }
  }

  lemma FourBound(x: nat, n: nat)
    requires n > 0 && x < Pow2(2 * n)
    ensures Shr(x, 2) < Pow2(2 * (n - 1))
  {
    hide Shr, Low, Pow2;
    Split(x, 2);
    ShlPow2(2 * (n - 1), 2);
    ShlMonotone(Shr(x, 2), Pow2(2 * (n - 1)), 2);
  }

  /** The test of the source finds exactly the masks whose sixteen indices agree. */
  lemma TestIffAllSame(mask: nat)
    requires mask < Pow2(32)
    ensures Xor(mask, Low(Shl(mask, 2), 32)) < 4 <==> AllSame(mask, 16)
  {
    hide Xor, Low, Shr, Shl, Pow2, Pair;
    TestComparesNeighbours(mask);
    if Shr(mask, 2) == Low(mask, 30) {
      forall i | 0 <= i < 15
        ensures Pair(mask, i + 1) == Pair(mask, i)
      {
        PairNext(mask, i);
        PairLow(mask, i, 15);
      }
      ChainSame(mask, 16);
    }
    if AllSame(mask, 16) {
      forall i | 0 <= i < 15
        ensures Pair(Shr(mask, 2), i) == Pair(Low(mask, 30), i)
      {
        PairNext(mask, i);
        PairLow(mask, i, 15);
        assert Pair(mask, i + 1) == Pair(mask, 0) == Pair(mask, i);
      }
      FourBound(mask, 16);
      Split(mask, 30);
      PairsDetermine(Shr(mask, 2), Low(mask, 30), 15);
    }
  }

  lemma {:induction false} ChainSame(mask: nat, n: nat)
    requires n <= 16
    requires forall i :: 0 <= i < 15 ==> Pair(mask, i + 1) == Pair(mask, i)
    ensures AllSame(mask, n)
    decreases n
  {
    hide Pair;
    if n > 1 {
      ChainSame(mask, n - 1);
      assert Pair(mask, n - 2 + 1) == Pair(mask, n - 2);
    }
  }

  // ----- the accumulating loop

  datatype Sums = Sums(xx: nat, yy: nat, xy: nat, at1: seq<nat>, at2: seq<nat>)

  /**
   * The non-singular branch of stb__RefineBlock up to the solve: the three packed fields come apart
   * as the separate sums, and the divisor of the solve is positive.
   */
  method NormalEquations(block: seq<byte>, mask: nat) returns (r: Sums)
    requires |block| == 64 && mask < Pow2(32)
    requires !(Xor(mask, Low(Shl(mask, 2), 32)) < 4)
    ensures r.xx == SumXX(mask, 16) && r.yy == SumYY(mask, 16) && r.xy == SumXY(mask, 16)
    ensures r.xx * r.yy - r.xy * r.xy > 0
    ensures |r.at1| == 3 && |r.at2| == 3
    ensures forall ch :: 0 <= ch < 3 ==> r.at1[ch] == SumX(mask, block, ch, 16) && r.at2[ch] == SumY(mask, block, ch, 16)
  {
    hide Pair, Xor, Low, Shl, Shr, Pow2, W1, W2, Prods, SumXX, SumYY, SumXY, SumX, SumY, AllSame;
    TestIffAllSame(mask);
    Solvable(mask, 16);
    var akku: nat, cm := 0, mask;
    var at1_r: nat, at1_g: nat, at1_b: nat := 0, 0, 0;
    var at2_r: nat, at2_g: nat, at2_b: nat := 0, 0, 0;
    var i := 0;
    SumsStart(mask, block);
    while i < 16
      invariant 0 <= i <= 16 && cm == Shr(mask, 2 * i)
      invariant akku == 65536 * SumXX(mask, i) + 256 * SumYY(mask, i) + SumXY(mask, i)
      invariant at1_r == SumX(mask, block, 0, i) && 3 * at2_r - at1_r == SumY(mask, block, 0, i)
      invariant at1_g == SumX(mask, block, 1, i) && 3 * at2_g - at1_g == SumY(mask, block, 1, i)
      invariant at1_b == SumX(mask, block, 2, i) && 3 * at2_b - at1_b == SumY(mask, block, 2, i)
    {
      PairIs(mask, i);
      var step := Low(cm, 2);
      var w1 := W1(step);
      var red: nat, green: nat, blue: nat := block[i * 4], block[i * 4 + 1], block[i * 4 + 2];
      PackedStep(mask, i);
      ChannelStep(mask, block, 0, i);
      ChannelStep(mask, block, 1, i);
      ChannelStep(mask, block, 2, i);
      akku := akku + Prods(step);
      at1_r := at1_r + w1 * red;
      at1_g := at1_g + w1 * green;
      at1_b := at1_b + w1 * blue;
      at2_r := at2_r + red;
      at2_g := at2_g + green;
      at2_b := at2_b + blue;
      ShrShr(mask, 2 * i, 2);
      cm := Shr(cm, 2);
      i := i + 1;
    }
    FieldsApart(mask, akku);
    r := Sums(Shr(akku, 16), Low(Shr(akku, 8), 8), Low(akku, 8), [at1_r, at1_g, at1_b],
              [3 * at2_r - at1_r, 3 * at2_g - at1_g, 3 * at2_b - at1_b]);
  }

  lemma SumsStart(mask: nat, block: seq<byte>)
    requires |block| == 64
    ensures mask == Shr(mask, 0)
    ensures SumXX(mask, 0) == 0 && SumYY(mask, 0) == 0 && SumXY(mask, 0) == 0
    ensures forall ch :: 0 <= ch < 3 ==> SumX(mask, block, ch, 0) == 0 && SumY(mask, block, ch, 0) == 0
  {
  }

  /** One packed product adds one term to each of the three sums. */
  lemma PackedStep(mask: nat, i: nat)
    ensures 65536 * SumXX(mask, i + 1) + 256 * SumYY(mask, i + 1) + SumXY(mask, i + 1)
            == 65536 * SumXX(mask, i) + 256 * SumYY(mask, i) + SumXY(mask, i) + Prods(Pair(mask, i))
  {
    hide W1, W2, Pair;
    Products(Pair(mask, i));
  }

  lemma ChannelStep(mask: nat, block: seq<byte>, ch: nat, i: nat)
    requires |block| == 64 && ch < 3 && i < 16
    ensures var w: nat, v: nat := W1(Pair(mask, i)), block[i * 4 + ch];
            && w * v >= 0
            && SumX(mask, block, ch, i + 1) == SumX(mask, block, ch, i) + w * v
            && SumY(mask, block, ch, i + 1) == SumY(mask, block, ch, i) + 3 * v - w * v
  {
    hide Pair;
    Complementary(W1(Pair(mask, i)), block[i * 4 + ch]);
  }

  lemma Complementary(w: nat, v: int)
    requires w <= 3
    ensures (3 - w) * v == 3 * v - w * v
  {
  }

  lemma PairIs(mask: nat, i: nat)
    ensures Low(Shr(mask, 2 * i), 2) == Pair(mask, i) < 4
  {
  }

  /** No field of the packed sum carries into the next. */
  lemma FieldsApart(mask: nat, akku: nat)
    requires akku == 65536 * SumXX(mask, 16) + 256 * SumYY(mask, 16) + SumXY(mask, 16)
    ensures Shr(akku, 16) == SumXX(mask, 16)
    ensures Low(Shr(akku, 8), 8) == SumYY(mask, 16)
    ensures Low(akku, 8) == SumXY(mask, 16)
  {
    hide Shr, Low, SumXX, SumYY, SumXY, CountOf;
    SumsByCount(mask, 16);
    var xx, yy, xy := SumXX(mask, 16), SumYY(mask, 16), SumXY(mask, 16);
    assert yy < 256 && xy < 256;
    Shl8(256 * xx + yy);
    Shl8(xx);
    Pow2Values();
    hide Shl;
    var high := xx * 256 + yy;
    ShlSplit(high, xy, 8);
    assert Shl(high, 8) + xy == akku;
    ShlSplit(xx, yy, 8);
    assert Shl(xx, 8) + yy == high;
    ShrShr(akku, 8, 8);
  }

  lemma Shl8(x: nat)
    ensures Shl(x, 8) == 256 * x
  {
    assert Shl(x, 1) == 2 * x;
    assert Shl(x, 3) == 8 * x;
    assert Shl(x, 5) == 32 * x;
    assert Shl(x, 7) == 128 * x;
  }
}
