/** Unsigned machine words as natural numbers, and the C operators the codecs apply to them. */
module Bits {

  type byte = x: int | 0 <= x < 256

  function Pow2(n: nat): (r: nat)
    ensures r >= 1
  {
    if n == 0 then 1 else 2 * Pow2(n - 1)
  }

  /** Bit `i` of `x`, least significant first. */
  function Bit(x: nat, i: nat): (b: nat)
    ensures b <= 1
    decreases i
  {
    if i == 0 then x % 2 else Bit(x / 2, i - 1)
  }

  /** `x << n` */
  function Shl(x: nat, n: nat): nat {
    if n == 0 then x else 2 * Shl(x, n - 1)
  }

  /** `x >> n` */
  function Shr(x: nat, n: nat): nat
    decreases n
  {
    if n == 0 then x else Shr(x / 2, n - 1)
  }

  /** `x & ((1 << n) - 1)` */
  function Low(x: nat, n: nat): nat
    decreases n
  {
    if n == 0 then 0 else x % 2 + 2 * Low(x / 2, n - 1)
  }

  /** `(stbi__uint16) x` */
  function U16(x: nat): nat {
    x % 65536
  }

  /** `x & y` */
  function And(x: nat, y: nat): nat {
    if x == 0 || y == 0 then 0 else 2 * And(x / 2, y / 2) + (if x % 2 == 1 && y % 2 == 1 then 1 else 0)
  }

  /** `x | y` */
  function Or(x: nat, y: nat): nat
    decreases x + y
  {
    if x == 0 then y else if y == 0 then x
    else 2 * Or(x / 2, y / 2) + (if x % 2 == 1 || y % 2 == 1 then 1 else 0)
  }

  /** `x ^ y` */
  function Xor(x: nat, y: nat): nat
    decreases x + y
  {
    if x == 0 then y else if y == 0 then x
    else 2 * Xor(x / 2, y / 2) + (if x % 2 == y % 2 then 0 else 1)
  }

  /** The low `n` bits of `v` in the opposite order. */
  function Reverse(v: nat, n: nat): nat
    decreases n
  {
    if n == 0 then 0 else Shl(v % 2, n - 1) + Reverse(v / 2, n - 1)
  }

  // ----- powers of two and shifts

  lemma Pow2Values()
    ensures Pow2(1) == 2 && Pow2(2) == 4 && Pow2(3) == 8 && Pow2(4) == 16 && Pow2(5) == 32 && Pow2(7) == 128
    ensures Pow2(8) == 256 && Pow2(9) == 512 && Pow2(13) == 8192 && Pow2(15) == 32768 && Pow2(16) == 65536
    ensures Pow2(24) == 0x100_0000 && Pow2(32) == 0x1_0000_0000
  {
    assert Pow2(4) == 16;
    assert Pow2(8) == 256;
    assert Pow2(12) == 4096;
    assert Pow2(16) == 65536;
    assert Pow2(20) == 1048576;
    assert Pow2(24) == 0x100_0000;
    assert Pow2(28) == 0x1000_0000;
  }

  lemma Pow2Step(n: nat)
    ensures Pow2(n + 1) == 2 * Pow2(n)
  {
  }

  lemma {:induction false} Pow2Monotone(a: nat, b: nat)
    requires a <= b
    ensures Pow2(a) <= Pow2(b)
  {
    if a < b {
      Pow2Monotone(a, b - 1);
    }
  }

  lemma {:induction false} ShlPow2(a: nat, b: nat)
    ensures Shl(Pow2(a), b) == Pow2(a + b)
  {
    if b != 0 {
      ShlPow2(a, b - 1);
    }
  }

  lemma ShlOne(n: nat)
    ensures Shl(1, n) == Pow2(n)
  {
    ShlPow2(0, n);
  }

  lemma {:induction false} ShlAdd(x: nat, y: nat, n: nat)
    ensures Shl(x + y, n) == Shl(x, n) + Shl(y, n)
  {
    if n != 0 {
      ShlAdd(x, y, n - 1);
    }
  }

  lemma {:induction false} ShlMonotone(x: nat, y: nat, n: nat)
    ensures x <= y <==> Shl(x, n) <= Shl(y, n)
    ensures x < y <==> Shl(x, n) < Shl(y, n)
  {
    if n != 0 {
      ShlMonotone(x, y, n - 1);
    }
  }

  lemma {:induction false} ShlShl(x: nat, a: nat, b: nat)
    ensures Shl(Shl(x, a), b) == Shl(x, a + b)
  {
    if b != 0 {
      ShlShl(x, a, b - 1);
    }
  }

  /** `hi << n` plus a value below 2^n splits back into its two parts. */
  lemma {:induction false} ShlSplit(hi: nat, low: nat, n: nat)
    requires low < Pow2(n)
    ensures Shr(Shl(hi, n) + low, n) == hi
    ensures Low(Shl(hi, n) + low, n) == low
    decreases n
  {
    if n != 0 {
      var x := Shl(hi, n) + low;
      assert x % 2 == low % 2 && x / 2 == Shl(hi, n - 1) + low / 2;
      ShlSplit(hi, low / 2, n - 1);
    }
  }

  /** Every value is the sum of its two parts, and the low part is below 2^n. */
  lemma {:induction false} Split(x: nat, n: nat)
    ensures x == Shl(Shr(x, n), n) + Low(x, n)
    ensures Low(x, n) < Pow2(n)
    decreases n
  {
    if n != 0 {
      Split(x / 2, n - 1);
    }
  }

  lemma {:induction false} ShrShr(x: nat, a: nat, b: nat)
    ensures Shr(x, a + b) == Shr(Shr(x, a), b)
    decreases a
  {
    if a > 0 {
      ShrShr(x / 2, a - 1, b);
    }
  }

  lemma ShrByte(v: byte)
    ensures Shr(v, 8) == 0
  {
    Pow2Values();
    ShlZero(8);
    ShlSplit(0, v, 8);
  }

  lemma {:induction false} ShrStep(v: nat, i: nat)
    ensures Shr(v, i + 1) == Shr(v, i) / 2
    decreases i
  {
    if i != 0 {
      ShrStep(v / 2, i - 1);
    }
  }

  lemma {:induction false} LowSmall(x: nat, n: nat)
    requires x < Pow2(n)
    ensures Low(x, n) == x
    decreases n
  {
    if n != 0 {
      LowSmall(x / 2, n - 1);
    }
  }

  /** Masking to a bits after masking to a + b bits. */
  lemma {:induction false} LowLow(x: nat, a: nat, b: nat)
    ensures Low(Low(x, a + b), a) == Low(x, a)
    decreases a
  {
    if a != 0 {
      var y := Low(x, a + b);
      assert y % 2 == x % 2 && y / 2 == Low(x / 2, a - 1 + b);
      LowLow(x / 2, a - 1, b);
    }
  }

  // ----- bits of a value

  /** Values below 2^n are determined by their low n bits. */
  lemma {:induction false} BitsDetermine(x: nat, y: nat, n: nat)
    requires x < Pow2(n) && y < Pow2(n)
    requires forall i :: 0 <= i < n ==> Bit(x, i) == Bit(y, i)
    ensures x == y
    decreases n
  {
    if n != 0 {
      assert Bit(x, 0) == Bit(y, 0);
      forall i | 0 <= i < n - 1
        ensures Bit(x / 2, i) == Bit(y / 2, i)
      {
        assert Bit(x, i + 1) == Bit(y, i + 1);
      }
      BitsDetermine(x / 2, y / 2, n - 1);
    }
  }

  lemma {:induction false} BitAnd(x: nat, y: nat, i: nat)
    ensures Bit(And(x, y), i) == if Bit(x, i) == 1 && Bit(y, i) == 1 then 1 else 0
    decreases i
  {
    if x == 0 || y == 0 {
      BitZero(i);
    } else if i != 0 {
      BitAnd(x / 2, y / 2, i - 1);
    }
  }

  lemma {:induction false} BitOr(x: nat, y: nat, i: nat)
    ensures Bit(Or(x, y), i) == if Bit(x, i) == 1 || Bit(y, i) == 1 then 1 else 0
    decreases i
  {
    if x == 0 || y == 0 {
      BitZero(i);
    } else if i != 0 {
      BitOr(x / 2, y / 2, i - 1);
    }
  }

  lemma {:induction false} BitZero(i: nat)
    ensures Bit(0, i) == 0
    decreases i
  {
    if i != 0 {
      BitZero(i - 1);
    }
  }

  lemma {:induction false} BitHigh(x: nat, i: nat, n: nat)
    requires x < Pow2(n) && n <= i
    ensures Bit(x, i) == 0
    decreases i
  {
    if n == 0 {
      BitZero(i);
    } else {
      BitHigh(x / 2, i - 1, n - 1);
    }
  }

  lemma {:induction false} BitShr(x: nat, d: nat, i: nat)
    ensures Bit(Shr(x, d), i) == Bit(x, i + d)
    decreases d
  {
    if d != 0 {
      BitShr(x / 2, d - 1, i);
    }
  }

  /** Bits of `(hi << n) + low`: the low part below n, the high part above. */
  lemma {:induction false} BitSplit(hi: nat, low: nat, n: nat, i: nat)
    requires low < Pow2(n)
    ensures Bit(Shl(hi, n) + low, i) == if i < n then Bit(low, i) else Bit(hi, i - n)
    decreases n
  {
    if n != 0 {
      var x := Shl(hi, n) + low;
      assert x % 2 == low % 2 && x / 2 == Shl(hi, n - 1) + low / 2;
      if i != 0 {
        BitSplit(hi, low / 2, n - 1, i - 1);
      }
    }
  }

  lemma {:induction false} AndLe(x: nat, y: nat)
    ensures And(x, y) <= y
  {
    if x != 0 && y != 0 {
      AndLe(x / 2, y / 2);
    }
  }

  lemma {:induction false} OrBound(x: nat, y: nat, n: nat)
    requires x < Pow2(n) && y < Pow2(n)
    ensures Or(x, y) < Pow2(n)
    decreases n
  {
    if n != 0 && x != 0 && y != 0 {
      OrBound(x / 2, y / 2, n - 1);
    }
  }

  lemma {:induction false} OrCommutes(x: nat, y: nat)
    ensures Or(x, y) == Or(y, x)
    decreases x + y
  {
    if x != 0 && y != 0 {
      OrCommutes(x / 2, y / 2);
    }
  }

  /** `low | (hi << n)` is a sum when the two parts share no bit. */
  lemma {:induction false} OrDisjoint(low: nat, hi: nat, n: nat)
    requires low < Pow2(n)
    ensures Or(low, Shl(hi, n)) == low + Shl(hi, n)
    decreases n
  {
    if n != 0 {
      var h := Shl(hi, n - 1);
      OrDisjoint(low / 2, hi, n - 1);
      assert Shl(hi, n) / 2 == h && Shl(hi, n) % 2 == 0;
      if low != 0 && h != 0 {
        assert Or(low, 2 * h) == 2 * Or(low / 2, h) + low % 2;
      }
    }
  }

  /** `x ^ (2^n - 1)` is the n-bit complement. */
  lemma {:induction false} XorOnes(x: nat, n: nat)
    requires x < Pow2(n)
    ensures Xor(x, Pow2(n) - 1) == Pow2(n) - 1 - x
    decreases n
  {
    if n != 0 && x != 0 {
      var m := Pow2(n) - 1;
      assert m / 2 == Pow2(n - 1) - 1 && m % 2 == 1;
      XorOnes(x / 2, n - 1);
    }
  }

  // ----- reversal

  lemma {:induction false} ReverseBound(v: nat, n: nat)
    ensures Reverse(v, n) < Pow2(n)
    decreases n
  {
    if n != 0 {
      ReverseBound(v / 2, n - 1);
      ShlOne(n - 1);
      ShlMonotone(v % 2, 1, n - 1);
    }
  }

  /** Reading a reversed value bit by bit is reading the value from the other end. */
  lemma {:induction false} BitReverse(v: nat, n: nat, i: nat)
    requires i < n
    ensures Bit(Reverse(v, n), i) == Bit(v, n - 1 - i)
    decreases n
  {
    ReverseBound(v / 2, n - 1);
    BitSplit(v % 2, Reverse(v / 2, n - 1), n - 1, i);
    if i < n - 1 {
      BitReverse(v / 2, n - 1, i);
    }
  }

  /** Reversing splits at any point: the low b bits land on top. */
  lemma {:induction false} ReverseSplit(v: nat, b: nat, a: nat)
    ensures Reverse(v, b + a) == Shl(Reverse(v, b), a) + Reverse(Shr(v, b), a)
    decreases b
  {
    if b == 0 {
      assert Shl(0, a) == 0 by { ShlZero(a); }
    } else {
      ReverseSplit(v / 2, b - 1, a);
      ShlAdd(Shl(v % 2, b - 1), Reverse(v / 2, b - 1), a);
      ShlShl(v % 2, b - 1, a);
      assert Reverse(v, b + a) == Shl(v % 2, b - 1 + a) + Reverse(v / 2, b - 1 + a);
    }
  }

  lemma {:induction false} ShlZero(n: nat)
    ensures Shl(0, n) == 0
  {
    if n != 0 {
      ShlZero(n - 1);
    }
  }

  /** The top L bits of a reversed word of n bits are the reversal of the low L bits. */
  lemma ReverseTop(v: nat, L: nat, n: nat)
    requires L <= n
    ensures Shr(Reverse(v, n), n - L) == Reverse(v, L)
  {
    ReverseSplit(v, L, n - L);
    ReverseBound(Shr(v, L), n - L);
    ShlSplit(Reverse(v, L), Reverse(Shr(v, L), n - L), n - L);
  }

  /** Only the low n bits matter. */
  lemma {:induction false} ReverseLow(v: nat, n: nat)
    ensures Reverse(Low(v, n), n) == Reverse(v, n)
    decreases n
  {
    if n != 0 {
      var y := Low(v, n);
      assert y % 2 == v % 2 && y / 2 == Low(v / 2, n - 1);
      ReverseLow(v / 2, n - 1);
    }
  }

  /** Reversing n bits twice gives the value back. */
  lemma {:induction false} ReverseInvolution(v: nat, n: nat)
    requires v < Pow2(n)
    ensures Reverse(Reverse(v, n), n) == v
  {
    var r := Reverse(v, n);
    ReverseBound(v, n);
    ReverseBound(r, n);
    forall i | 0 <= i < n
      ensures Bit(Reverse(r, n), i) == Bit(v, i)
    {
      BitReverse(r, n, i);
      BitReverse(v, n, n - 1 - i);
    }
    BitsDetermine(Reverse(r, n), v, n);
  }
}
