/** stbi__bitreverse16 and stbi__bit_reverse: reversal by swapping ever larger groups of bits. */
module BitReverse {
  import opened Bits

  type Width = d: nat | d == 1 || d == 2 || d == 4 || d == 8 witness 1

  /** One line of the source: `((n & hi) >> d) | ((n & lo) << d)`. */
  function SwapGroups(n: nat, hi: nat, lo: nat, d: Width): nat {
    Or(Shr(And(n, hi), d), Shl(And(n, lo), d))
  }

  function BitReverse16(n: nat): nat {
    var n1 := SwapGroups(n, 0xAAAA, 0x5555, 1);
    var n2 := SwapGroups(n1, 0xCCCC, 0x3333, 2);
    var n4 := SwapGroups(n2, 0xF0F0, 0x0F0F, 4);
    SwapGroups(n4, 0xFF00, 0x00FF, 8)
  }

  function BitReverseN(v: nat, bits: nat): nat
    requires bits <= 16
  {
    Shr(BitReverse16(v), 16 - bits)
  }

  /** The number of the group of d bits that holds bit i, as a parity. */
  function Parity(i: nat, d: Width): nat
  {
    if d == 1 then i % 2 else if d == 2 then i / 2 % 2 else if d == 4 then i / 4 % 2 else i / 8 % 2
  }

  /** The position a bit moves to when neighbouring groups of d bits trade places. */
  function Partner(i: nat, d: Width): int
  {
    if Parity(i, d) == 0 then i + d else i - d
  }

  /** `m`, whose lowest bit stands at position i, selects up to position 15 the groups with parity `odd`. */
  predicate Selects(m: nat, d: Width, odd: nat, i: nat)
    decreases 16 - i
  {
    i >= 16 || (m % 2 == (if Parity(i, d) == odd then 1 else 0) && Selects(m / 2, d, odd, i + 1))
  }

  lemma {:induction false} SelectsBit(m: nat, d: Width, odd: nat, i: nat, j: nat)
    requires i <= j < 16 && Selects(m, d, odd, i)
    ensures Bit(m, j - i) == if Parity(j, d) == odd then 1 else 0
    decreases 16 - i
  {
    if i < j {
      SelectsBit(m / 2, d, odd, i + 1, j);
    }
  }

  lemma Masks12()
    ensures Selects(0xAAAA, 1, 1, 0)
    ensures Selects(0x5555, 1, 0, 0)
    ensures Selects(0xCCCC, 2, 1, 0)
    ensures Selects(0x3333, 2, 0, 0)
  {
    assert Selects(0xA, 1, 1, 12) && Selects(0xAA, 1, 1, 8) && Selects(0xAAA, 1, 1, 4);
    assert Selects(0x5, 1, 0, 12) && Selects(0x55, 1, 0, 8) && Selects(0x555, 1, 0, 4);
    assert Selects(0xC, 2, 1, 12) && Selects(0xCC, 2, 1, 8) && Selects(0xCCC, 2, 1, 4);
    assert Selects(0x3, 2, 0, 12) && Selects(0x33, 2, 0, 8) && Selects(0x333, 2, 0, 4);
  }

  lemma Masks48()
    ensures Selects(0xF0F0, 4, 1, 0)
    ensures Selects(0x0F0F, 4, 0, 0)
    ensures Selects(0xFF00, 8, 1, 0)
    ensures Selects(0x00FF, 8, 0, 0)
  {
    assert Selects(0xF, 4, 1, 12) && Selects(0xF0, 4, 1, 8) && Selects(0xF0F, 4, 1, 4);
    assert Selects(0x0, 4, 0, 12) && Selects(0xF, 4, 0, 8) && Selects(0xF0, 4, 0, 4);
    assert Selects(0xF, 8, 1, 12) && Selects(0xFF, 8, 1, 8) && Selects(0xFF0, 8, 1, 4);
    assert Selects(0x0, 8, 0, 12) && Selects(0x0, 8, 0, 8) && Selects(0xF, 8, 0, 4);
  }

  lemma ParityMoves(i: nat, d: Width)
    requires i < 16
    ensures Parity(i + d, d) == 1 - Parity(i, d)
    ensures i >= d ==> Parity(i - d, d) == 1 - Parity(i, d)
    ensures Parity(i, d) == 1 ==> i >= d
    ensures Parity(i, d) == 0 ==> i + d < 16
  {
    ParityUp(i, d);
    if i >= d {
      ParityUp(i - d, d);
    }
  }

  lemma ParityUp(i: nat, d: Width)
    ensures Parity(i + d, d) == 1 - Parity(i, d)
  {
    if d == 1 {
      Flip(i);
    } else if d == 2 {
      Flip(i / 2);
    } else if d == 4 {
      Flip(i / 4);
    } else {
      Flip(i / 8);
    }
  }

  lemma Flip(q: nat)
    ensures (q + 1) % 2 == 1 - q % 2
  {
  }

  /** Where a bit of one swap stage can come from: d places above or d places below. */
  lemma SwapSources(n: nat, hi: nat, lo: nat, d: Width, i: nat)
    ensures Bit(SwapGroups(n, hi, lo, d), i) ==
            if (Bit(n, i + d) == 1 && Bit(hi, i + d) == 1)
               || (i >= d && Bit(n, i - d) == 1 && Bit(lo, i - d) == 1) then 1 else 0
  {
    var x, y := And(n, hi), And(n, lo);
    BitOr(Shr(x, d), Shl(y, d), i);
    BitShr(x, d, i);
    BitSplit(y, 0, d, i);
    BitZero(i);
    BitAnd(n, hi, i + d);
    if i >= d {
      BitAnd(n, lo, i - d);
    }
  }

  /** Every bit of one swap stage comes from its partner position. */
  lemma SwapGroupsBits(n: nat, hi: nat, lo: nat, d: Width, i: nat)
    requires i < 16
    requires hi < 65536 && Selects(hi, d, 1, 0) && Selects(lo, d, 0, 0)
    ensures 0 <= Partner(i, d) < 16
    ensures Bit(SwapGroups(n, hi, lo, d), i) == Bit(n, Partner(i, d))
  {
    hide Selects, SwapGroups, Bit, Pow2, Parity;
    SwapSources(n, hi, lo, d, i);
    ParityMoves(i, d);
    if i + d < 16 {
      SelectsBit(hi, d, 1, 0, i + d);
    } else {
      Pow2Values();
      BitHigh(hi, i + d, 16);
    }
    if i >= d {
      SelectsBit(lo, d, 0, 0, i - d);
    }
  }

  lemma SwapBytesBound(n: nat)
    ensures SwapGroups(n, 0xFF00, 0x00FF, 8) < Pow2(16)
  {
    var x, y := And(n, 0xFF00), And(n, 0x00FF);
    AndLe(n, 0xFF00);
    AndLe(n, 0x00FF);
    Split(x, 8);
    Pow2Values();
    ShlPow2(8, 8);
    ShlMonotone(Shr(x, 8), 256, 8);
    ShlMonotone(y, 256, 8);
    OrBound(Shr(x, 8), Shl(y, 8), 16);
  }

  /** The four swap stages reverse the low sixteen bits, whatever lies above them. */
  lemma PartnersReverse(i: nat)
    requires i < 16
    ensures 0 <= Partner(i, 8) < 16 && 0 <= Partner(Partner(i, 8), 4) < 16 && 0 <= Partner(Partner(Partner(i, 8), 4), 2) < 16
    ensures Partner(Partner(Partner(Partner(i, 8), 4), 2), 1) == 15 - i
  {
  }

  lemma BitReverse16Correct(n: nat)
    ensures BitReverse16(n) == Reverse(n, 16)
  {
    var n1 := SwapGroups(n, 0xAAAA, 0x5555, 1);
    var n2 := SwapGroups(n1, 0xCCCC, 0x3333, 2);
    var n4 := SwapGroups(n2, 0xF0F0, 0x0F0F, 4);
    Masks12();
    Masks48();
    hide Selects, SwapGroups, Bit, Reverse, Pow2, Partner;
    forall i | 0 <= i < 16
      ensures Bit(BitReverse16(n), i) == Bit(Reverse(n, 16), i)
    {
      PartnersReverse(i);
      SwapGroupsBits(n4, 0xFF00, 0x00FF, 8, i);
      var i8 := Partner(i, 8);
      SwapGroupsBits(n2, 0xF0F0, 0x0F0F, 4, i8);
      var i4 := Partner(i8, 4);
      SwapGroupsBits(n1, 0xCCCC, 0x3333, 2, i4);
      var i2 := Partner(i4, 2);
      SwapGroupsBits(n, 0xAAAA, 0x5555, 1, i2);
      BitReverse(n, 16, i);
    }
    SwapBytesBound(n4);
    ReverseBound(n, 16);
    BitsDetermine(BitReverse16(n), Reverse(n, 16), 16);
  }

  /** stbi__bit_reverse reverses exactly the low `bits` bits. */
  lemma BitReverseNCorrect(v: nat, bits: nat)
    requires bits <= 16
    ensures BitReverseN(v, bits) == Reverse(v, bits)
  {
    BitReverse16Correct(v);
    ReverseTop(v, bits, 16);
  }
}
