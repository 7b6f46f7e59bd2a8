/** BC6H blocks: a 128-bit shift register that yields the header fields and then the indices. */
module Bc6h {
  import opened Arith
  import opened Bits
  import opened BptcTables
  import opened BptcMasks
  import opened Bc6hLayout
  import Bc7

  // ----- the shift register

  /** The bits a read returns, moved to their place in the variable. */
  function Placed(word: nat, lo: nat, hi: nat, reversed: bool): nat
    requires lo <= hi
  {
    var n := hi - lo + 1;
    Shl(if reversed then Reverse(Low(word, n), n) else Low(word, n), lo)
  }

  function Min(a: nat, b: nat): nat { if a < b then a else b }
  function Max(a: nat, b: nat): nat { if a < b then b else a }

  lemma {:induction false} ReverseLoop(v: nat, tmp: nat, n: nat)
    ensures Shl(tmp, n) + Reverse(v, n) == if n == 0 then tmp else Shl(2 * tmp + v % 2, n - 1) + Reverse(v / 2, n - 1)
  {
    if n > 0 {
      ShlAdd(2 * tmp, v % 2, n - 1);
      ShlShl(tmp, 1, n - 1);
      assert Shl(tmp, 1) == 2 * tmp;
    }
  }

  lemma AppendBit(tmp: nat, v: nat)
    ensures Or(Shl(tmp, 1), v % 2) == 2 * tmp + v % 2
  {
    assert Shl(tmp, 1) == 2 * tmp;
    OrCommutes(Shl(tmp, 1), v % 2);
    OrDisjoint(v % 2, tmp, 1);
  }

  class Data {
    var low64: nat
    var high64: nat

    ghost predicate Valid()
      reads this
    {
      Bc7.Word64(low64) && Bc7.Word64(high64)
    }

    /** The bits not consumed yet, as one number. */
    ghost function Word(): nat
      reads this
    {
      Bc7.Word(low64, high64)
    }

    constructor (low64: nat, high64: nat)
      requires Bc7.Word64(low64) && Bc7.Word64(high64)
      ensures Valid() && Word() == Bc7.Word(low64, high64) && this.low64 == low64
    {
      this.low64, this.high64 := low64, high64;
    }

    /** Takes the low bits of the word, reversed if MSB < LSB, and shifts the word down. */
    method ConsumeBits(msb0: nat, lsb0: nat) returns (bits: nat)
      requires Valid() && Max(msb0, lsb0) - Min(msb0, lsb0) < 31
      modifies this
      ensures Valid() && Word() == Shr(old(Word()), Max(msb0, lsb0) - Min(msb0, lsb0) + 1)
      ensures bits == Placed(old(Word()), Min(msb0, lsb0), Max(msb0, lsb0), msb0 < lsb0)
    {
      hide Shl, Shr, Low, Or, Reverse, Bc7.Word, Bc7.Word64;
      var reversed := msb0 < lsb0;
      var msb, lsb := Max(msb0, lsb0), Min(msb0, lsb0);
      var numBits := msb - lsb + 1;
      LowOfWord(low64, high64, numBits);
      ShiftWord(low64, high64, numBits);
      bits := Low(low64, numBits);
      low64 := Shr(low64, numBits);
      low64 := Or(low64, Shl(Low(high64, numBits), 64 - numBits));
      high64 := Shr(high64, numBits);
      if reversed {
        bits := Reversed(bits, numBits);
      }
      bits := Shl(bits, lsb);
    }

    /** The loop that turns the bits around. */
    method Reversed(bits0: nat, numBits: nat) returns (tmp: nat)
      ensures tmp == Reverse(bits0, numBits)
    {
      hide Shl, Or, Reverse;
      tmp := 0;
      var bits, numSwaps := bits0, 0;
      ShlZero(numBits);
      while numSwaps < numBits
        invariant 0 <= numSwaps <= numBits
        invariant Shl(tmp, numBits - numSwaps) + Reverse(bits, numBits - numSwaps) == Reverse(bits0, numBits)
      {
        ReverseLoop(bits, tmp, numBits - numSwaps);
        AppendBit(tmp, bits);
        tmp := Or(Shl(tmp, 1), bits % 2);
        bits := bits / 2;
        numSwaps := numSwaps + 1;
      }
      ReverseLoop(bits, tmp, 0);
    }
  }

  lemma LowOfWord(low: nat, high: nat, n: nat)
    requires n <= 64
    ensures Low(Bc7.Word(low, high), n) == Low(low, n)
  {
    hide Low, Shl;
    Bc7.LowDropsHigh(low, high, n, 64 - n);
  }

  /** Shifting both halves, the carried bits included, is shifting the word. */
  lemma ShiftWord(low: nat, high: nat, n: nat)
    requires Bc7.Word64(low) && Bc7.Word64(high) && n <= 64
    ensures var low' := Or(Shr(low, n), Shl(Low(high, n), 64 - n));
            && Bc7.Word64(low') && Bc7.Word64(Shr(high, n))
            && Bc7.Word(low', Shr(high, n)) == Shr(Bc7.Word(low, high), n)
  {
    hide Shl, Shr, Low, Or, Pow2;
    Bc7.ShrWord(low, high, n);
    Bc7.HighPart(high, n);
    OrDisjoint(Shr(low, n), Low(high, n), 64 - n);
    Split(high, n);
    ShlAdd(Low(high, n), 1, 64 - n);
    ShlMonotone(Low(high, n) + 1, Pow2(n), 64 - n);
    ShlPow2(n, 64 - n);
    ShlOne(64 - n);
    ShlGrows(Shr(high, n), n);
  }

  lemma {:induction false} ShlGrows(x: nat, n: nat)
    ensures x <= Shl(x, n)
  {
    if n > 0 {
      ShlGrows(x, n - 1);
    }
  }

  // ----- the header

  /** The targets after reading all fields; each field is or-ed into its 16-bit target. */
  function Parse(l: Layout, word: nat, e: seq<nat>): (r: seq<nat>)
    requires |e| == 13 && Fits(l)
    ensures |r| == 13
  {
    if l == End then e
    else
      var k := Index(l.target);
      Parse(l.rest, Shr(word, l.hi - l.lo + 1), e[k := U16(Or(e[k], Placed(word, l.lo, l.hi, l.reversed)))])
  }

  function Zeros(): (z: seq<nat>)
    ensures |z| == 13 && forall k :: 0 <= k < 13 ==> z[k] == 0
  {
    seq(13, _ => 0)
  }

  method ParseHeader(data: Data, l0: Layout) returns (e: seq<nat>)
    requires data.Valid() && Fits(l0) && 0 <= HeaderBits(l0)
    modifies data
    ensures data.Valid() && data.Word() == Shr(old(data.Word()), HeaderBits(l0))
    ensures e == Parse(l0, old(data.Word()), Zeros())
  {
    hide Shr, Placed, Or, Data.Valid, U16;
    e := Zeros();
    var l := l0;
    assert Shr(data.Word(), 0) == data.Word() by { ShrNothing(data.Word()); }
    while l != End
      invariant |e| == 13 && data.Valid() && Fits(l) && HeaderBits(l) <= HeaderBits(l0)
      invariant data.Word() == Shr(old(data.Word()), HeaderBits(l0) - HeaderBits(l))
      invariant Parse(l, data.Word(), e) == Parse(l0, old(data.Word()), Zeros())
      decreases l
    {
      ShrShr(old(data.Word()), HeaderBits(l0) - HeaderBits(l), l.hi - l.lo + 1);
      var msb, lsb := if l.reversed then l.lo else l.hi, if l.reversed then l.hi else l.lo;
      var bits := data.ConsumeBits(msb, lsb);
      var k := Index(l.target);
      e := e[k := U16(Or(e[k], bits))];
      l := l.rest;
    }
  }

  lemma ShrNothing(x: nat)
    ensures Shr(x, 0) == x
  {
  }

  /** A field moves each of its bits to one bit of the variable and touches no other. */
  lemma PlacedBit(word: nat, lo: nat, hi: nat, reversed: bool, i: nat)
    requires lo <= hi
    ensures Bit(Placed(word, lo, hi, reversed), i) == if lo <= i <= hi then Bit(word, Source(lo, hi, reversed, i)) else 0
  {
    hide Shl, Low, Reverse, Bit, Pow2;
    var n := hi - lo + 1;
    var v := Low(word, n);
    Split(word, n);
    ReverseBound(v, n);
    var x := if reversed then Reverse(v, n) else v;
    BitSplit(x, 0, lo, i);
    if i < lo {
      BitZero(i);
    } else if i - lo >= n {
      BitHigh(x, i - lo, n);
    } else {
      if reversed {
        BitReverse(v, n, i - lo);
      }
      BitSplit(Shr(word, n), v, n, Source(lo, hi, reversed, i));
    }
  }

  /** The first field writes bit b of target t. */
  predicate Here(l: Layout, t: Target, b: nat) {
    l != End && l.target == t && l.lo <= b <= l.hi
  }

  lemma CoversStep(l: Layout, t: Target, b: nat)
    requires Fits(l) && l != End && b < 16
    ensures Covers(l, Slot(t) + b) == (if Here(l, t, b) then 1 else 0) + Covers(l.rest, Slot(t) + b)
  {
    hide Index;
    Apart(l.target, t);
  }

  lemma Apart(t: Target, t': Target)
    ensures Index(t) == Index(t') <==> t == t'
  {
  }

  lemma {:induction false} WhereInside(l: Layout, t: Target, b: nat)
    requires Fits(l) && Covers(l, Slot(t) + b) > 0 && b < 16
    ensures 0 <= Where(l, t, b) < HeaderBits(l)
  {
    hide Slot;
    CoversStep(l, t, b);
    HeaderPositive(l.rest);
    if !Here(l, t, b) {
      WhereInside(l.rest, t, b);
    }
  }

  lemma {:induction false} HeaderPositive(l: Layout)
    requires Fits(l)
    ensures 0 <= HeaderBits(l)
  {
    if l != End {
      HeaderPositive(l.rest);
    }
  }

  lemma WhereStep(l: Layout, t: Target, b: nat)
    requires Fits(l) && Covers(l, Slot(t) + b) > 0 && b < 16
    ensures l != End && Fits(l.rest)
    ensures Here(l, t, b) ==> Where(l, t, b) == Source(l.lo, l.hi, l.reversed, b) && 0 <= Where(l, t, b) <= l.hi - l.lo && l.target == t
    ensures !Here(l, t, b) ==> Where(l, t, b) == l.hi - l.lo + 1 + Where(l.rest, t, b) && 0 <= Where(l.rest, t, b)
    ensures !Here(l, t, b) ==> Covers(l.rest, Slot(t) + b) > 0
  {
    NotEnd(l, Slot(t) + b);
    hide Slot, Covers;
    CoversStep(l, t, b);
    if !Here(l, t, b) {
      WhereInside(l.rest, t, b);
    }
  }

  /** Different bits come from different header bits. */
  lemma {:induction false} WhereInjective(l: Layout, t: Target, b: nat, t': Target, b': nat)
    requires Fits(l) && b < 16 && b' < 16 && (t != t' || b != b')
    requires Covers(l, Slot(t) + b) > 0 && Covers(l, Slot(t') + b') > 0
    ensures Where(l, t, b) != Where(l, t', b')
  {
    hide Slot, Covers, Where, Here, Fits;
    WhereStep(l, t, b);
    WhereStep(l, t', b');
    if !Here(l, t, b) && !Here(l, t', b') {
      WhereInjective(l.rest, t, b, t', b');
    }
  }

  lemma NotEnd(l: Layout, g: nat)
    requires Covers(l, g) > 0
    ensures l != End
  {
  }

  /** What bit b of target t receives. */
  function Received(l: Layout, word: nat, t: Target, b: nat): nat
    requires Fits(l)
  {
    if l == End then 0
    else if Here(l, t, b) && Bit(word, Source(l.lo, l.hi, l.reversed, b)) == 1 then 1
    else Received(l.rest, Shr(word, l.hi - l.lo + 1), t, b)
  }

  lemma Bit16(x: nat, b: nat)
    requires b < 16
    ensures Bit(U16(x), b) == Bit(x, b)
  {
    hide Bit, Shl, Shr, Low, Pow2;
    LowIsMod(x, 16);
    Pow2Values();
    Split(x, 16);
    BitSplit(Shr(x, 16), Low(x, 16), 16, b);
  }

  lemma {:induction false} ParseBit(l: Layout, word: nat, e: seq<nat>, t: Target, b: nat)
    requires Fits(l) && |e| == 13 && b < 16
    ensures Bit(Parse(l, word, e)[Index(t)], b) == if Bit(e[Index(t)], b) == 1 then 1 else Received(l, word, t, b)
  {
    hide Bit, Placed, Or, U16, Index, Shr;
    if l != End {
      Apart(l.target, t);
      var k := Index(l.target);
      var x := Or(e[k], Placed(word, l.lo, l.hi, l.reversed));
      ParseBit(l.rest, Shr(word, l.hi - l.lo + 1), e[k := U16(x)], t, b);
      Bit16(x, b);
      BitOr(e[k], Placed(word, l.lo, l.hi, l.reversed), b);
      PlacedBit(word, l.lo, l.hi, l.reversed, b);
    }
  }

  lemma {:induction false} ReceivedFrom(l: Layout, word: nat, t: Target, b: nat)
    requires Fits(l) && b < 16
    ensures Covers(l, Slot(t) + b) == 0 ==> Received(l, word, t, b) == 0
    ensures Covers(l, Slot(t) + b) == 1 ==> 0 <= Where(l, t, b) && Received(l, word, t, b) == Bit(word, Where(l, t, b))
  {
    if l != End {
      hide Bit, Slot, Covers, Shr;
      var n := l.hi - l.lo + 1;
      CoversStep(l, t, b);
      ReceivedFrom(l.rest, Shr(word, n), t, b);
      if !Here(l, t, b) && Covers(l, Slot(t) + b) == 1 {
        BitShr(word, n, Where(l.rest, t, b));
      }
    }
  }

  /**
   * In every mode each bit of each endpoint channel and of the partition number is one header bit,
   * a different one for each (WhereInjective), and the bits above the target's size are clear.
   */
  lemma HeaderBit(i: nat, word: nat, t: Target, b: nat)
    requires i < 14 && b < 16
    ensures Fits(Fields(i))
    ensures var l := Fields(i);
            Bit(Parse(l, word, Zeros())[Index(t)], b)
            == if b < Size(Modes(i), t) then Bit(word, WhereFrom(i, t, b)) else 0
  {
    hide Bit, Fields, Modes, Fits, Covers, Parse, Where, Size, Slot, Index, Sum, HeaderBits, MaskSum, SizeSum;
    ModeSums(i);
    ExactlyOnce(i, t, b);
    ParseBit(Fields(i), word, Zeros(), t, b);
    BitZero(b);
    ReceivedFrom(Fields(i), word, t, b);
  }

  function WhereFrom(i: nat, t: Target, b: nat): nat {
    var w := Where(Fields(i), t, b);
    if w < 0 then 0 else w
  }

  // ----- endpoints

  lemma {:induction false} XorTop(v: nat, n: nat)
    requires v < Pow2(n)
    ensures Xor(v, Pow2(n)) == v + Pow2(n) && Xor(v + Pow2(n), Pow2(n)) == v
  {
    if n > 0 {
      XorTop(v / 2, n - 1);
      assert Pow2(n) / 2 == Pow2(n - 1) && Pow2(n) % 2 == 0;
      assert (v + Pow2(n)) / 2 == v / 2 + Pow2(n - 1) && (v + Pow2(n)) % 2 == v % 2;
    } else {
      assert Xor(1, 1) == 2 * Xor(0, 0) + 0;
    }
  }

  function ExtendSign(val: nat, size: nat): int
    requires size > 0
  {
    Xor(val, Pow2(size - 1)) - Pow2(size - 1)
  }

  /** Two's complement of n bits. */
  function Signed(v: nat, n: nat): int
    requires n > 0
  {
    if v < Pow2(n - 1) then v else v - Pow2(n)
  }

  lemma ExtendSignIs(v: nat, n: nat)
    requires n > 0 && v < Pow2(n)
    ensures ExtendSign(v, n) == Signed(v, n)
  {
    hide Xor, Pow2;
    Pow2Step(n - 1);
    if v < Pow2(n - 1) {
      XorTop(v, n - 1);
    } else {
      XorTop(v - Pow2(n - 1), n - 1);
    }
  }

  /** `(uint16_t) x` */
  function Word16(x: int): nat {
    x % 65536
  }

  /** A channel of an endpoint after sign extension and resolving the delta, as the 16-bit variable holds it. */
  function Resolve(base: nat, raw: nat, isBase: bool, hasDelta: bool, isSigned: bool, bits: nat, deltaBits: nat): nat
    requires bits > 0 && (hasDelta ==> deltaBits > 0)
  {
    if isBase || !hasDelta then (if isSigned then Word16(ExtendSign(raw, bits)) else raw)
    else
      var b := if isSigned then Word16(ExtendSign(base, bits)) else base;
      var sum := Low(b + Word16(ExtendSign(raw, deltaBits)), bits);
      if isSigned then Word16(ExtendSign(sum, bits)) else sum
  }

  lemma {:induction false} ShlIsProduct(x: nat, n: nat)
    ensures Shl(x, n) == x * Pow2(n)
  {
    if n > 0 {
      ShlIsProduct(x, n - 1);
      DoubledFactor(x, Pow2(n - 1));
    }
  }

  lemma DoubledFactor(x: int, y: int)
    ensures 2 * (x * y) == x * (2 * y)
  {
  }

  lemma LowIsMod(x: nat, n: nat)
    ensures Low(x, n) == x % Pow2(n)
  {
    hide Low, Shl, Shr, Pow2;
    Split(x, n);
    ShlIsProduct(Shr(x, n), n);
    DivModUnique(x, Pow2(n), Shr(x, n), Low(x, n));
  }

  /** Resolving a delta adds it, as a signed number, to the base, modulo the width of the base. */
  lemma DeltaAdds(base: nat, raw: nat, bits: nat, deltaBits: nat)
    requires 0 < bits <= 16 && 0 < deltaBits <= 16 && base < Pow2(bits) && raw < Pow2(deltaBits)
    ensures Resolve(base, raw, false, true, false, bits, deltaBits) == (base + Signed(raw, deltaBits)) % Pow2(bits)
  {
    hide Xor, Low, Pow2, Signed, ExtendSign, Word16;
    ExtendSignIs(raw, deltaBits);
    var d := ExtendSign(raw, deltaBits);
    LowIsMod(base + Word16(d), bits);
    WrapMod(base, d, bits);
  }

  /** The same for signed blocks, where the base and the result are signed too. */
  lemma SignedDeltaAdds(base: nat, raw: nat, bits: nat, deltaBits: nat)
    requires 0 < bits <= 16 && 0 < deltaBits <= 16 && base < Pow2(bits) && raw < Pow2(deltaBits)
    ensures Resolve(base, raw, false, true, true, bits, deltaBits)
            == Word16(Signed((Signed(base, bits) + Signed(raw, deltaBits)) % Pow2(bits), bits))
  {
    hide Xor, Low, Pow2, Signed, ExtendSign, Word16;
    ExtendSignIs(base, bits);
    ExtendSignIs(raw, deltaBits);
    var b, d := ExtendSign(base, bits), ExtendSign(raw, deltaBits);
    LowIsMod(Word16(b) + Word16(d), bits);
    WrapMod(Word16(b), d, bits);
    WrapMod(d, b, bits);
    var sum := Low(Word16(b) + Word16(d), bits);
    Split(Word16(b) + Word16(d), bits);
    ExtendSignIs(sum, bits);
  }

  /** Wrapping to 16 bits does not matter to a narrower sum. */
  lemma WrapMod(a: int, x: int, bits: nat)
    requires bits <= 16
    ensures (a + Word16(x)) % Pow2(bits) == (a + x) % Pow2(bits)
  {
    hide Pow2;
    var m, k := Pow2(bits), Pow2(16 - bits);
    Pow2Values();
    Pow2Product(bits, 16 - bits);
    var q := x / 65536;
    assert x == 65536 * q + Word16(x);
    assert a + x == (a + Word16(x)) + m * (k * q) by { assert m * k * q == m * (k * q); }
    ModShift(a + Word16(x), m, k * q);
  }

  lemma ModShift(a: int, m: nat, k: int)
    requires m > 0
    ensures (a + m * k) % m == a % m
  {
    var q, r := a / m, a % m;
    assert a == m * q + r;
    assert a + m * k == (q + k) * m + r;
    DivModUnique(a + m * k, m, q + k, r);
  }

  // ----- unquantization

  function UnquantizeUnsigned(c: nat, size: nat): nat {
    if size >= 15 || c == 0 then c
    else if c == Pow2(size) - 1 then 0xffff
    else Word16(Shr(Shl(c, 16) + 0x8000, size))
  }

  /** On 16-bit two's complement values. */
  function UnquantizeSigned(value: int, size: nat): int
    requires size > 0
  {
    if size >= 16 || value == 0 then value
    else
      var v: nat := if value < 0 then -value else value;
      var result := if v >= Pow2(size - 1) - 1 then 0x7fff else Shr(Shl(v, 15) + 0x4000, size - 1);
      if value < 0 then -result else result
  }

  /** The result is a 16-bit value, and the ends of the range stay the ends. */
  lemma UnquantizedRange(c: nat, size: nat)
    requires 0 < size <= 16 && c < Pow2(size)
    ensures 0 < size < 15 && c < Pow2(size) - 1 ==> Shr(Shl(c, 16) + 0x8000, size) <= 0xffff
    ensures UnquantizeUnsigned(0, size) == 0
    ensures size < 15 ==> UnquantizeUnsigned(Pow2(size) - 1, size) == 0xffff
  {
    hide Shl, Shr, Low, Pow2;
    Pow2Values();
    Pow2Monotone(size, 16);
    Pow2Monotone(1, size);
    if size < 15 && c < Pow2(size) - 1 {
      var x := Shl(c, 16) + 0x8000;
      Split(x, size);
      ShlMonotone(c + 1, Pow2(size), 16);
      ShlAdd(c, 1, 16);
      ShlOne(16);
      ShlPow2(size, 16);
      ShlMonotone(Shr(x, size), Pow2(16), size);
      ShlPow2(16, size);
    }
  }

  /** Below 16 bits no value unquantizes to -32768; 16-bit values stay as they are. */
  lemma UnquantizedSignedRange(v: int, size: nat)
    requires 0 < size <= 16
    ensures size < 16 ==> -0x7fff <= UnquantizeSigned(v, size) <= 0x7fff
    ensures size == 16 ==> UnquantizeSigned(v, size) == v
  {
    hide Shl, Shr, Low, Pow2;
    Pow2Values();
    Pow2Monotone(size - 1, 15);
    if size < 16 && v != 0 {
      var a: nat := if v < 0 then -v else v;
      if a < Pow2(size - 1) - 1 {
        var x := Shl(a, 15) + 0x4000;
        Split(x, size - 1);
        ShlMonotone(a + 1, Pow2(size - 1), 15);
        ShlAdd(a, 1, 15);
        ShlOne(15);
        ShlPow2(size - 1, 15);
        ShlMonotone(Shr(x, size - 1), Pow2(15), size - 1);
        ShlPow2(15, size - 1);
      }
    }
  }

  // ----- half floats

  /** The last step: scale the blend into the range of half floats, sign and magnitude if signed. */
  function ToHalf(blend: int, isSigned: bool): int {
    if !isSigned then blend * 31 / 64
    else
      var h := if blend < 0 then Or(-blend * 31 / 32, 0x8000) else blend * 31 / 32;
      if h == 0x8000 then 0 else h
  }

  /** Exponent bits not all set. */
  predicate FiniteHalf(h: int) {
    0 <= h < 0x10000 && h % 0x8000 < 0x7c00
  }

  // ----- whole blocks

  /** Turns a mode number into an index of the mode table; -1 for reserved modes. */
  function ModeToIndex(mode: nat): int {
    if mode <= 3 then mode
    else if mode / 2 % 2 != 0 then
      if mode <= 18 then mode / 2 + 1 + mode % 2
      else if mode == 22 || mode == 26 || mode == 30 then mode / 4 + 6
      else -1
    else -1
  }

  /** The two short modes have their second bit clear; the others take five bits. */
  function ModeBits(word: nat): nat {
    if Bit(word, 1) == 0 then 2 else 5
  }

  function ModeOf(word: nat): int {
    ModeToIndex(Low(word, ModeBits(word)))
  }

  lemma LowTwo(word: nat)
    ensures Bit(word, 1) == 0 ==> Low(word, 2) <= 1
    ensures Low(word, 5) / 2 % 2 == Bit(word, 1) && Low(word, 5) < 32
  {
    hide Low, Bit, Pow2;
    var half := word / 2;
    Unfold(word, 1);
    Unfold(half, 0);
    Unfold(half / 2, 0);
    Unfold(word, 4);
    Unfold(half, 3);
    DivModUnique(Low(word, 5), 2, Low(half, 4), word % 2);
    DivModUnique(Low(half, 4), 2, Low(half / 2, 3), half % 2);
    Pow2Values();
    Split(word, 5);
  }

  lemma Unfold(x: nat, n: nat)
    ensures Low(x, n + 1) == x % 2 + 2 * Low(x / 2, n) && Low(x, 0) == 0 && Bit(x, 1) == x / 2 % 2
  {
  }

  /** The table entry found for a mode is that mode's, and its header length goes with the mode bits. */
  lemma ModeFound(word: nat)
    requires ModeOf(word) >= 0
    ensures ModeOf(word) < 14 && Modes(ModeOf(word)).number == Low(word, ModeBits(word))
    ensures ModeBits(word) == if ModeOf(word) < 2 then 2 else 5
  {
    hide Low, Bit;
    LowTwo(word);
  }

  /** Bits of the mode, the header fields and the indices: all 128 and no more. */
  lemma AllBitsUsed(i: nat)
    requires i < 14
    ensures var m := Modes(i);
            && (m.partitionCount == 1 || m.partitionCount == 2) && 0 < m.endpointBits <= 16
            && (m.hasDelta ==> m.deltaR > 0 && m.deltaG > 0 && m.deltaB > 0)
            && Fits(Fields(i)) && 0 <= HeaderBits(Fields(i))
            && (if i < 2 then 2 else 5) + HeaderBits(Fields(i)) + 16 * IndexBits(m) - m.partitionCount == 128
  {
    hide HeaderBits, Fits, Sum, Fields0, Fields1, Fields2, Fields3, Fields4, Fields5, Fields6, Fields7, Fields8, Fields9, Fields10,
         Fields11, Fields12, Fields13;
    match i
    case 0 => case 1 => case 2 => case 3 => case 4 => case 5 => case 6 => case 7 => case 8 => case 9 => case 10 => case 11 => case 12 => case _ =>
  }

  function IndexBits(m: ModeDesc): nat {
    if m.partitionCount == 1 then 4 else 3
  }

  /** The subsets of a block, as BC7 counts them. */
  function Subsets(n: nat): Bc7.Mode {
    Bc7.Mode(0, n, 0, 0, 0, 0, 0, 0, 0, 0, 0, 0)
  }

  predicate IsAnchor(m: ModeDesc, p: nat, t: nat) {
    t == 0 || (m.partitionCount != 1 && t == AnchorTable2(p))
  }

  lemma AnchorsAgree(m: ModeDesc, p: nat, t: nat)
    requires (m.partitionCount == 1 || m.partitionCount == 2) && p < 64 && t < 16
    ensures IsAnchor(m, p, t) <==> Bc7.IsAnchor(Subsets(m.partitionCount), p, t)
  {
    hide AnchorTable2, Bc7.IsAnchor;
    Bc7.AnchorTexels(Subsets(m.partitionCount), p, t);
  }

  function FirstEndpoint(m: ModeDesc, p: nat, t: nat): (e: nat)
    requires p < 64 && t < 16 && (m.partitionCount == 1 || m.partitionCount == 2)
    ensures e + 1 < 2 * m.partitionCount
  {
    hide PartitionTable2, AnchorTable2;
    TableSound2(p);
    if m.partitionCount == 1 then 0 else 2 * PartitionTable2(p)[t]
  }

  function DeltaBits(m: ModeDesc, c: nat): nat {
    if c == 0 then m.deltaR else if c == 1 then m.deltaG else m.deltaB
  }

  /** Channel c of endpoint ep, ready to be blended. */
  function EndpointValue(m: ModeDesc, e: seq<nat>, ep: nat, c: nat, isSigned: bool): int
    requires |e| == 13 && ep < 4 && c < 3 && m.endpointBits > 0
    requires m.hasDelta ==> m.deltaR > 0 && m.deltaG > 0 && m.deltaB > 0
  {
    var r := Resolve(e[c], e[3 * ep + c], ep == 0, m.hasDelta, isSigned, m.endpointBits, DeltaBits(m, c));
    if isSigned then UnquantizeSigned(Signed(r, 16), m.endpointBits) else UnquantizeUnsigned(r, m.endpointBits)
  }

  function Mix(e0: int, e1: int, w: int): int {
    ((64 - w) * e0 + w * e1 + 32) / 64
  }

  function ChannelOf(m: ModeDesc, e: seq<nat>, first: nat, c: nat, index: nat, isSigned: bool): int
    requires |e| == 13 && first < 3 && c < 3 && m.endpointBits > 0
    requires m.hasDelta ==> m.deltaR > 0 && m.deltaG > 0 && m.deltaB > 0
  {
    var w := Bc7.Weight(IndexBits(m), index);
    ToHalf(Mix(EndpointValue(m, e, first, c, isSigned), EndpointValue(m, e, first + 1, c, isSigned), w), isSigned)
  }

  // ----- decoding

  lemma {:induction false} ParseBounds(l: Layout, word: nat, e: seq<nat>)
    requires Fits(l) && |e| == 13 && e[12] < 32 && forall k :: 0 <= k < 13 ==> e[k] < 65536
    ensures Parse(l, word, e)[12] < 32 && forall k :: 0 <= k < 13 ==> Parse(l, word, e)[k] < 65536
  {
    hide Placed, Or, Shr, Pow2, Index;
    if l != End {
      var k := Index(l.target);
      var x := Or(e[k], Placed(word, l.lo, l.hi, l.reversed));
      PlacedBound(word, l.lo, l.hi, l.reversed);
      ShapeLast(l.target);
      Pow2Values();
      Pow2Monotone(l.hi + 1, if l.target == Shape then 5 else 16);
      OrBound(e[k], Placed(word, l.lo, l.hi, l.reversed), if l.target == Shape then 5 else 16);
      ParseBounds(l.rest, Shr(word, l.hi - l.lo + 1), e[k := U16(x)]);
    }
  }

  lemma ShapeLast(t: Target)
    ensures Index(t) == 12 <==> t == Shape
  {
  }

  lemma PlacedBound(word: nat, lo: nat, hi: nat, reversed: bool)
    requires lo <= hi
    ensures Placed(word, lo, hi, reversed) < Pow2(hi + 1)
  {
    hide Shl, Low, Reverse, Pow2, Shr;
    var n := hi - lo + 1;
    Split(word, n);
    ReverseBound(Low(word, n), n);
    var x := if reversed then Reverse(Low(word, n), n) else Low(word, n);
    ShlMonotone(x, Pow2(n), lo);
    ShlPow2(n, lo);
  }

  lemma PlacedPlain(word: nat, n: nat)
    requires n > 0
    ensures Placed(word, 0, n - 1, false) == Low(word, n)
  {
  }

  datatype Color = Color(r: int, g: int, b: int)

  /** The header values of a block of mode i. */
  function Header(i: nat, word: nat): (e: seq<nat>)
    requires i < 14
    ensures |e| == 13 && e[12] < 64 && forall k :: 0 <= k < 13 ==> e[k] < 65536
  {
    hide Parse, Fields, Modes, Fits, HeaderBits;
    AllBitsUsed(i);
    ParseBounds(Fields(i), Shr(word, if i < 2 then 2 else 5), Zeros());
    Parse(Fields(i), Shr(word, if i < 2 then 2 else 5), Zeros())
  }

  function HeaderEnd(i: nat): int {
    (if i < 2 then 2 else 5) + HeaderBits(Fields(i))
  }

  /** The index of texel t, straight from the word. */
  function IndexOf(i: nat, word: nat, p: nat, t: nat): nat
    requires i < 14 && p < 64 && t < 16
  {
    var m := Modes(i);
    var offset := HeaderEnd(i) + Bc7.IndexOffset(Subsets(m.partitionCount), p, IndexBits(m), t);
    var count := Bc7.ReadBits(Subsets(m.partitionCount), p, IndexBits(m), t);
    if offset >= 0 && count >= 0 then Bc7.Slice(word, offset, count) else 0
  }

  lemma ModeSane(i: nat)
    requires i < 14
    ensures var m := Modes(i);
            && (m.partitionCount == 1 || m.partitionCount == 2) && 0 < m.endpointBits <= 16
            && (m.hasDelta ==> m.deltaR > 0 && m.deltaG > 0 && m.deltaB > 0)
  {
    hide Fields, HeaderBits, Fits, Modes, IndexBits;
    AllBitsUsed(i);
  }

  function Blended(i: nat, e: seq<nat>, t: nat, index: nat, isSigned: bool): Color
    requires i < 14 && |e| == 13 && e[12] < 64 && t < 16
  {
    hide Modes, FirstEndpoint, ChannelOf;
    ModeSane(i);
    BlendedWith(Modes(i), e, FirstEndpoint(Modes(i), e[12], t), index, isSigned)
  }

  function BlendedWith(m: ModeDesc, e: seq<nat>, first: nat, index: nat, isSigned: bool): Color
    requires |e| == 13 && first < 3 && m.endpointBits > 0
    requires m.hasDelta ==> m.deltaR > 0 && m.deltaG > 0 && m.deltaB > 0
  {
    Color(ChannelOf(m, e, first, 0, index, isSigned), ChannelOf(m, e, first, 1, index, isSigned), ChannelOf(m, e, first, 2, index, isSigned))
  }

  /** Texel t of any block; reserved modes are black. */
  function BlockTexel(word: nat, t: nat, isSigned: bool): Color
    requires t < 16
  {
    hide Modes, Fields, ModeBits;
    if ModeOf(word) < 0 then Color(0, 0, 0)
    else
      ModeFound(word);
      var i := ModeOf(word);
      var e := Header(i, word);
      Blended(i, e, t, IndexOf(i, word, e[12], t), isSigned)
  }

  lemma SecondBit(low: nat, high: nat)
    ensures Bit(Bc7.Word(low, high), 1) == Bit(low, 1)
  {
    hide Bit, Low, Shl;
    LowOfWord(low, high, 5);
    LowTwo(Bc7.Word(low, high));
    LowTwo(low);
  }

  method Decode(low: nat, high: nat, dst: array<Color>, dstX: nat, dstY: nat, dstWidth: nat, dstHeight: nat, isSigned: bool)
    requires Bc7.Word64(low) && Bc7.Word64(high) && dst.Length == 16
    modifies dst
    ensures forall t :: 0 <= t < 16 ==>
              dst[t] == if Bc7.Visible(t, dstX, dstY, dstWidth, dstHeight) then BlockTexel(Bc7.Word(low, high), t, isSigned) else old(dst[t])
  {
    hide BlockTexel, Bc7.Word, Bc7.Word64, Bc7.Visible, Low, Bit, ModeToIndex, Header, Placed, Shr;
    ghost var word := Bc7.Word(low, high);
    var data := new Data(low, high);
    SecondBit(low, high);
    PlacedPlain(word, 2);
    PlacedPlain(word, 5);
    var mode;
    if Bit(data.low64, 1) == 0 {
      mode := data.ConsumeBits(1, 0);
    } else {
      mode := data.ConsumeBits(4, 0);
    }
    var i := ModeToIndex(mode);
    if i < 0 {
      ReservedBlack(word, isSigned);
      Blacken(dst, dstX, dstY, dstWidth, dstHeight);
      return;
    }
    ModeFound(word);
    DecodeTexels(data, i, dst, dstX, dstY, dstWidth, dstHeight, isSigned, word);
  }

  lemma ReservedBlack(word: nat, isSigned: bool)
    requires ModeOf(word) < 0
    ensures forall t :: 0 <= t < 16 ==> BlockTexel(word, t, isSigned) == Color(0, 0, 0)
  {
    hide ModeOf;
  }

  method Blacken(dst: array<Color>, dstX: nat, dstY: nat, dstWidth: nat, dstHeight: nat)
    requires dst.Length == 16
    modifies dst
    ensures forall t :: 0 <= t < 16 ==> dst[t] == if Bc7.Visible(t, dstX, dstY, dstWidth, dstHeight) then Color(0, 0, 0) else old(dst[t])
  {
    hide Bc7.Visible;
    var t := 0;
    while t < 16
      invariant 0 <= t <= 16
      invariant forall k :: 0 <= k < t ==> dst[k] == if Bc7.Visible(k, dstX, dstY, dstWidth, dstHeight) then Color(0, 0, 0) else old(dst[k])
      invariant forall k :: t <= k < 16 ==> dst[k] == old(dst[k])
    {
      if Bc7.Visible(t, dstX, dstY, dstWidth, dstHeight) {
        dst[t] := Color(0, 0, 0);
      }
      t := t + 1;
    }
  }

  /** The register has given up everything before the index of texel t. */
  ghost predicate Reached(left: nat, i: nat, word: nat, p: nat, t: nat)
    requires i < 14 && p < 64 && t <= 16
  {
    var at := HeaderEnd(i) + Bc7.IndexOffset(Subsets(Modes(i).partitionCount), p, IndexBits(Modes(i)), t);
    0 <= at && left == Shr(word, at)
  }

  method DecodeTexels(data: Data, i: nat, dst: array<Color>, dstX: nat, dstY: nat, dstWidth: nat, dstHeight: nat, isSigned: bool, ghost word: nat)
    requires i < 14 && ModeOf(word) == i && data.Valid() && data.Word() == Shr(word, if i < 2 then 2 else 5) && dst.Length == 16
    modifies data, dst
    ensures forall t :: 0 <= t < 16 ==>
              dst[t] == if Bc7.Visible(t, dstX, dstY, dstWidth, dstHeight) then BlockTexel(word, t, isSigned) else old(dst[t])
    ensures data.Word() == Shr(word, 128)
  {
    hide BlockTexel, Blended, IndexOf, Bc7.Visible, Fields, Modes, Fits, HeaderBits, Parse, Shr, Reached, Data.Valid, Data.Word, ModeOf;
    AllBitsUsed(i);
    var e := ParseHeader(data, Fields(i));
    var m := Modes(i);
    HeaderRead(i, word, e);
    var partition := e[12];
    var t := 0;
    FirstReached(data.Word(), i, word, partition, HeaderBits(Fields(i)));
    while t < 16
      invariant 0 <= t <= 16 && data.Valid() && Reached(data.Word(), i, word, partition, t)
      invariant forall k :: 0 <= k < t ==> dst[k] == if Bc7.Visible(k, dstX, dstY, dstWidth, dstHeight) then BlockTexel(word, k, isSigned) else old(dst[k])
      invariant forall k :: t <= k < 16 ==> dst[k] == old(dst[k])
    {
      var index := ReadIndex(data, i, partition, t, word);
      if Bc7.Visible(t, dstX, dstY, dstWidth, dstHeight) {
        dst[t] := Blended(i, e, t, index, isSigned);
      }
      TexelIs(i, word, e, t, isSigned);
      t := t + 1;
    }
    LastReached(data.Word(), i, word, partition);
  }

  lemma HeaderRead(i: nat, word: nat, e: seq<nat>)
    requires i < 14 && Fits(Fields(i)) && e == Parse(Fields(i), Shr(word, if i < 2 then 2 else 5), Zeros())
    ensures e == Header(i, word) && |e| == 13 && e[12] < 64
  {
    hide Parse, Fields, Fits, Shr;
  }

  lemma TexelIs(i: nat, word: nat, e: seq<nat>, t: nat, isSigned: bool)
    requires i < 14 && ModeOf(word) == i && e == Header(i, word) && t < 16
    ensures BlockTexel(word, t, isSigned) == Blended(i, e, t, IndexOf(i, word, e[12], t), isSigned)
  {
    hide ModeOf, Header, Blended, IndexOf;
  }

  lemma FirstReached(left: nat, i: nat, word: nat, p: nat, n: nat)
    requires i < 14 && p < 64 && n == HeaderBits(Fields(i)) && left == Shr(Shr(word, if i < 2 then 2 else 5), n)
    ensures Reached(left, i, word, p, 0)
  {
    hide Shr, Fields, HeaderBits, Modes, Bc7.AnchorsBefore;
    NoAnchors(Subsets(Modes(i).partitionCount), p);
    ShrShr(word, if i < 2 then 2 else 5, n);
  }

  lemma NoAnchors(m: Bc7.Mode, p: nat)
    requires p < 64
    ensures Bc7.AnchorsBefore(m, p, 0) == 0
  {
  }

  lemma LastReached(left: nat, i: nat, word: nat, p: nat)
    requires i < 14 && p < 64 && Reached(left, i, word, p, 16)
    ensures left == Shr(word, 128)
  {
    hide Shr, Fields, HeaderBits, Modes, Fits, Bc7.IndexOffset;
    AllBitsUsed(i);
    var m := Modes(i);
    Bc7.IndicesTile(Subsets(m.partitionCount), p, IndexBits(m), 0);
  }

  /** Reads the index of texel t; the anchors' top bit is implied. */
  method ReadIndex(data: Data, i: nat, p: nat, t: nat, ghost word: nat) returns (index: nat)
    requires i < 14 && p < 64 && t < 16 && data.Valid() && Reached(data.Word(), i, word, p, t)
    modifies data
    ensures data.Valid() && Reached(data.Word(), i, word, p, t + 1)
    ensures index == IndexOf(i, word, p, t)
  {
    hide Modes, Fields, HeaderBits, Fits, Shr, Low, Placed, Data.Valid, Data.Word, IsAnchor, Bc7.IsAnchor, Bc7.IndexOffset;
    AllBitsUsed(i);
    var m := Modes(i);
    var numBits := IndexBits(m);
    var count := numBits - if IsAnchor(m, p, t) then 1 else 0;
    AnchorsAgree(m, p, t);
    Bc7.IndicesTile(Subsets(m.partitionCount), p, numBits, t);
    ghost var at := HeaderEnd(i) + Bc7.IndexOffset(Subsets(m.partitionCount), p, numBits, t);
    ShrShr(word, at, count);
    PlacedPlain(data.Word(), count);
    index := data.ConsumeBits(count - 1, 0);
  }
}
