/** Baseline 8x8 blocks (section F.2.2 of ITU-T T.81) and the table that decodes small AC coefficients at once. */
module JpegBlock {
  import opened Arith
  import opened Bits
  import opened MsbStream
  import opened JpegCodes
  import opened JpegHuffman
  import opened JpegReader

  // ----- one AC coefficient

  datatype Ac = Coefficient(run: nat, value: int) | Zeros16 | EndOfBlock | Bad

  /** A coefficient, or what stands in its place, and the bits it takes. */
  datatype Step = Step(ac: Ac, bits: nat)

  /** What the bits from position p encode. */
  ghost function NextAc(s: seq<nat>, values: seq<byte>, src: seq<byte>, p: nat): Step
    requires Sizes(s) && |s| <= 256 && |values| == 256
  {
    var w := MsbField(src, p, 16);
    if !HasMatch(s, w) then Step(Bad, 0)
    else
      var k := Match(s, w, |s|);
      AfterSymbol(values[k], s[k], src, p)
  }

  ghost function AfterSymbol(rs: byte, len: nat, src: seq<byte>, p: nat): Step {
    if rs % 16 != 0 then Step(Coefficient(rs / 16, Extend(MsbField(src, p + len, rs % 16), rs % 16)), len + rs % 16)
    else if rs == 0xf0 then Step(Zeros16, len)
    else Step(EndOfBlock, len)
  }

  // ----- the fast table

  /** The entry for a code of `len` bits with symbol rs at the front of the nine bits c. */
  function EntryFor(len: nat, rs: byte, c: nat): int {
    var run, magbits := rs / 16, rs % 16;
    if magbits != 0 && len + magbits <= FAST_BITS then
      var v := Extend(Shr(Low(Shl(c, len), FAST_BITS), FAST_BITS - magbits), magbits);
      if -128 <= v <= 127 then v * 256 + run * 16 + (len + magbits) else 0
    else 0
  }

  ghost predicate Entry(s: seq<nat>, values: seq<byte>, c: nat, e: int)
    requires Sizes(s) && |s| <= 256 && |values| == 256
  {
    && (forall k: nat | k < NOT_FAST && FastHit(s, k, c) :: e == EntryFor(s[k], values[k], c))
    && ((forall k: nat :: k < NOT_FAST ==> !FastHit(s, k, c)) ==> e == 0)
  }

  ghost predicate FastAcOf(fac: seq<int>, s: seq<nat>, values: seq<byte>)
    requires Sizes(s) && |s| <= 256 && |values| == 256
  {
    |fac| == FAST_SIZE && forall c :: 0 <= c < FAST_SIZE ==> Entry(s, values, c, fac[c])
  }

  method BuildFastAc(h: Huffman, ghost s: seq<nat>) returns (fac: seq<int>)
    requires h.TableOf(s)
    ensures FastAcOf(fac, s, h.values)
  {
    hide FastHit, Extend, Shr, Low, Shl, Pow2, Signed, Sizes, HuffCode;
    fac := [];
    var i := 0;
    while i < FAST_SIZE
      invariant 0 <= i <= FAST_SIZE && |fac| == i
      invariant forall c :: 0 <= c < i ==> Entry(s, h.values, c, fac[c])
    {
      var fast := h.fast[i];
      var e := 0;
      assert FastSlot(s, |s|, i, fast);
      if fast < 255 {
        assert h.size[..|s|][fast] == s[fast];
        var rs := h.values[fast];
        var run, magbits, len := rs / 16 % 16, rs % 16, h.size[fast];
        if magbits != 0 && len + magbits <= FAST_BITS {
          var k: int := Shr(Low(Shl(i, len), FAST_BITS), FAST_BITS - magbits);
          SignedIsExtend(k, magbits);
          k := Signed(k, magbits);
          if k >= -128 && k <= 127 {
            e := k * 256 + run * 16 + (len + magbits);
          }
        }
      }
      EntryHolds(s, h.values, i, fast, e);
      fac := fac + [e];
      i := i + 1;
    }
  }

  /** The conditional bias of the magnitude bits. */
  function Signed(k: nat, magbits: nat): int
    requires magbits > 0
  {
    var m := Shl(1, magbits - 1);
    if k < m then k - Shl(1, magbits) + 1 else k
  }

  lemma SignedIsExtend(k: nat, magbits: nat)
    requires magbits > 0
    ensures Signed(k, magbits) == Extend(k, magbits)
  {
    ShlOne(magbits - 1);
    ShlOne(magbits);
  }

  lemma EntryHolds(s: seq<nat>, values: seq<byte>, c: nat, fast: byte, e: int)
    requires Sizes(s) && |s| <= 256 && |values| == 256 && FastSlot(s, |s|, c, fast)
    requires fast < NOT_FAST ==> e == EntryFor(s[fast], values[fast], c)
    requires fast == NOT_FAST ==> e == 0
    ensures Entry(s, values, c, e)
  {
    hide EntryFor, FastHit;
    forall k: nat | k < NOT_FAST && FastHit(s, k, c)
      ensures fast == k
    {
      HitInRange(s, k, c);
      if FastHit(s, fast, c) {
        FastHitUnique(s, fast, k, c);
      }
    }
  }

  lemma HitInRange(s: seq<nat>, k: nat, c: nat)
    requires Sizes(s) && FastHit(s, k, c)
    ensures k < |s|
  {
  }

  /** The magnitude bits inside the nine bits of a slot. */
  lemma MagnitudeBits(data: seq<byte>, p: nat, len: nat, mag: nat)
    requires len + mag <= 9
    ensures Shr(Low(Shl(MsbField(data, p, 9), len), 9), 9 - mag) == MsbField(data, p + len, mag)
  {
    hide MsbField, Shl, Shr, Low, Pow2;
    var f, g := MsbField(data, p, len), MsbField(data, p + len, 9 - len);
    MsbAppend(data, p, len, 9 - len);
    ShlAdd(Shl(f, 9 - len), g, len);
    ShlShl(f, 9 - len, len);
    MsbBound(data, p + len, 9 - len);
    ShlMonotone(g, Pow2(9 - len), len);
    ShlPow2(9 - len, len);
    ShlSplit(f, Shl(g, len), 9);
    var m, r := MsbField(data, p + len, mag), MsbField(data, p + len + mag, 9 - len - mag);
    MsbAppend(data, p + len, mag, 9 - len - mag);
    ShlAdd(Shl(m, 9 - len - mag), r, len);
    ShlShl(m, 9 - len - mag, len);
    MsbBound(data, p + len + mag, 9 - len - mag);
    ShlMonotone(r, Pow2(9 - len - mag), len);
    ShlPow2(9 - len - mag, len);
    ShlSplit(m, Shl(r, len), 9 - mag);
  }

  /** Value, run and length come back out of an entry. */
  lemma Unpack(v: int, run: nat, bits: nat)
    requires run < 16 && 0 < bits < 16
    ensures var e := v * 256 + run * 16 + bits; e != 0 && e / 256 == v && e / 16 % 16 == run && e % 16 == bits
  {
    var e := v * 256 + run * 16 + bits;
    DivModUnique(e, 256, v, run * 16 + bits);
    DivModUnique(e, 16, v * 16 + run, bits);
    DivModUnique(v * 16 + run, 16, v, run);
  }

  lemma SlotBegins(s: seq<nat>, src: seq<byte>, p: nat, k: nat)
    requires Sizes(s) && FastHit(s, k, MsbField(src, p, 9))
    ensures Begins(s, k, MsbField(src, p, 16))
  {
    hide MsbField, Shl, Shr, Low, Pow2, HuffCode;
    MsbAppend(src, p, 9, 7);
    MsbBound(src, p + 9, 7);
    ShlSplit(MsbField(src, p, 9), MsbField(src, p + 9, 7), 7);
    FastHitIsBegins(s, k, MsbField(src, p, 16));
  }

  /**
   * The fast path is a shortcut: a nonzero entry holds the run, the signed value and the total
   * length that decoding the Huffman code and then its magnitude bits would give.
   */
  lemma FastAcAgrees(fac: seq<int>, s: seq<nat>, values: seq<byte>, src: seq<byte>, p: nat)
    requires Sizes(s) && |s| <= 256 && |values| == 256 && FastAcOf(fac, s, values)
    requires MsbField(src, p, 9) < FAST_SIZE && fac[MsbField(src, p, 9)] != 0
    ensures var e := fac[MsbField(src, p, 9)];
            0 < e % 16 <= 9 && NextAc(s, values, src, p) == Step(Coefficient(e / 16 % 16, e / 256), e % 16)
  {
    hide MsbField, FastHit, Extend, Shr, Low, Shl, HuffCode, Begins, HasMatch, Match, Sizes;
    var c := MsbField(src, p, 9);
    assert Entry(s, values, c, fac[c]);
    var k: nat :| k < NOT_FAST && FastHit(s, k, c);
    HitInRange(s, k, c);
    var rs := values[k];
    assert fac[c] == EntryFor(s[k], rs, c);
    SlotBegins(s, src, p, k);
    MatchIs(s, MsbField(src, p, 16), k);
    MagnitudeBits(src, p, s[k], rs % 16);
    EntryValue(s[k], rs, c);
  }

  lemma EntryValue(len: nat, rs: byte, c: nat)
    requires EntryFor(len, rs, c) != 0
    ensures var e := EntryFor(len, rs, c);
            && 0 < rs % 16 && len + rs % 16 <= 9 && e % 16 == len + rs % 16 && e / 16 % 16 == rs / 16
            && e / 256 == Extend(Shr(Low(Shl(c, len), 9), 9 - rs % 16), rs % 16)
  {
    hide Extend, Shr, Low, Shl;
    var run: nat, mag: nat := rs / 16, rs % 16;
    Unpack(Extend(Shr(Low(Shl(c, len), 9), 9 - mag), mag), run, len + mag);
  }

  // ----- the zigzag order

  /** Where coefficient k of the zigzag sequence goes; positions past the end go to the last one. */
  function Zig(k: nat): (z: nat)
    ensures z < 64
  {
    match k
    case 0 => 0 case 1 => 1 case 2 => 8 case 3 => 16 case 4 => 9 case 5 => 2 case 6 => 3 case 7 => 10
    case 8 => 17 case 9 => 24 case 10 => 32 case 11 => 25 case 12 => 18 case 13 => 11 case 14 => 4 case 15 => 5
    case 16 => 12 case 17 => 19 case 18 => 26 case 19 => 33 case 20 => 40 case 21 => 48 case 22 => 41 case 23 => 34
    case 24 => 27 case 25 => 20 case 26 => 13 case 27 => 6 case 28 => 7 case 29 => 14 case 30 => 21 case 31 => 28
    case 32 => 35 case 33 => 42 case 34 => 49 case 35 => 56 case 36 => 57 case 37 => 50 case 38 => 43 case 39 => 36
    case 40 => 29 case 41 => 22 case 42 => 15 case 43 => 23 case 44 => 30 case 45 => 37 case 46 => 44 case 47 => 51
    case 48 => 58 case 49 => 59 case 50 => 52 case 51 => 45 case 52 => 38 case 53 => 31 case 54 => 39 case 55 => 46
    case 56 => 53 case 57 => 60 case 58 => 61 case 59 => 54 case 60 => 47 case 61 => 55 case 62 => 62 case 63 => 63
    case _ => 63
  }

  /** One step of the diagonal walk of Figure A.6, column and row. */
  function Walk(x: int, y: int): (int, int) {
    if (x + y) % 2 == 0 then
      if x == 7 then (x, y + 1) else if y == 0 then (x + 1, y) else (x + 1, y - 1)
    else
      if y == 7 then (x + 1, y) else if x == 0 then (x, y + 1) else (x - 1, y + 1)
  }

  ghost predicate OnWalk(k: nat) {
    Walk(Zig(k) % 8, Zig(k) / 8) == (Zig(k + 1) % 8, Zig(k + 1) / 8)
  }

  /** The table is the diagonal walk from the top left corner, row-major. */
  lemma ZigzagIsWalk(k: nat)
    requires k < 63
    ensures Zig(0) == 0 && OnWalk(k)
  {
    hide OnWalk;
    match k / 8
    case 0 => Walk0(k);
    case 1 => Walk8(k);
    case 2 => Walk16(k);
    case 3 => Walk24(k);
    case 4 => Walk32(k);
    case 5 => Walk40(k);
    case 6 => Walk48(k);
    case _ => Walk56(k);
  }

  /** Runs that lead past the block all end on its last place. */
  lemma ZigPastEnd(k: nat)
    requires k >= 63
    ensures Zig(k) == 63
  {
  }

  lemma Walk0(k: nat)
    requires 0 <= k < 8
    ensures OnWalk(k)
  {
    match k
    case 0 => case 1 => case 2 => case 3 => case 4 => case 5 => case 6 =>
    case _ =>
  }

  lemma Walk8(k: nat)
    requires 8 <= k < 16
    ensures OnWalk(k)
  {
    match k
    case 8 => case 9 => case 10 => case 11 => case 12 => case 13 => case 14 =>
    case _ =>
  }

  lemma Walk16(k: nat)
    requires 16 <= k < 24
    ensures OnWalk(k)
  {
    match k
    case 16 => case 17 => case 18 => case 19 => case 20 => case 21 => case 22 =>
    case _ =>
  }

  lemma Walk24(k: nat)
    requires 24 <= k < 32
    ensures OnWalk(k)
  {
    match k
    case 24 => case 25 => case 26 => case 27 => case 28 => case 29 => case 30 =>
    case _ =>
  }

  lemma Walk32(k: nat)
    requires 32 <= k < 40
    ensures OnWalk(k)
  {
    match k
    case 32 => case 33 => case 34 => case 35 => case 36 => case 37 => case 38 =>
    case _ =>
  }

  lemma Walk40(k: nat)
    requires 40 <= k < 48
    ensures OnWalk(k)
  {
    match k
    case 40 => case 41 => case 42 => case 43 => case 44 => case 45 => case 46 =>
    case _ =>
  }

  lemma Walk48(k: nat)
    requires 48 <= k < 56
    ensures OnWalk(k)
  {
    match k
    case 48 => case 49 => case 50 => case 51 => case 52 => case 53 => case 54 =>
    case _ =>
  }

  lemma Walk56(k: nat)
    requires 56 <= k < 63
    ensures OnWalk(k)
  {
    match k
    case 56 => case 57 => case 58 => case 59 => case 60 => case 61 =>
    case _ =>
  }

  // ----- blocks

  /** `(short) x` */
  function Short(x: int): int {
    (x + 32768) % 65536 - 32768
  }

  /** How decoding goes on the real bits of a segment. */
  datatype Outcome = Done(data: seq<int>, position: nat) | Corrupt | Truncated

  /** The coefficients from number k on. */
  ghost function AcRun(s: seq<nat>, values: seq<byte>, dequant: seq<nat>, src: seq<byte>, p: nat, k: nat, data: seq<int>): Outcome
    requires Sizes(s) && |s| <= 256 && |values| == 256 && |dequant| == 64 && |data| == 64
    decreases 64 - k
  {
    if k >= 64 then Done(data, p)
    else
      var step := NextAc(s, values, src, p);
      if step.ac == Bad then Corrupt
      else if p + step.bits > 8 * |src| then Truncated
      else if step.ac == EndOfBlock then Done(data, p + step.bits)
      else
        var (k', data') := Place(step.ac, dequant, k, data);
        AcRun(s, values, dequant, src, p + step.bits, k', data')
  }

  /** Where a round of the AC loop leaves the coefficient number and the block. */
  function Place(ac: Ac, dequant: seq<nat>, k: nat, data: seq<int>): (r: (nat, seq<int>))
    requires |dequant| == 64 && |data| == 64
    ensures |r.1| == 64 && (ac.Coefficient? || ac.Zeros16? ==> r.0 > k)
  {
    match ac
    case Coefficient(run, value) =>
      var zig := Zig(k + run);
      (k + run + 1, data[zig := Short(value * dequant[zig])])
    case Zeros16 => (k + 16, data)
    case _ => (k, data)
  }

  /**
   * A coefficient skips `run` places of the zigzag order and is stored at the next one, times its quantiser
   * and wrapped to a short; every other place keeps what it held.
   */
  lemma CoefficientLands(run: nat, value: int, dequant: seq<nat>, k: nat, data: seq<int>)
    requires |dequant| == 64 && |data| == 64
    ensures var (k', data') := Place(Coefficient(run, value), dequant, k, data);
            var at := Zig(k + run);
            && k' == k + run + 1
            && -32768 <= data'[at] <= 32767 && (data'[at] - value * dequant[at]) % 65536 == 0
            && forall i :: 0 <= i < 64 && i != at ==> data'[i] == data[i]
  {
    hide Zig;
    Congruent(value * dequant[Zig(k + run)]);
  }

  lemma Congruent(x: int)
    ensures -32768 <= Short(x) <= 32767 && (Short(x) - x) % 65536 == 0
  {
    var q, r := (x + 32768) / 65536, (x + 32768) % 65536;
    assert Short(x) - x == 65536 * -q;
  }

  /** Sixteen zeros before it move a coefficient sixteen places further. */
  lemma ZerosThenCoefficient(run: nat, value: int, dequant: seq<nat>, k: nat, data: seq<int>)
    requires |dequant| == 64 && |data| == 64
    ensures var (k1, data1) := Place(Zeros16, dequant, k, data);
            var (k2, data2) := Place(Coefficient(run, value), dequant, k1, data1);
            var at := Zig(k + 16 + run);
            && k2 == k + 16 + run + 1 && (data2[at] - value * dequant[at]) % 65536 == 0
            && forall i :: 0 <= i < 64 && i != at ==> data2[i] == data[i]
  {
    hide Zig, Short;
    CoefficientLands(run, value, dequant, k + 16, data);
  }

  const INT_MAX := 0x7fff_ffff
  const INT_MIN := -0x8000_0000

  function AddIntsValid(a: int, b: int): bool {
    if (a >= 0) != (b >= 0) then true
    else if a < 0 && b < 0 then a >= INT_MIN - b
    else a <= INT_MAX - b
  }

  lemma AddIntsExact(a: int, b: int)
    requires INT_MIN <= a <= INT_MAX && INT_MIN <= b <= INT_MAX
    ensures AddIntsValid(a, b) <==> INT_MIN <= a + b <= INT_MAX
  {
  }

  /** `a / b` in C, which truncates */
  function Quotient(a: int, b: int): int
    requires b != 0
  {
    if a >= 0 then a / b else -(-a / b)
  }

  function Mul2ShortsValid(a: int, b: int): bool {
    if b == 0 || b == -1 then true
    else if (a >= 0) == (b >= 0) then a <= Quotient(32767, b)
    else if b < 0 then a <= Quotient(-32768, b)
    else a >= Quotient(-32768, b)
  }

  ghost predicate IsShort(x: int) {
    -32768 <= x <= 32767
  }

  /** Two negative factors are compared the wrong way round, and -32768 times -1 is let through. */
  ghost predicate Misjudged(a: int, b: int) {
    (b == -1 && a == -32768) || (a < 0 && b < -1 && a != -(32767 / -b))
  }

  /** |a| <= n / m exactly when |a| * m <= n. */
  lemma DivideBound(a: nat, m: nat, n: nat)
    requires m > 0
    ensures a <= n / m <==> a * m <= n
    ensures a == n / m ==> a * m <= n
  {
    var q := n / m;
    assert n == m * q + n % m;
    if a <= q {
      MulLe(a, q, m);
    } else {
      MulLe(q + 1, a, m);
    }
  }

  lemma NegativeDivisor(n: int, m: int)
    requires n >= 0 && m > 0
    ensures n / -m == -(n / m)
  {
    var q, r := n / m, n % m;
    assert n == (-m) * (-q) + r;
    var q', r' := n / -m, n % -m;
    assert n == (-m) * q' + r' && 0 <= r' < m;
    assert n == (-q') * m + r';
    DivModUnique(n, m, -q', r');
  }

  /** The helper judges the product of two shorts rightly exactly outside that family. */
  lemma Mul2ShortsExact(a: int, b: int)
    requires IsShort(a) && IsShort(b)
    ensures (Mul2ShortsValid(a, b) <==> IsShort(a * b)) <==> !Misjudged(a, b)
  {
    if b < -1 {
      NegativeDivisor(32767, -b);
      NegativeDivisor(32768, -b);
      if a < 0 {
        DivideBound(-a, -b, 32767);
        assert a * b == (-a) * (-b);
      } else {
        DivideBound(a, -b, 32768);
        assert a * b == -(a * -b);
      }
    } else if b > 0 {
      if a < 0 {
        DivideBound(-a, b, 32768);
        assert a * b == -(-a * b);
      } else {
        DivideBound(a, b, 32767);
      }
    }
  }

  /**
   * The products that the guard overlooks. It sees the DC coefficient and the quantiser as shorts, so a
   * quantiser from 32768 on looks negative and a coefficient beyond the shorts is seen modulo 65536.
   */
  ghost predicate Overlooked(dc: int, q: nat)
    requires q < 65536
  {
    var a, n := Short(dc), 65536 - q;
    if q < 32768 then q > 0 && !IsShort(dc) && IsShort(a * q)
    else
      && dc != 0 && (dc != -1 || q != 32768)
      && (n == 1 || if a >= 0 then a <= 32768 / n else 32767 / n <= -a)
  }

  /**
   * The guard as the decoder applies it, to the product of an int and a uint16: it never refuses a
   * product that fits a short, and it accepts one that does not exactly in the overlooked family.
   */
  lemma DcGuardExact(dc: int, q: nat)
    requires q < 65536
    ensures var guard := Mul2ShortsValid(Short(dc), Short(q));
            && (IsShort(dc * q) ==> guard)
            && ((guard <==> IsShort(dc * q)) <==> !Overlooked(dc, q))
  {
    hide Mul2ShortsValid, Misjudged;
    if q < 32768 {
      ShortIs(q);
      Mul2ShortsExact(Short(dc), q);
      NotMisjudged(Short(dc), q);
      NarrowProduct(dc, q);
    } else {
      WideGuard(dc, q);
      WideProduct(dc, q);
    }
  }

  lemma ShortIs(x: int)
    ensures IsShort(x) ==> Short(x) == x
    ensures 32768 <= x < 65536 ==> Short(x) == x - 65536
  {
  }

  lemma NotMisjudged(a: int, b: int)
    requires b >= 0
    ensures !Misjudged(a, b)
  {
  }

  /** A coefficient that is no short stays out of range when it is multiplied. */
  lemma NarrowProduct(dc: int, q: nat)
    ensures q > 0 && !IsShort(dc) ==> !IsShort(dc * q)
    ensures IsShort(dc) ==> Short(dc) == dc
    ensures dc * 0 == 0 && Short(dc) * 0 == 0
  {
    if q > 0 && dc >= 0 {
      MulLe(1, q, dc);
    } else if q > 0 {
      MulLe(1, q, -dc);
      assert dc * q == -(q * -dc);
    }
  }

  /** With a quantiser from 32768 on, next to no product fits. */
  lemma WideProduct(dc: int, q: nat)
    requires 32768 <= q
    ensures IsShort(dc * q) <==> dc == 0 || (dc == -1 && q == 32768)
  {
    if dc > 0 {
      MulLe(1, dc, q);
    } else if dc < -1 {
      MulLe(2, -dc, q);
      assert dc * q == -(-dc * q);
    }
  }

  lemma WideGuard(dc: int, q: nat)
    requires 32768 <= q < 65536
    ensures var a, n := Short(dc), 65536 - q;
            Mul2ShortsValid(a, Short(q)) <==> n == 1 || (if a >= 0 then a <= 32768 / n else 32767 / n <= -a)
    ensures dc == 0 || (dc == -1 && q == 32768) ==> Mul2ShortsValid(Short(dc), Short(q))
  {
    ShortIs(q);
    var n := 65536 - q;
    NegativeDivisor(32767, n);
    NegativeDivisor(32768, n);
  }

  /** Three products that do not fit and are accepted. */
  lemma Mul2ShortsWrong()
    ensures Mul2ShortsValid(Short(-200), Short(65336)) && !IsShort(-200 * 65336)
    ensures Mul2ShortsValid(Short(1), Short(65535)) && !IsShort(1 * 65535)
    ensures Mul2ShortsValid(Short(65537), Short(1)) && !IsShort(65537 * 1)
  {
  }

  /** The DC coefficient, then the others. */
  ghost function Block(sdc: seq<nat>, vdc: seq<byte>, sac: seq<nat>, vac: seq<byte>, dequant: seq<nat>, src: seq<byte>, p: nat, pred: int): (Outcome, int)
    requires Sizes(sdc) && |sdc| <= 256 && |vdc| == 256 && Sizes(sac) && |sac| <= 256 && |vac| == 256 && |dequant| == 64
  {
    var w := MsbField(src, p, 16);
    if !HasMatch(sdc, w) then (Corrupt, pred)
    else
      var k := Match(sdc, w, |sdc|);
      var t, q := vdc[k], p + sdc[k];
      if q > 8 * |src| then (Truncated, pred)
      else if t > 15 then (Corrupt, pred)
      else if q + t > 8 * |src| then (Truncated, pred)
      else
        var dc := pred + (if t == 0 then 0 else Extend(MsbField(src, q, t), t));
        if !AddIntsValid(pred, dc - pred) then (Corrupt, pred)
        else if !Mul2ShortsValid(Short(dc), Short(dequant[0])) then (Corrupt, dc)
        else (AcRun(sac, vac, dequant, src, q + t, 1, seq(64, _ => 0)[0 := Short(dc * dequant[0])]), dc)
  }

  /** One round of the AC loop, whichever path it takes. */
  method AcStep(j: Reader, h: Huffman, ghost s: seq<nat>, fac: seq<int>) returns (ac: Ac)
    requires j.Valid() && h.TableOf(s) && FastAcOf(fac, s, h.values)
    modifies j
    ensures j.src == old(j.src)
    ensures ac != Bad ==> j.Valid()
    ensures var want := NextAc(s, h.values, j.src, old(j.Position()));
            Accelerable(s) ==>
            && (want.ac == Bad ==> ac == Bad)
            && (want.ac != Bad && old(j.Position()) + want.bits <= 8 * |j.src| ==>
                  ac == want.ac && j.Position() == old(j.Position()) + want.bits)
  {
    hide MsbField, Aligned, Entropy, Extend, Shr, Sizes, Entry, NextAc, Huffman.Coded, Huffman.Rows, Huffman.Fast, Codable,
         Accelerable, Reader.Source;
    if j.code_bits < 16 {
      j.GrowBuffer();
    }
    ghost var p := j.Position();
    Peek(j.src, p, j.code_bits, 9);
    var c := Shr(j.code_buffer, 23);
    SlotBound(j.src, p);
    var r := fac[c];
    if r != 0 {
      FastAcAgrees(fac, s, h.values, j.src, p);
      var n := r % 16;
      if n > j.code_bits {
        return Bad;
      }
      j.Consume(n);
      ac := Coefficient(r / 16 % 16, r / 256);
    } else {
      ac := SlowAc(j, h, s);
    }
  }

  /** The path through the Huffman table and the magnitude bits. */
  method SlowAc(j: Reader, h: Huffman, ghost s: seq<nat>) returns (ac: Ac)
    requires j.Valid() && h.TableOf(s)
    modifies j
    ensures j.src == old(j.src)
    ensures ac != Bad ==> j.Valid()
    ensures var want := NextAc(s, h.values, j.src, old(j.Position()));
            Accelerable(s) ==>
            && (want.ac == Bad ==> ac == Bad)
            && (want.ac != Bad && old(j.Position()) + want.bits <= 8 * |j.src| ==>
                  ac == want.ac && j.Position() == old(j.Position()) + want.bits)
  {
    hide MsbField, Aligned, Taken, Match, Begins, HasMatch, Extend, Sizes, Codable, Next, Shr,
         Huffman.Coded, Huffman.Rows, Huffman.Fast, Reader.Source;
    var rs := j.HuffDecode(h, s);
    if rs < 0 {
      return Bad;
    }
    var n := rs % 16;
    if n == 0 {
      ac := if rs != 0xf0 then EndOfBlock else Zeros16;
    } else {
      var v := j.ExtendReceive(n);
      ac := Coefficient(rs / 16, v);
    }
  }

  lemma SlotBound(src: seq<byte>, p: nat)
    ensures MsbField(src, p, 9) < FAST_SIZE
  {
    hide MsbField, Pow2;
    MsbBound(src, p, 9);
    Pow2Values();
  }

  /** The AC loop. */
  method DecodeAc(j: Reader, h: Huffman, ghost s: seq<nat>, fac: seq<int>, dequant: seq<nat>, data: array<int>) returns (ok: bool)
    requires j.Valid() && h.TableOf(s) && FastAcOf(fac, s, h.values) && |dequant| == 64 && data.Length == 64
    modifies j, data
    ensures j.src == old(j.src)
    ensures var want := AcRun(s, h.values, dequant, j.src, old(j.Position()), 1, old(data[..]));
            Accelerable(s) ==>
            && (want == Corrupt ==> !ok)
            && (want.Done? ==> ok && j.Valid() && data[..] == want.data && j.Position() == want.position)
  {
    hide NextAc, Zig, Short, FastAcOf, Huffman.Coded, Huffman.Rows, Huffman.Fast, Codable, Aligned, Reader.Source, Place, Sizes, Accelerable;
    ghost var want := AcRun(s, h.values, dequant, j.src, j.Position(), 1, data[..]);
    var k: int := 1;
    ghost var lost := false;
    while k < 64
      invariant 1 <= k && j.Valid() && j.src == old(j.src)
      invariant !lost && Accelerable(s) ==> AcRun(s, h.values, dequant, j.src, j.Position(), k, data[..]) == want
      invariant lost && Accelerable(s) ==> want == Truncated
      decreases 64 - k
    {
      ghost var p, step := j.Position(), NextAc(s, h.values, j.src, j.Position());
      lost := lost || (step.ac != Bad && p + step.bits > 8 * |j.src|);
      var ac := AcStep(j, h, s, fac);
      if ac == Bad {
        return false;
      }
      if ac == EndOfBlock {
        return true;
      }
      k := Apply(ac, dequant, k, data);
    }
    ok := true;
  }

  /** Stores one coefficient. */
  method Apply(ac: Ac, dequant: seq<nat>, k: nat, data: array<int>) returns (k': nat)
    requires |dequant| == 64 && data.Length == 64 && (ac.Coefficient? || ac.Zeros16?)
    modifies data
    ensures (k', data[..]) == Place(ac, dequant, k, old(data[..]))
  {
    hide Zig, Short;
    match ac
    case Zeros16 => k' := k + 16;
    case Coefficient(run, value) =>
      k' := k + run;
      var zig := Zig(k');
      k' := k' + 1;
      data[zig] := Short(value * dequant[zig]);
  }

  /** The difference of a DC coefficient: its size as a Huffman code, then that many bits. */
  method DecodeDiff(j: Reader, h: Huffman, ghost s: seq<nat>) returns (ok: bool, diff: int)
    requires j.Valid() && h.TableOf(s)
    modifies j
    ensures j.src == old(j.src) && (ok ==> j.Valid())
    ensures var p := old(j.Position());
            var w := MsbField(j.src, p, 16);
            Accelerable(s) ==>
            && (!HasMatch(s, w) ==> !ok)
            && (HasMatch(s, w) ==>
                  var k := Match(s, w, |s|);
                  var t, q := h.values[k], p + s[k];
                  && (q <= 8 * |j.src| && t > 15 ==> !ok)
                  && (t <= 15 && q + t <= 8 * |j.src| ==>
                        ok && diff == (if t == 0 then 0 else Extend(MsbField(j.src, q, t), t)) && j.Position() == q + t))
  {
    hide Codable, Aligned, Sizes, MsbField, Match, HasMatch, Extend, Begins, Taken, Pow2, Shr, Shl, Next,
         Huffman.Coded, Huffman.Rows, Huffman.Fast, Reader.Source;
    diff := 0;
    if j.code_bits < 16 {
      j.GrowBuffer();
    }
    var t := j.HuffDecode(h, s);
    if t < 0 || t > 15 {
      return false, diff;
    }
    if t != 0 {
      diff := j.ExtendReceive(t);
    }
    ok := true;
  }

  method DecodeBlock(j: Reader, data: array<int>, hdc: Huffman, ghost sdc: seq<nat>, hac: Huffman, ghost sac: seq<nat>, fac: seq<int>, pred: int, dequant: seq<nat>)
    returns (ok: bool, dc_pred: int)
    requires j.Valid() && hdc.TableOf(sdc) && hac.TableOf(sac)
    requires FastAcOf(fac, sac, hac.values) && |dequant| == 64 && data.Length == 64
    modifies j, data
    ensures j.src == old(j.src)
    ensures var (want, pred') := Block(sdc, hdc.values, sac, hac.values, dequant, j.src, old(j.Position()), pred);
            Accelerable(sdc) && Accelerable(sac) ==>
            && (want == Corrupt ==> !ok)
            && (want.Done? ==> ok && j.Valid() && data[..] == want.data && j.Position() == want.position && dc_pred == pred')
  {
    hide Short, FastAcOf, Codable, Aligned, Sizes, Accelerable, AcRun, MsbField, Match, HasMatch, Mul2ShortsValid, AddIntsValid, Extend,
         Begins, Taken, HuffCode, Pow2, Shr, Shl, Huffman.Coded, Huffman.Rows, Huffman.Fast, Reader.Source;
    dc_pred := pred;
    var diff;
    ok, diff := DecodeDiff(j, hdc, sdc);
    if !ok {
      return false, dc_pred;
    }
    Clear(data);
    if !AddIntsValid(dc_pred, diff) {
      return false, dc_pred;
    }
    var dc := dc_pred + diff;
    dc_pred := dc;
    if !Mul2ShortsValid(Short(dc), Short(dequant[0])) {
      return false, dc_pred;
    }
    data[0] := Short(dc * dequant[0]);
    ok := DecodeAc(j, hac, sac, fac, dequant, data);
  }

  method Clear(data: array<int>)
    requires data.Length == 64
    modifies data
    ensures data[..] == seq(64, _ => 0)
  {
    var i := 0;
    while i < 64
      invariant 0 <= i <= 64
      invariant forall q :: 0 <= q < i ==> data[q] == 0
    {
      data[i] := 0;
      i := i + 1;
    }
  }
}
