/**
 * A stream whose one block brings its own codes, from the bits to the decoder's answer: five fields give
 * the code length code (8 in the bit 0, a run of zeros in the bit 1), a run of eleven zeros and 247 eights
 * give the two codes, and the body is the byte 65.
 */
module DynamicStream {
  import opened Collections
  import opened Bits
  import opened BitStream
  import opened Canonical
  import opened Deflate
  import opened Inflate

  const ONE_A: seq<byte> := [
    0x05, 0x20, 0x80, 0x20, 0x01, 0x00, 0x00, 0x00, 0x00, 0x00, 0x00, 0x00, 0x00, 0x00, 0x00, 0x00, 0x00, 0x00, 0x00, 0x00,
    0x00, 0x00, 0x00, 0x00, 0x00, 0x00, 0x00, 0x00, 0x00, 0x00, 0x00, 0x00, 0x00, 0x00, 0x00, 0x00, 0xb6, 0x57, 0x00, 0x00]

  // ----- the bits

  predicate IsSet(q: nat) {
    || q == 0 || q == 2 || q == 13 || q == 23 || q == 29 || q == 32 || q == 289 || q == 290
    || q == 292 || q == 293 || q == 295 || q == 296 || q == 297 || q == 298 || q == 300 || q == 302
  }

  lemma ByteOf(k: nat)
    requires k < 40
    ensures ONE_A[k] == if k == 0 then 0x05 else if k == 1 || k == 3 then 0x20 else if k == 2 then 0x80 else if k == 4 then 0x01
                        else if k == 36 then 0xb6 else if k == 37 then 0x57 else 0
  {
  }

  lemma BitOf(q: nat)
    requires q < 320
    ensures BitAt(ONE_A, q) == if IsSet(q) then 1 else 0
  {
    hide Bit;
    var k, i := q / 8, q % 8;
    ByteOf(k);
    var b := ONE_A[k];
    assert BitAt(ONE_A, q) == Bit(b, i);
    BitPlace(k, i, b);
  }

  lemma BitPlace(k: nat, i: nat, b: byte)
    requires k < 40 && i < 8
    requires b == if k == 0 then 0x05 else if k == 1 || k == 3 then 0x20 else if k == 2 then 0x80 else if k == 4 then 0x01
                  else if k == 36 then 0xb6 else if k == 37 then 0x57 else 0
    ensures Bit(b, i) == if IsSet(8 * k + i) then 1 else 0
  {
    hide Bit;
    BitZero(i);
    Headers(i);
    Bodies(i);
  }

  lemma Headers(i: nat)
    requires i < 8
    ensures Bit(0x05, i) == (if i == 0 || i == 2 then 1 else 0) && Bit(0x20, i) == (if i == 5 then 1 else 0)
    ensures Bit(0x80, i) == (if i == 7 then 1 else 0) && Bit(0x01, i) == (if i == 0 then 1 else 0)
  {
    assert Bit(0x05, 0) == 1 && Bit(0x05, 2) == Bit(1, 0) == 1 && Bit(0x05, 3) == Bit(0, 0);
    assert Bit(0x20, 4) == Bit(2, 0) == 0 && Bit(0x20, 5) == Bit(1, 0) == 1;
    assert Bit(0x80, 4) == Bit(8, 0) == 0 && Bit(0x80, 7) == Bit(8, 3) == Bit(1, 0) == 1;
    if i >= 4 {
      BitZero(i - 4);
    }
  }

  lemma Bodies(i: nat)
    requires i < 8
    ensures Bit(0xb6, i) == (if i == 0 || i == 3 || i == 6 then 0 else 1)
    ensures Bit(0x57, i) == (if i == 3 || i == 5 || i == 7 then 0 else 1)
  {
    assert Bit(0xb6, 4) == Bit(0xb, 0) == 1 && Bit(0xb6, 5) == Bit(0xb, 1) == 1 && Bit(0xb6, 6) == Bit(0xb, 2) == 0 && Bit(0xb6, 7) == Bit(0xb, 3) == 1;
    assert Bit(0x57, 4) == Bit(5, 0) == 1 && Bit(0x57, 5) == Bit(5, 1) == 0 && Bit(0x57, 6) == Bit(5, 2) == 1 && Bit(0x57, 7) == Bit(5, 3) == 0;
  }

  /** A field without a set bit is zero. */
  lemma {:induction false} FieldClear(p: nat, n: nat)
    requires p + n <= 320 && forall q :: p <= q < p + n ==> !IsSet(q)
    ensures Field(ONE_A, p, n) == 0
    decreases n
  {
    hide BitAt;
    if n > 0 {
      BitOf(p);
      FieldClear(p + 1, n - 1);
    }
  }

  /** A field whose first bit alone is set is one. */
  lemma FieldOne(p: nat, n: nat)
    requires 0 < n && p + n <= 320 && IsSet(p) && forall q :: p < q < p + n ==> !IsSet(q)
    ensures Field(ONE_A, p, n) == 1
  {
    hide BitAt;
    BitOf(p);
    FieldClear(p + 1, n - 1);
  }

  // ----- the code length code

  const CL: seq<nat> := [] + Repeat(0, 8) + Repeat(1, 1) + Repeat(0, 9) + Repeat(1, 1)

  lemma SizesRead()
    ensures CodeLengthLengths(ONE_A, 17, 5) == CL
  {
    hide Field, CodeLengthLengths;
    forall s: nat | s < 19
      ensures CodeLengthLengths(ONE_A, 17, 5)[s] == CL[s]
    {
      CodeLengthAt(ONE_A, 17, 5, s);
      FieldClear(17, 3);
      FieldClear(20, 3);
      FieldOne(23, 3);
      FieldClear(26, 3);
      FieldOne(29, 3);
    }
  }

  lemma SizesSound()
    ensures NotOversubscribed(CL)
    ensures CodeOf(CL, 8) == 0 && CodeOf(CL, 18) == 1 && CL[8] == CL[18] == 1
  {
    hide Count, Kraft, Pow2;
    var a := [] + Repeat(0, 8);
    var b := a + Repeat(1, 1);
    var c := b + Repeat(0, 9);
    KraftZeros([], 8);
    KraftRepeat(a, 1, 1);
    KraftZeros(b, 9);
    KraftRepeat(c, 1, 1);
    NoKraft();
    Halves();
    NothingCounted(1);
    CountRepeat([], 0, 8, 1);
    CountRepeat(a, 1, 1, 1);
    CountRepeat(b, 0, 9, 1);
    assert CL[..8] == a && CL[..18] == c;
  }

  lemma NoKraft()
    ensures Lengths([]) && Kraft([]) == 0
  {
  }

  lemma Halves()
    ensures Pow2(15) == 2 * Pow2(14) && Pow2(7) == 128 && Pow2(15) == 32768
  {
    Pow2Values();
  }

  lemma OneBit(p: nat)
    requires p < 320
    ensures CodeBits(ONE_A, p, 1) == if IsSet(p) then 1 else 0
  {
    hide BitAt;
    BitOf(p);
    assert CodeBits(ONE_A, p, 0) == 0;
  }

  lemma ShortSymbol(p: nat)
    requires p < 320
    ensures SymbolAt(ONE_A, CL, p, if IsSet(p) then 18 else 8)
    ensures Symbol(ONE_A, CL, p) == Some(if IsSet(p) then 18 else 8)
  {
    hide CodeBits, CodeOf, Symbol, IsSet;
    OneBit(p);
    SizesSound();
    var c: nat := if IsSet(p) then 18 else 8;
    assert SymbolAt(ONE_A, CL, p, c);
    SymbolUnique(ONE_A, CL, p, c, Symbol(ONE_A, CL, p).value);
  }

  // ----- the two codes

  /** The lengths after the run of zeros and n eights. */
  function Sofar(n: nat): (r: seq<nat>)
    ensures |r| == 11 + n && Lengths(r)
  {
    [] + Repeat(0, 11) + Repeat(8, n)
  }

  lemma RunOfZeros()
    ensures LengthsStep(ONE_A, CL, 32, 258, []) == Some((Sofar(0), 40))
  {
    hide Field, Symbol;
    ShortSymbol(32);
    FieldClear(33, 7);
    assert [] + Repeat(0, 11) == Sofar(0);
  }

  lemma OneEight(n: nat)
    requires n < 247
    ensures LengthsStep(ONE_A, CL, 40 + n, 258, Sofar(n)) == Some((Sofar(n + 1), 41 + n))
  {
    hide Field, Symbol;
    ShortSymbol(40 + n);
    assert Sofar(n) + [8] == Sofar(n + 1);
  }

  lemma {:induction false} Eights(n: nat)
    requires n <= 247
    ensures ReadLengths(ONE_A, CL, 40 + n, 258, Sofar(n)) == Some((Sofar(247), 287))
    decreases 247 - n
  {
    hide LengthsStep, Sofar;
    if n < 247 {
      OneEight(n);
      Eights(n + 1);
    }
  }

  lemma AllLengths()
    ensures ReadLengths(ONE_A, CL, 32, 258, []) == Some((Sofar(247), 287))
  {
    hide LengthsStep, Sofar;
    RunOfZeros();
    Eights(0);
  }

  lemma CodesSound()
    ensures Sofar(247)[..257] == Sofar(246) && Sofar(247)[257..] == Repeat(8, 1)
    ensures NotOversubscribed(Sofar(246)) && NotOversubscribed(Repeat(8, 1))
  {
    hide Kraft, Pow2;
    NoKraft();
    KraftZeros([], 11);
    KraftRepeat([] + Repeat(0, 11), 8, 246);
    KraftRepeat([], 8, 1);
    Halves();
    assert [] + Repeat(8, 1) == Repeat(8, 1);
  }

  lemma CodesRead()
    ensures DynamicCodes(ONE_A, 3) == Some(Codes(Sofar(246), Repeat(8, 1), 287))
  {
    hide Field, CodeLengthLengths, ReadLengths, NotOversubscribed, Sofar;
    FieldClear(3, 5);
    FieldClear(8, 5);
    FieldOne(13, 4);
    SizesRead();
    SizesSound();
    AllLengths();
    CodesSound();
  }

  // ----- the body

  lemma {:induction false} NoShorter(L: nat)
    requires L <= 8
    ensures FirstCode(Sofar(246), L) == 0
  {
    hide Count;
    if L > 1 {
      NoShorter(L - 1);
      NothingCounted(L - 1);
      CountRepeat([], 0, 11, L - 1);
      CountRepeat([] + Repeat(0, 11), 8, 246, L - 1);
    }
  }

  /** Symbols from 11 on have the eight-bit numbers from 0 on. */
  lemma EightBitCode(s: nat)
    requires 11 <= s < 257
    ensures Sofar(246)[s] == 8 && CodeOf(Sofar(246), s) == s - 11
  {
    hide Count;
    NoShorter(8);
    NothingCounted(8);
    CountRepeat([], 0, 11, 8);
    CountRepeat([] + Repeat(0, 11), 8, s - 11, 8);
    assert Sofar(246)[..s] == Sofar(s - 11);
  }

  /** Eight bits, first bit most significant. */
  lemma EightBits(p: nat, b: seq<nat>)
    requires |b| == 8 && forall i :: 0 <= i < 8 ==> BitAt(ONE_A, p + i) == b[i]
    ensures CodeBits(ONE_A, p, 8)
            == 128 * b[0] + 64 * b[1] + 32 * b[2] + 16 * b[3] + 8 * b[4] + 4 * b[5] + 2 * b[6] + b[7]
  {
    hide BitAt;
    assert CodeBits(ONE_A, p, 2) == 2 * b[0] + b[1];
    assert CodeBits(ONE_A, p, 4) == 4 * CodeBits(ONE_A, p, 2) + 2 * b[2] + b[3];
    assert CodeBits(ONE_A, p, 6) == 4 * CodeBits(ONE_A, p, 4) + 2 * b[4] + b[5];
  }

  lemma Letters()
    ensures CodeBits(ONE_A, 287, 8) == 54 && CodeBits(ONE_A, 295, 8) == 245
  {
    hide BitAt, CodeBits;
    forall i | 0 <= i < 8
      ensures BitAt(ONE_A, 287 + i) == [0, 0, 1, 1, 0, 1, 1, 0][i] && BitAt(ONE_A, 295 + i) == [1, 1, 1, 1, 0, 1, 0, 1][i]
    {
      BitOf(287 + i);
      BitOf(295 + i);
    }
    EightBits(287, [0, 0, 1, 1, 0, 1, 1, 0]);
    EightBits(295, [1, 1, 1, 1, 0, 1, 0, 1]);
  }

  const LETTER: Token := Literal(65)

  lemma BodyRead()
    ensures var L, D := Sofar(246), Repeat(8, 1);
            BodyAt(ONE_A, L, D, 287, [LETTER]) && BodyEnd(L, D, 287, [LETTER]) == 303 && Expand([], [LETTER]) == Some([65])
  {
    hide CodeBits, CodeOf, Sofar;
    Letters();
    EightBitCode(65);
    EightBitCode(256);
    var ts := [LETTER];
    assert ts[..0] == [];
    assert SymbolAt(ONE_A, Sofar(246), 287, 65) && SymbolAt(ONE_A, Sofar(246), 295, END_OF_BLOCK);
    assert TokensAt(ONE_A, Sofar(246), Repeat(8, 1), 287, []);
    assert TokensEnd(Sofar(246), Repeat(8, 1), 287, []) == 287 && Expand([], []) == Some([]);
    assert [] + [65] == [65];
  }

  lemma StreamRead()
    ensures StreamAt(ONE_A, 0, [Dynamic([LETTER])]) && Denotes([Dynamic([LETTER])]) == Some([65])
    ensures BlocksEnd(ONE_A, 0, [Dynamic([LETTER])]) == 303
  {
    hide Field, DynamicCodes, BodyAt, BodyEnd, Expand, Sofar;
    FieldOne(0, 1);
    TypeTwo();
    CodesRead();
    BodyRead();
    var bs := [Dynamic([LETTER])];
    assert bs[..0] == [];
    assert BlocksAt(ONE_A, 0, []) && BlocksEnd(ONE_A, 0, []) == 0 && Denotes([]) == Some([]);
  }

  lemma TypeTwo()
    ensures Field(ONE_A, 1, 2) == 2
  {
    hide BitAt;
    BitOf(1);
    FieldOne(2, 1);
  }

  /** The decoder returns the byte. */
  method DecodeDynamic(initial_size: nat) returns (r: Option<seq<byte>>)
    requires 0 < initial_size <= INT_MAX
    ensures r == Some([65]) && Inflates(ONE_A, 0, [65], 303)
  {
    hide Delivers, StreamAt, Denotes, BlocksEnd;
    StreamRead();
    assert Inflates(ONE_A, 0, [65], 303);
    hide Inflates;
    DeliversInTime(ONE_A, 0, [65], 303, Ceiling(initial_size));
    assert Delivers(ONE_A, Start(false), [65], Ceiling(initial_size));
    r := DecodeMalloc(ONE_A, initial_size, false);
    if r.Some? {
      ghost var end: nat :| Inflates(ONE_A, 0, r.value, end);
      InflatesUnique(ONE_A, 0, r.value, [65], end, 303);
    }
  }
}
