/**
 * Valid streams that the inflater refuses and accepts, both with less than sixteen bits of input behind
 * them: one block of the fixed codes that holds one or two zero bytes.
 */
module ShortTail {
  import opened Collections
  import opened Bits
  import opened BitStream
  import opened Canonical
  import opened Deflate
  import opened LookAhead
  import opened Inflate

  const TWO_ZEROS: seq<byte> := [0x63, 0x60, 0x00, 0x00]
  const ONE_ZERO: seq<byte> := [0x63, 0x00, 0x00]

  // ----- two codewords of the fixed code

  lemma ZeroAt(data: seq<byte>, p: nat)
    requires BitAt(data, p) == 0 && BitAt(data, p + 1) == 0 && BitAt(data, p + 2) == 1 && BitAt(data, p + 3) == 1
    requires BitAt(data, p + 4) == 0 && BitAt(data, p + 5) == 0 && BitAt(data, p + 6) == 0 && BitAt(data, p + 7) == 0
    ensures SymbolAt(data, FIXED_LENGTHS, p, 0)
  {
    hide BitAt, CodeOf;
    FixedCodeOf(0);
    assert CodeBits(data, p, 4) == 3;
    assert CodeBits(data, p, 6) == 12;
    assert CodeBits(data, p, 8) == 48;
  }

  lemma EndAt(data: seq<byte>, p: nat)
    requires BitAt(data, p) == 0 && BitAt(data, p + 1) == 0 && BitAt(data, p + 2) == 0 && BitAt(data, p + 3) == 0
    requires BitAt(data, p + 4) == 0 && BitAt(data, p + 5) == 0 && BitAt(data, p + 6) == 0
    ensures SymbolAt(data, FIXED_LENGTHS, p, END_OF_BLOCK)
  {
    hide BitAt, CodeOf;
    FixedCodeOf(END_OF_BLOCK);
    assert CodeBits(data, p, 4) == 0;
    assert CodeBits(data, p, 7) == 0;
  }

  // ----- the two streams

  const ZERO: Token := Literal(0)

  lemma ByteBits(b: byte)
    requires b == 0 || b == 0x60 || b == 0x63
    ensures Bit(b, 0) == Bit(b, 1) == (if b == 0x63 then 1 else 0) && Bit(b, 2) == Bit(b, 3) == Bit(b, 4) == 0
    ensures Bit(b, 5) == Bit(b, 6) == (if b == 0 then 0 else 1) && Bit(b, 7) == 0
  {
    hide Bit;
    NoBits();
    Sixty();
    SixtyThree();
  }

  lemma NoBits()
    ensures Bit(0, 0) == Bit(0, 1) == Bit(0, 2) == Bit(0, 3) == Bit(0, 4) == Bit(0, 5) == Bit(0, 6) == Bit(0, 7) == 0
  {
    assert Bit(0, 3) == Bit(0, 2) == Bit(0, 1) == Bit(0, 0) == 0;
    assert Bit(0, 7) == Bit(0, 6) == Bit(0, 5) == Bit(0, 4) == Bit(0, 3);
  }

  lemma Sixty()
    ensures Bit(0x60, 0) == Bit(0x60, 1) == Bit(0x60, 2) == Bit(0x60, 3) == Bit(0x60, 4) == Bit(0x60, 7) == 0
    ensures Bit(0x60, 5) == Bit(0x60, 6) == 1
  {
    assert Bit(0x60, 4) == Bit(6, 0) == 0 && Bit(0x60, 5) == Bit(6, 1) == 1 && Bit(0x60, 6) == Bit(6, 2) == 1 && Bit(0x60, 7) == Bit(6, 3) == 0;
  }

  lemma SixtyThree()
    ensures Bit(0x63, 2) == Bit(0x63, 3) == Bit(0x63, 4) == Bit(0x63, 7) == 0
    ensures Bit(0x63, 0) == Bit(0x63, 1) == Bit(0x63, 5) == Bit(0x63, 6) == 1
  {
    assert Bit(0x63, 4) == Bit(6, 0) == 0 && Bit(0x63, 5) == Bit(6, 1) == 1 && Bit(0x63, 6) == Bit(6, 2) == 1 && Bit(0x63, 7) == Bit(6, 3) == 0;
  }

  /** `n` zero bytes as literals, behind the three bits of the block header and with four bytes loaded. */
  ghost predicate Zeros(data: seq<byte>, ts: seq<Token>, out: seq<byte>, n: nat) {
    && TokensAt(data, FIXED_LENGTHS, FIXED_DISTANCES, 3, ts)
    && TokensEnd(FIXED_LENGTHS, FIXED_DISTANCES, 3, ts) == 3 + 8 * n
    && AfterTokens(FIXED_LENGTHS, FIXED_DISTANCES, 3, 4, ts) == 4
    && TokensFed(|data|, FIXED_LENGTHS, FIXED_DISTANCES, 3, 4, ts)
    && Expand([], ts) == Some(out)
  }

  lemma NoZeros(data: seq<byte>)
    ensures Zeros(data, [], [], 0)
  {
  }

  lemma ZerosNext(data: seq<byte>, ts: seq<Token>, out: seq<byte>, n: nat)
    requires Zeros(data, ts, out, n) && n < 2 && SymbolAt(data, FIXED_LENGTHS, 3 + 8 * n, 0)
    ensures Zeros(data, ts + [ZERO], out + [0], n + 1)
  {
    hide SymbolAt;
    assert (ts + [ZERO])[..|ts|] == ts;
    FixedCodeOf(0);
  }

  lemma ZerosStream(data: seq<byte>, ts: seq<Token>, out: seq<byte>, n: nat)
    requires Zeros(data, ts, out, n) && Field(data, 0, 1) == 1 && Field(data, 1, 2) == 1
    requires SymbolAt(data, FIXED_LENGTHS, 3 + 8 * n, END_OF_BLOCK)
    ensures StreamAt(data, 0, [Fixed(ts)]) && Denotes([Fixed(ts)]) == Some(out)
    ensures BlocksEnd(data, 0, [Fixed(ts)]) == 10 + 8 * n
    ensures BlocksFed(data, 0, 0, [Fixed(ts)]) <==> !Starved(|data|, 3 + 8 * n, 4)
  {
    hide SymbolAt, TokensAt, TokensEnd, TokensFed, AfterTokens, Expand, Field;
    var bs := [Fixed(ts)];
    assert bs[..0] == [];
    assert BlocksAt(data, 0, []) && BlocksEnd(data, 0, []) == 0 && Denotes([]) == Some([]);
    assert BlocksFed(data, 0, 0, []) && AfterBlocks(data, 0, 0, []) == 0;
    assert AfterHeader(0, 0) == 4;
    FixedCodeOf(END_OF_BLOCK);
  }

  lemma HeaderBits(data: seq<byte>)
    requires data == ONE_ZERO || data == TWO_ZEROS
    ensures Field(data, 0, 1) == 1 && Field(data, 1, 2) == 1 && SymbolAt(data, FIXED_LENGTHS, 3, 0)
  {
    hide Bit, SymbolAt;
    ByteBits(0);
    ByteBits(0x60);
    ByteBits(0x63);
    ZeroAt(data, 3);
    assert Field(data, 0, 1) == 1 && Field(data, 2, 1) == 0;
  }

  /** The stream of one zero ends six bits before its input and is not starved. */
  lemma OneZero() returns (bs: seq<Block>)
    ensures StreamAt(ONE_ZERO, 0, bs) && Denotes(bs) == Some([0]) && BlocksEnd(ONE_ZERO, 0, bs) == 18
    ensures BlocksFed(ONE_ZERO, 0, 0, bs)
  {
    hide Bit, SymbolAt, Zeros, StreamAt, BlocksEnd, BlocksFed, Denotes, Field;
    ByteBits(0);
    HeaderBits(ONE_ZERO);
    EndAt(ONE_ZERO, 11);
    NoZeros(ONE_ZERO);
    ZerosNext(ONE_ZERO, [], [], 0);
    bs := [Fixed([] + [ZERO])];
    ZerosStream(ONE_ZERO, [] + [ZERO], [] + [0], 1);
    assert [] + [0] == [0];
  }

  /** The stream of two zeros ends six bits before its input too, and is starved at its end-of-block symbol. */
  lemma TwoZeros() returns (bs: seq<Block>)
    ensures StreamAt(TWO_ZEROS, 0, bs) && Denotes(bs) == Some([0, 0]) && BlocksEnd(TWO_ZEROS, 0, bs) == 26
    ensures !BlocksFed(TWO_ZEROS, 0, 0, bs)
  {
    hide Bit, SymbolAt, Zeros, StreamAt, BlocksEnd, BlocksFed, Denotes, Field;
    ByteBits(0);
    ByteBits(0x60);
    HeaderBits(TWO_ZEROS);
    ZeroAt(TWO_ZEROS, 11);
    EndAt(TWO_ZEROS, 19);
    NoZeros(TWO_ZEROS);
    ZerosNext(TWO_ZEROS, [], [], 0);
    ZerosNext(TWO_ZEROS, [] + [ZERO], [] + [0], 1);
    bs := [Fixed([] + [ZERO] + [ZERO])];
    ZerosStream(TWO_ZEROS, [] + [ZERO] + [ZERO], [] + [0] + [0], 2);
    assert [] + [0] + [0] == [0, 0];
  }

  /** Refused: a valid stream of 26 bits in four bytes. */
  lemma Refused(room: nat)
    ensures Inflates(TWO_ZEROS, 0, [0, 0], 26)
    ensures forall out: seq<byte> :: !Delivers(TWO_ZEROS, 0, out, room)
  {
    hide StreamAt, BlocksEnd, BlocksFed, Denotes;
    var bs := TwoZeros();
    forall out: seq<byte>
      ensures !Delivers(TWO_ZEROS, 0, out, room)
    {
      if Delivers(TWO_ZEROS, 0, out, room) {
        var cs :| StreamAt(TWO_ZEROS, 0, cs) && BlocksFed(TWO_ZEROS, 0, 0, cs);
        StreamUnique(TWO_ZEROS, 0, bs, cs);
      }
    }
  }

  /** Delivered: a valid stream of 18 bits in three bytes. */
  lemma Delivered(room: nat)
    requires 1 <= room
    ensures Inflates(ONE_ZERO, 0, [0], 18) && Delivers(ONE_ZERO, 0, [0], room)
  {
    hide StreamAt, BlocksEnd, BlocksFed, Denotes;
    var bs := OneZero();
  }

  /** What the decoder makes of the two: nothing of the longer one, the byte of the shorter one. */
  method DecodeBoth(initial_size: nat) returns (two: Option<seq<byte>>, one: Option<seq<byte>>)
    requires 0 < initial_size <= INT_MAX
    ensures two.None? && Inflates(TWO_ZEROS, 0, [0, 0], 26)
    ensures one == Some([0]) && Inflates(ONE_ZERO, 0, [0], 18)
  {
    hide Inflates, Delivers;
    Refused(Ceiling(initial_size));
    Delivered(Ceiling(initial_size));
    assert Delivers(ONE_ZERO, Start(false), [0], Ceiling(initial_size));
    two := DecodeMalloc(TWO_ZEROS, initial_size, false);
    one := DecodeMalloc(ONE_ZERO, initial_size, false);
    if one.Some? {
      ghost var end: nat :| Inflates(ONE_ZERO, 0, one.value, end);
      InflatesUnique(ONE_ZERO, 0, one.value, [0], end, 18);
    }
  }
}
