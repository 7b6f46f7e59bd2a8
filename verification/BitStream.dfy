/**
 * The input of the inflater as a stream of bits: every byte from its least significant bit upwards
 * (section 3.1.1 of RFC 1951), and zero bits for ever after the last byte.
 */
module BitStream {
  import opened Bits

  function BitAt(data: seq<byte>, p: nat): (b: nat)
    ensures b <= 1
  {
    if p / 8 < |data| then Bit(data[p / 8], p % 8) else 0
  }

  /** The n bits at p as a number, first bit least significant: plain fields. */
  function Field(data: seq<byte>, p: nat, n: nat): nat
    decreases n
  {
    if n == 0 then 0 else BitAt(data, p) + 2 * Field(data, p + 1, n - 1)
  }

  /** The n bits at p as a number, first bit most significant: Huffman codes. */
  function CodeBits(data: seq<byte>, p: nat, n: nat): nat
    decreases n
  {
    if n == 0 then 0 else 2 * CodeBits(data, p, n - 1) + BitAt(data, p + n - 1)
  }

  lemma {:induction false} FieldBound(data: seq<byte>, p: nat, n: nat)
    ensures Field(data, p, n) < Pow2(n)
    decreases n
  {
    hide BitAt;
    if n != 0 {
      FieldBound(data, p + 1, n - 1);
    }
  }

  lemma {:induction false} CodeBitsBound(data: seq<byte>, p: nat, n: nat)
    ensures CodeBits(data, p, n) < Pow2(n)
    decreases n
  {
    hide BitAt;
    if n != 0 {
      CodeBitsBound(data, p, n - 1);
    }
  }

  /** Consecutive fields concatenate, the later one on top. */
  lemma {:induction false} FieldAppend(data: seq<byte>, p: nat, a: nat, b: nat)
    ensures Field(data, p, a + b) == Field(data, p, a) + Shl(Field(data, p + a, b), a)
    decreases a
  {
    hide BitAt;
    if a != 0 {
      FieldAppend(data, p + 1, a - 1, b);
      assert p + 1 + (a - 1) == p + a;
      assert Field(data, p, a + b) == BitAt(data, p) + 2 * Field(data, p + 1, a - 1 + b);
    }
  }

  /** Masking gives the first field, shifting gives the rest. */
  lemma FieldSplit(data: seq<byte>, p: nat, a: nat, b: nat)
    ensures Low(Field(data, p, a + b), a) == Field(data, p, a)
    ensures Shr(Field(data, p, a + b), a) == Field(data, p + a, b)
  {
    FieldAppend(data, p, a, b);
    FieldBound(data, p, a);
    ShlSplit(Field(data, p + a, b), Field(data, p, a), a);
  }

  /** A whole byte, or a padding byte past the end. */
  lemma FieldByte(data: seq<byte>, k: nat)
    ensures Field(data, 8 * k, 8) == if k < |data| then data[k] else 0
  {
    FieldWithinByte(data, k, 0);
  }

  lemma {:induction false} FieldWithinByte(data: seq<byte>, k: nat, i: nat)
    requires i <= 8
    ensures Field(data, 8 * k + i, 8 - i) == Shr(if k < |data| then data[k] else 0, i)
    decreases 8 - i
  {
    var v := if k < |data| then data[k] else 0;
    if i == 8 {
      ShrByte(v);
    } else {
      FieldWithinByte(data, k, i + 1);
      assert (8 * k + i) / 8 == k && (8 * k + i) % 8 == i;
      assert 8 * k + i + 1 == 8 * k + (i + 1);
      BitZero(i);
      assert BitAt(data, 8 * k + i) == Bit(v, i);
      BitShr(v, i, 0);
      ShrStep(v, i);
    }
  }

  /** Past the end every field is zero. */
  lemma {:induction false} FieldPastEnd(data: seq<byte>, p: nat, n: nat)
    requires p >= 8 * |data|
    ensures Field(data, p, n) == 0
    decreases n
  {
    if n != 0 {
      FieldPastEnd(data, p + 1, n - 1);
    }
  }

  lemma {:induction false} CodeBitsAppend(data: seq<byte>, p: nat, a: nat, b: nat)
    ensures CodeBits(data, p, a + b) == Shl(CodeBits(data, p, a), b) + CodeBits(data, p + a, b)
    decreases b
  {
    hide BitAt;
    if b != 0 {
      CodeBitsAppend(data, p, a, b - 1);
      assert p + a + b - 1 == p + (a + b) - 1;
      assert CodeBits(data, p, a + b) == 2 * CodeBits(data, p, a + (b - 1)) + BitAt(data, p + a + b - 1);
    }
  }

  /** A shorter code is the top of a longer window. */
  lemma CodeBitsPrefix(data: seq<byte>, p: nat, a: nat, b: nat)
    ensures Shr(CodeBits(data, p, a + b), b) == CodeBits(data, p, a)
  {
    CodeBitsAppend(data, p, a, b);
    CodeBitsBound(data, p + a, b);
    ShlSplit(CodeBits(data, p, a), CodeBits(data, p + a, b), b);
  }

  /** The two readings of the same bits are reversals of each other. */
  lemma {:induction false} ReverseField(data: seq<byte>, p: nat, n: nat)
    ensures Reverse(Field(data, p, n), n) == CodeBits(data, p, n)
    decreases n
  {
    hide BitAt;
    if n != 0 {
      var f := Field(data, p, n);
      assert f % 2 == BitAt(data, p) && f / 2 == Field(data, p + 1, n - 1);
      ReverseField(data, p + 1, n - 1);
      CodeBitsAppend(data, p, 1, n - 1);
      assert CodeBits(data, p, 1) == BitAt(data, p) by {
        assert CodeBits(data, p, 0) == 0;
      }
    }
  }
}
