/** Bytes read as a stream of bits, most significant bit of each byte first; zeros follow the end. */
module MsbStream {
  import opened Bits

  /** Bit i of a byte, counted from the high-order end. */
  function TopBit(v: nat, i: nat): (b: nat)
    requires i < 8
    ensures b <= 1
  {
    Shr(v, 7 - i) % 2
  }

  function MsbBit(data: seq<byte>, p: nat): (b: nat)
    ensures b <= 1
  {
    if p / 8 < |data| then TopBit(data[p / 8], p % 8) else 0
  }

  /** The n bits from position p, the first of them the most significant. */
  function MsbField(data: seq<byte>, p: nat, n: nat): nat {
    if n == 0 then 0 else 2 * MsbField(data, p, n - 1) + MsbBit(data, p + n - 1)
  }

  lemma {:induction false} MsbBound(data: seq<byte>, p: nat, n: nat)
    ensures MsbField(data, p, n) < Pow2(n)
  {
    hide MsbBit;
    if n > 0 {
      MsbBound(data, p, n - 1);
    }
  }

  lemma {:induction false} MsbAppend(data: seq<byte>, p: nat, a: nat, b: nat)
    ensures MsbField(data, p, a + b) == Shl(MsbField(data, p, a), b) + MsbField(data, p + a, b)
  {
    hide MsbBit;
    if b > 0 {
      MsbAppend(data, p, a, b - 1);
    }
  }

  lemma {:induction false} MsbPastEnd(data: seq<byte>, p: nat, n: nat)
    requires 8 * |data| <= p
    ensures MsbField(data, p, n) == 0
  {
    if n > 0 {
      MsbPastEnd(data, p, n - 1);
    }
  }

  lemma {:induction false} MsbTop(data: seq<byte>, k: nat, n: nat)
    requires k < |data| && n <= 8
    ensures MsbField(data, 8 * k, n) == Shr(data[k], 8 - n)
  {
    hide Shr, MsbBit;
    var v: nat := data[k];
    if n > 0 {
      MsbTop(data, k, n - 1);
      ShrStep(v, 8 - n);
      BitInByte(data, k, n - 1);
    } else {
      ShrByte(v);
    }
  }

  lemma BitInByte(data: seq<byte>, k: nat, i: nat)
    requires k < |data| && i < 8
    ensures MsbBit(data, 8 * k + i) == Shr(data[k], 7 - i) % 2
  {
    hide Shr;
    assert (8 * k + i) / 8 == k && (8 * k + i) % 8 == i;
  }

  /** A whole byte. */
  lemma MsbByte(data: seq<byte>, k: nat)
    ensures MsbField(data, 8 * k, 8) == if k < |data| then data[k] else 0
  {
    hide MsbField;
    if k < |data| {
      MsbTop(data, k, 8);
    } else {
      MsbPastEnd(data, 8 * k, 8);
    }
  }
}
