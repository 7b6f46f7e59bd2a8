/**
 * Spreading packed samples and inserting alpha inside a row that already holds its packed bytes.
 * Pixels are packed with the leftmost in the high-order bits (section 2.3 of RFC 2083).
 */
module PngUnpack {
  import opened Arith
  import opened Bits
  import opened MsbStream

  predicate Packed(depth: nat) {
    depth == 1 || depth == 2 || depth == 4
  }

  /** Samples in a byte. */
  function PerByte(depth: nat): nat
    requires Packed(depth)
  {
    if depth == 1 then 8 else if depth == 2 then 4 else 2
  }

  /** The shift and mask that take sample q out of a byte. */
  function Piece(v: nat, depth: nat, q: nat): (r: nat)
    requires Packed(depth) && q < PerByte(depth)
    ensures r < 16
  {
    if depth == 1 then Shr(v, 7 - q) % 2
    else if depth == 2 then Shr(v, 6 - 2 * q) % 4
    else Shr(v, 4 - 4 * q) % 16
  }

  function Sample(row: seq<byte>, depth: nat, t: nat): nat
    requires Packed(depth) && t / PerByte(depth) < |row|
  {
    Piece(row[t / PerByte(depth)], depth, t % PerByte(depth))
  }

  lemma Digits(w: nat)
    ensures w % 4 == 2 * (w / 2 % 2) + w % 2
    ensures w % 16 == 8 * (w / 2 / 2 / 2 % 2) + 4 * (w / 2 / 2 % 2) + 2 * (w / 2 % 2) + w % 2
  {
    var a := w / 2;
    var b := a / 2;
    var c := b / 2;
    var d := c / 2;
    var r := 8 * (c % 2) + 4 * (b % 2) + 2 * (a % 2) + w % 2;
    assert w == 2 * a + w % 2 && a == 2 * b + a % 2 && b == 2 * c + b % 2 && c == 2 * d + c % 2;
    assert w == 16 * d + r && 0 <= r < 16;
    DivModUnique(w, 16, d, r);
    DivModUnique(w, 4, b, 2 * (a % 2) + w % 2);
  }

  lemma PieceBits(v: byte, depth: nat, q: nat)
    requires Packed(depth) && q < PerByte(depth)
    ensures depth == 1 ==> Piece(v, depth, q) == TopBit(v, q)
    ensures depth == 2 ==> Piece(v, depth, q) == 2 * TopBit(v, 2 * q) + TopBit(v, 2 * q + 1)
    ensures depth == 4 ==>
              Piece(v, depth, q) == 8 * TopBit(v, 4 * q) + 4 * TopBit(v, 4 * q + 1) + 2 * TopBit(v, 4 * q + 2) + TopBit(v, 4 * q + 3)
  {
    hide Shr;
    if depth == 2 {
      var n := 6 - 2 * q;
      Digits(Shr(v, n));
      ShrStep(v, n);
    } else if depth == 4 {
      var n := 4 - 4 * q;
      Digits(Shr(v, n));
      ShrStep(v, n);
      ShrStep(v, n + 1);
      ShrStep(v, n + 2);
    }
  }

  /** The shifts and masks read exactly the `depth` bits of sample t. */
  lemma SampleIsField(row: seq<byte>, depth: nat, t: nat)
    requires Packed(depth) && t / PerByte(depth) < |row|
    ensures Sample(row, depth, t) == MsbField(row, t * depth, depth)
  {
    hide Sample, MsbField;
    if depth == 1 {
      Sample1(row, t);
    } else if depth == 2 {
      Sample2(row, t);
    } else {
      Sample4(row, t);
    }
  }

  lemma Sample1(row: seq<byte>, t: nat)
    requires t / 8 < |row|
    ensures Sample(row, 1, t) == MsbField(row, t, 1)
  {
    PieceBits(row[t / 8], 1, t % 8);
    hide Piece, TopBit, MsbBit;
    SampleBit(row, 1, t, 0);
    assert MsbField(row, t, 1) == 2 * MsbField(row, t, 0) + MsbBit(row, t);
  }

  lemma Sample2(row: seq<byte>, t: nat)
    requires t / 4 < |row|
    ensures Sample(row, 2, t) == MsbField(row, t * 2, 2)
  {
    PieceBits(row[t / 4], 2, t % 4);
    hide Piece, TopBit, MsbBit, MsbField;
    SampleBit(row, 2, t, 0);
    SampleBit(row, 2, t, 1);
    MsbField2(row, t * 2);
  }

  lemma Sample4(row: seq<byte>, t: nat)
    requires t / 2 < |row|
    ensures Sample(row, 4, t) == MsbField(row, t * 4, 4)
  {
    hide Piece, TopBit, MsbBit, MsbField, Shr;
    var v, q, p := row[t / 2], t % 2, t * 4;
    PieceBits(v, 4, q);
    SampleBit(row, 4, t, 0);
    assert MsbBit(row, p) == TopBit(v, 4 * q);
    SampleBit(row, 4, t, 1);
    assert MsbBit(row, p + 1) == TopBit(v, 4 * q + 1);
    SampleBit(row, 4, t, 2);
    assert MsbBit(row, p + 2) == TopBit(v, 4 * q + 2);
    SampleBit(row, 4, t, 3);
    assert MsbBit(row, p + 3) == TopBit(v, 4 * q + 3);
    MsbField4(row, p);
  }

  lemma MsbField2(row: seq<byte>, p: nat)
    ensures MsbField(row, p, 2) == 2 * MsbBit(row, p) + MsbBit(row, p + 1)
  {
    hide MsbBit;
    assert MsbField(row, p, 1) == 2 * MsbField(row, p, 0) + MsbBit(row, p);
  }

  lemma MsbField4(row: seq<byte>, p: nat)
    ensures MsbField(row, p, 4) == 8 * MsbBit(row, p) + 4 * MsbBit(row, p + 1) + 2 * MsbBit(row, p + 2) + MsbBit(row, p + 3)
  {
    hide MsbBit;
    MsbField2(row, p);
    assert MsbField(row, p, 3) == 2 * MsbField(row, p, 2) + MsbBit(row, p + 2);
    assert MsbField(row, p, 4) == 2 * MsbField(row, p, 3) + MsbBit(row, p + 3);
  }

  lemma SampleBit(row: seq<byte>, depth: nat, t: nat, i: nat)
    requires Packed(depth) && t / PerByte(depth) < |row| && i < depth
    ensures t % PerByte(depth) * depth + i < 8
    ensures MsbBit(row, t * depth + i) == TopBit(row[t / PerByte(depth)], t % PerByte(depth) * depth + i)
  {
    hide TopBit;
    BitPlace(depth, t, i);
  }

  lemma BitPlace(depth: nat, t: nat, i: nat)
    requires Packed(depth) && i < depth
    ensures (t * depth + i) / 8 == t / PerByte(depth)
    ensures (t * depth + i) % 8 == t % PerByte(depth) * depth + i
  {
    var k, q := t / PerByte(depth), t % PerByte(depth);
    if depth == 1 {
      DivModUnique(t + i, 8, k, q + i);
    } else if depth == 2 {
      DivModUnique(t * 2 + i, 8, k, q * 2 + i);
    } else {
      DivModUnique(t * 4 + i, 8, k, q * 4 + i);
    }
  }

  /** Bytes that n packed samples take. */
  function PackedBytes(n: nat, depth: nat): nat {
    (n * depth + 7) / 8
  }

  /** A packed byte sits at or after the place of every sample it holds. */
  lemma PackedAhead(n: nat, depth: nat, t: nat)
    requires Packed(depth) && t < n
    ensures t / PerByte(depth) < PackedBytes(n, depth) <= n
    ensures t <= n - PackedBytes(n, depth) + t / PerByte(depth)
  {
  }

  function Scaled(scale: int, v: int): byte {
    scale * v % 256
  }

  function Spread(row: seq<byte>, depth: nat, scale: byte, t: nat): byte
    requires Packed(depth) && t / PerByte(depth) < |row|
  {
    Scaled(scale, Sample(row, depth, t))
  }

  /** After t samples: they are spread from `start`, and packed bytes from position t on are intact. */
  ghost predicate Unpacked(s: seq<byte>, start: nat, off: nat, row: seq<byte>, depth: nat, scale: byte, n: nat, t: nat) {
    && Packed(depth) && t <= n && |row| == PackedBytes(n, depth) && n <= off + |row| && start + off + |row| <= |s|
    && (forall p :: start <= p < start + t ==>
          (p - start) / PerByte(depth) < |row| && s[p] == Spread(row, depth, scale, p - start))
    && (forall p :: start + off <= p < start + off + |row| && start + t <= p ==> s[p] == row[p - start - off])
  }

  lemma UnpackedStep(s: seq<byte>, start: nat, off: nat, row: seq<byte>, depth: nat, scale: byte, n: nat, t: nat)
    requires Unpacked(s, start, off, row, depth, scale, n, t) && t < n
    ensures var q := start + off + t / PerByte(depth);
            && q < |s| && start + t <= q
            && var s' := s[start + t := Scaled(scale, Piece(s[q], depth, t % PerByte(depth)))];
            Unpacked(s', start, off, row, depth, scale, n, t + 1)
  {
    hide Piece, Scaled;
    PackedAhead(n, depth, t);
    hide PackedBytes;
  }

  /** Spreads one row in place: whole bytes first, then what the last byte holds. */
  method UnpackRow(out: array<byte>, start: nat, off: nat, ghost row: seq<byte>, depth: nat, scale: byte, n: nat)
    requires Unpacked(out[..], start, off, row, depth, scale, n, 0)
    modifies out
    ensures Unpacked(out[..], start, off, row, depth, scale, n, n)
    ensures forall p :: 0 <= p < out.Length && !(start <= p < start + n) ==> out[p] == old(out[p])
  {
    hide Unpacked;
    assert start + off + |row| <= out.Length && Packed(depth) && start + n <= out.Length by {
      UnpackedFacts(out[..], start, off, row, depth, scale, n, 0);
    }
    var per := PerByte(depth);
    var k, cur, inp := n, start, start + off;
    while k >= per
      invariant 0 <= k <= n && (n - k) % per == 0
      invariant cur == start + (n - k) && inp == start + off + (n - k) / per
      invariant Unpacked(out[..], start, off, row, depth, scale, n, n - k)
      invariant forall p :: 0 <= p < out.Length && !(start <= p < start + n) ==> out[p] == old(out[p])
    {
      cur := UnpackByte(out, start, off, row, depth, scale, n, cur, inp, per);
      NextByte(n - k, per, depth);
      k, inp := k - per, inp + 1;
    }
    cur := UnpackByte(out, start, off, row, depth, scale, n, cur, inp, k);
  }

  lemma NextByte(done: nat, per: nat, depth: nat)
    requires Packed(depth) && per == PerByte(depth) && done % per == 0
    ensures (done + per) % per == 0 && (done + per) / per == done / per + 1
  {
  }

  lemma UnpackedFacts(s: seq<byte>, start: nat, off: nat, row: seq<byte>, depth: nat, scale: byte, n: nat, t: nat)
    requires Unpacked(s, start, off, row, depth, scale, n, t)
    ensures start + off + |row| <= |s| && Packed(depth) && start + n <= |s|
  {
  }

  /** The first m samples of the byte at `inp`, stored from `at`. */
  method UnpackByte(out: array<byte>, ghost start: nat, ghost off: nat, ghost row: seq<byte>, depth: nat, scale: byte, ghost n: nat, at: nat, inp: nat, m: nat)
    returns (cur: nat)
    requires Packed(depth) && m <= PerByte(depth) && start <= at && at - start + m <= n
    requires (at - start) % PerByte(depth) == 0 && inp == start + off + (at - start) / PerByte(depth)
    requires Unpacked(out[..], start, off, row, depth, scale, n, at - start)
    modifies out
    ensures cur == at + m
    ensures Unpacked(out[..], start, off, row, depth, scale, n, cur - start)
    ensures forall p :: 0 <= p < out.Length && !(at <= p < cur) ==> out[p] == old(out[p])
  {
    hide Unpacked, Piece, Scaled;
    cur := at;
    var q := 0;
    while q < m
      invariant 0 <= q <= m && cur == at + q
      invariant Unpacked(out[..], start, off, row, depth, scale, n, cur - start)
      invariant forall p :: 0 <= p < out.Length && !(at <= p < cur) ==> out[p] == old(out[p])
    {
      WithinByte(at - start, q, depth);
      UnpackedStep(out[..], start, off, row, depth, scale, n, cur - start);
      ghost var before := out[..];
      out[cur] := Scaled(scale, Piece(out[inp], depth, q));
      assert out[..] == before[cur := Scaled(scale, Piece(before[inp], depth, q))];
      q, cur := q + 1, cur + 1;
    }
  }

  lemma WithinByte(done: nat, q: nat, depth: nat)
    requires Packed(depth) && q < PerByte(depth) && done % PerByte(depth) == 0
    ensures (done + q) / PerByte(depth) == done / PerByte(depth) && (done + q) % PerByte(depth) == q
  {
  }

  // ----- alpha

  /** Byte b of a row of one-sample pixels, each followed by 255. */
  function Widened1(s: seq<byte>, b: nat): byte
    requires b / 2 < |s|
  {
    if b % 2 == 1 then 255 else s[b / 2]
  }

  /** Byte b of a row of three-sample pixels, each followed by 255. */
  function Widened3(s: seq<byte>, b: nat): byte
    requires b / 4 * 3 + 2 < |s|
  {
    if b % 4 == 3 then 255 else s[b / 4 * 3 + b % 4]
  }

  lemma Widened1At(s: seq<byte>, q: nat)
    requires q < |s|
    ensures Widened1(s, q * 2) == s[q] && Widened1(s, q * 2 + 1) == 255
  {
  }

  lemma Widened3At(s: seq<byte>, q: nat)
    requires 3 * q + 2 < |s|
    ensures Widened3(s, q * 4) == s[q * 3] && Widened3(s, q * 4 + 1) == s[q * 3 + 1]
    ensures Widened3(s, q * 4 + 2) == s[q * 3 + 2] && Widened3(s, q * 4 + 3) == 255
  {
  }

  /** Alpha goes in from the right, so that no sample is lost; one sample a pixel. */
  method InsertAlpha1(out: array<byte>, start: nat, x: nat, ghost s: seq<byte>)
    requires start + 2 * x <= out.Length && |s| == x
    requires forall p :: start <= p < start + x ==> out[p] == s[p - start]
    modifies out
    ensures forall p :: start <= p < start + 2 * x ==> out[p] == Widened1(s, p - start)
    ensures forall p :: 0 <= p < out.Length && !(start <= p < start + 2 * x) ==> out[p] == old(out[p])
  {
    hide Widened1;
    var q := x - 1;
    while q >= 0
      invariant -1 <= q < x
      invariant forall p :: start <= p < start + q + 1 ==> out[p] == s[p - start]
      invariant forall p :: start + 2 * (q + 1) <= p < start + 2 * x ==> out[p] == Widened1(s, p - start)
      invariant forall p :: 0 <= p < out.Length && !(start <= p < start + 2 * x) ==> out[p] == old(out[p])
    {
      out[start + q * 2 + 1] := 255;
      out[start + q * 2] := out[start + q];
      Widened1At(s, q);
      q := q - 1;
    }
  }

  /** The same with three samples a pixel. */
  method InsertAlpha3(out: array<byte>, start: nat, x: nat, ghost s: seq<byte>)
    requires start + 4 * x <= out.Length && |s| == 3 * x
    requires forall p :: start <= p < start + 3 * x ==> out[p] == s[p - start]
    modifies out
    ensures forall p :: start <= p < start + 4 * x ==> out[p] == Widened3(s, p - start)
    ensures forall p :: 0 <= p < out.Length && !(start <= p < start + 4 * x) ==> out[p] == old(out[p])
  {
    hide Widened3;
    var q := x - 1;
    while q >= 0
      invariant -1 <= q < x
      invariant forall p :: start <= p < start + 3 * (q + 1) ==> out[p] == s[p - start]
      invariant forall p :: start + 4 * (q + 1) <= p < start + 4 * x ==> out[p] == Widened3(s, p - start)
      invariant forall p :: 0 <= p < out.Length && !(start <= p < start + 4 * x) ==> out[p] == old(out[p])
    {
      Widened3At(s, q);
      out[start + q * 4 + 3] := 255;
      out[start + q * 4 + 2] := out[start + q * 3 + 2];
      out[start + q * 4 + 1] := out[start + q * 3 + 1];
      out[start + q * 4] := out[start + q * 3];
      q := q - 1;
    }
  }
}
