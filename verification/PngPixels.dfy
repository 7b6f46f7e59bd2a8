/**
 * What the bytes of a decoded image are, sample by sample, in terms of the unfiltered rows and the numbers
 * of the header alone: section 2.3 of RFC 2083 for packed samples and palette indices, big-endian samples of
 * sixteen bits, and an opaque alpha channel where one is added.
 */
module PngPixels {
  import opened Arith
  import opened Bits
  import opened MsbStream
  import opened PngSpec
  import opened PngUnpack
  import opened Png

  lemma PixelAt(f: Format, row: seq<byte>, i: nat, d: nat)
    requires f.Valid() && d < f.OutBytes()
    ensures var b := i * f.OutBytes() + d;
            PixelByte(f, row, b) == if d >= f.img_n * f.Bytes() then 255
                                    else if f.depth < 8 then SampleAt(row, f.depth, f.Scale(), i * f.img_n + d)
                                    else if f.depth == 8 then At(row, i * f.img_n + d)
                                    else At(row, i * (f.img_n * 2) + Swapped(d))
  {
    hide Format.OutBytes, Format.Scale, SampleAt;
    DivModUnique(i * f.OutBytes() + d, f.OutBytes(), i, d);
  }

  /** Sample c of pixel i comes before the end of the row. */
  lemma SampleInRow(n: nat, x: nat, i: nat, c: nat)
    requires i < x && c < n
    ensures i * n + c < x * n
  {
    MulLe(i + 1, x, n);
    assert (i + 1) * n == i * n + n;
  }

  lemma RowBytesAre(f: Format, x: nat)
    requires f.Valid()
    ensures f.RowBytes(x) == (x * f.img_n * f.depth + 7) / 8 == PackedBytes(x * f.img_n, f.depth)
  {
    assert f.img_n * x * f.depth == x * f.img_n * f.depth;
  }

  lemma Unscaled(f: Format, v: nat)
    requires f.Valid() && Packed(f.depth) && f.color != 0 && v < 16
    ensures Scaled(f.Scale(), v) == v
  {
  }

  lemma PackedSample(f: Format, row: seq<byte>, x: nat, t: nat)
    requires f.Valid() && Packed(f.depth) && |row| == PackedBytes(x * f.img_n, f.depth) && t < x * f.img_n
    ensures var v := MsbField(row, t * f.depth, f.depth);
            var s := SampleAt(row, f.depth, f.Scale(), t);
            if f.color != 0 then s == v else s * (Pow2(f.depth) - 1) == 255 * v
  {
    hide PackedBytes, MsbField, Scaled, Format.Scale, Pow2, Sample;
    PackedAhead(x * f.img_n, f.depth, t);
    SampleIsField(row, f.depth, t);
    MsbBound(row, t * f.depth, f.depth);
    Pow2Values();
    var v := MsbField(row, t * f.depth, f.depth);
    if f.color != 0 {
      Unscaled(f, v);
    } else {
      GreyScale(f, v);
    }
  }

  /** A packed row: palette indices and other samples as they are, grey levels stretched to a byte. */
  lemma PackedPixel(f: Format, row: seq<byte>, x: nat, i: nat, c: nat, t: nat)
    requires f.Valid() && Packed(f.depth) && |row| == PackedBytes(x * f.img_n, f.depth) && i < x && c < f.out_n
    requires t == i * f.img_n + c
    ensures var s, v := PixelByte(f, row, i * f.out_n + c), MsbField(row, t * f.depth, f.depth);
            if c >= f.img_n then s == 255 else if f.color != 0 then s == v else s * (Pow2(f.depth) - 1) == 255 * v
  {
    hide PackedBytes, MsbField, SampleAt, Format.Scale, Pow2, PixelByte;
    PixelAt(f, row, i, c);
    if c < f.img_n {
      SampleInRow(f.img_n, x, i, c);
      PackedSample(f, row, x, t);
    }
  }

  lemma BytePixel(f: Format, row: seq<byte>, x: nat, i: nat, c: nat)
    requires f.Valid() && f.depth == 8 && |row| == x * f.img_n && i < x && c < f.out_n
    ensures c < f.img_n ==> i * f.img_n + c < |row|
    ensures PixelByte(f, row, i * f.out_n + c) == if c >= f.img_n then 255 else row[i * f.img_n + c]
  {
    hide PixelByte;
    PixelAt(f, row, i, c);
    if c < f.img_n {
      SampleInRow(f.img_n, x, i, c);
    }
  }

  /** Sixteen bits: the number that the two bytes make in the file and in memory is the same. */
  lemma WordPixel(f: Format, row: seq<byte>, x: nat, i: nat, c: nat, b: nat, t: nat)
    requires f.Valid() && f.depth == 16 && |row| == 2 * (x * f.img_n) && i < x && c < f.out_n
    requires b == i * f.out_n + c && t == i * f.img_n + c
    ensures c < f.img_n ==> 2 * t + 1 < |row|
    ensures var low: int, high: int := PixelByte(f, row, 2 * b), PixelByte(f, row, 2 * b + 1);
            low + 256 * high == if c >= f.img_n then 65535 else BigEndian(row, 2 * t)
  {
    hide PixelByte;
    PixelAt(f, row, i, 2 * c);
    PixelAt(f, row, i, 2 * c + 1);
    Doubled(i, f.out_n);
    Doubled(i, f.img_n);
    if c < f.img_n {
      SampleInRow(f.img_n, x, i, c);
    }
  }

  lemma Doubled(i: nat, n: nat)
    ensures i * (n * 2) == 2 * (i * n)
  {
  }

  function BigEndian(row: seq<byte>, t: nat): int
    requires t + 1 < |row|
  {
    var high: int, low: int := row[t], row[t + 1];
    256 * high + low
  }

  /** What sample number n of an image row must be: sample t of the unfiltered row, or alpha. */
  ghost predicate Shown(f: Format, px: seq<byte>, row: seq<byte>, n: nat, t: nat, alpha: bool) {
    if f.depth < 8 then
      && n < |px|
      && var s: int, v := px[n], MsbField(row, t * f.depth, f.depth);
      if alpha then s == 255 else if f.color != 0 then s == v else s * (Pow2(f.depth) - 1) == 255 * v
    else if f.depth == 8 then
      n < |px| && if alpha then px[n] == 255 else t < |row| && px[n] == row[t]
    else
      && 2 * n + 1 < |px|
      && var low: int, high: int := px[2 * n], px[2 * n + 1];
      if alpha then low + 256 * high == 65535 else 2 * t + 1 < |row| && low + 256 * high == BigEndian(row, 2 * t)
  }

  lemma RowShown(f: Format, row: seq<byte>, x: nat, i: nat, c: nat)
    requires f.Valid() && |row| == (x * f.img_n * f.depth + 7) / 8 && i < x && c < f.out_n
    ensures Shown(f, RowPixels(f, row, x), row, i * f.out_n + c, i * f.img_n + c, c >= f.img_n)
  {
    hide PixelByte, MsbField, Pow2;
    SampleInRow(f.out_n, x, i, c);
    WholeBytes(x * f.img_n);
    if f.depth < 8 {
      PackedPixel(f, row, x, i, c, i * f.img_n + c);
    } else if f.depth == 8 {
      BytePixel(f, row, x, i, c);
    } else {
      WordPixel(f, row, x, i, c, i * f.out_n + c, i * f.img_n + c);
    }
  }

  lemma WholeBytes(n: nat)
    ensures (n * 8 + 7) / 8 == n && (n * 16 + 7) / 8 == 2 * n
  {
  }

  /**
   * Every sample of the image that `Png.CreateRaw` produces, with the width of a row and the distance to the
   * left neighbour as the header's numbers give them.
   */
  lemma ImageShown(f: Format, raw: seq<byte>, x: nat, y: nat, width: nat, bpp: nat, i: nat, j: nat, c: nat)
    requires f.Valid() && width == (x * f.img_n * f.depth + 7) / 8 && bpp == (if f.depth < 8 then 1 else f.img_n * (f.depth / 8))
    requires Enough(raw, width, y) && i < x && j < y && c < f.out_n
    ensures f.RowBytes(x) == width
    ensures var px, row := Decoded(f, raw, x, y)[j], UnfilterImage(raw, bpp, width, y)[j];
            && |px| == x * f.out_n * (if f.depth == 16 then 2 else 1)
            && Shown(f, px, row, i * f.out_n + c, i * f.img_n + c, c >= f.img_n)
  {
    hide Shown, UnfilterImage, RowPixels, Enough, Format.RowBytes;
    RowBytesAre(f, x);
    RowShown(f, UnfilterImage(raw, bpp, width, y)[j], x, i, c);
  }
}
