/** From inflated PNG data to pixels: one image or one interlace pass. */
module Png {
  import opened Arith
  import opened Bits
  import opened PngSpec
  import opened PngRow
  import opened PngUnpack

  const INT_MAX := 0x7fff_ffff

  function Mul2SizesValid(a: int, b: int): bool {
    if a < 0 || b < 0 then false else if b == 0 then true else a <= INT_MAX / b
  }

  function AddSizesValid(a: int, b: int): bool {
    if b < 0 then false else a <= INT_MAX - b
  }

  function Mad3SizesValid(a: int, b: int, c: int, add: int): bool {
    Mul2SizesValid(a, b) && Mul2SizesValid(a * b, c) && AddSizesValid(a * b * c, add)
  }

  lemma Mul2Exact(a: nat, b: nat)
    ensures Mul2SizesValid(a, b) <==> a * b <= INT_MAX
  {
    if b > 0 {
      var q := INT_MAX / b;
      if a <= q {
        MulLe(a, q, b);
      } else {
        MulLe(q + 1, a, b);
      }
    }
  }

  /** The overflow guard is exact, and never multiplies past INT_MAX itself. */
  lemma Mad3Exact(a: nat, b: nat, c: nat, add: nat)
    requires c > 0
    ensures Mad3SizesValid(a, b, c, add) <==> a * b * c + add <= INT_MAX
  {
    hide Mul2SizesValid;
    Mul2Exact(a, b);
    Mul2Exact(a * b, c);
    MulLe(1, c, a * b);
  }

  datatype Format = Format(img_n: nat, out_n: nat, depth: nat, color: nat) {
    /** What the header parser lets through. */
    predicate Valid() {
      && 1 <= img_n <= 4 && (out_n == img_n || out_n == img_n + 1)
      && (Packed(depth) || depth == 8 || depth == 16)
      && (depth < 8 && out_n != img_n ==> img_n == 1 || img_n == 3)
    }

    function Bytes(): nat {
      if depth == 16 then 2 else 1
    }

    function OutBytes(): nat {
      out_n * Bytes()
    }

    /** Distance in bytes to the left neighbour a filter uses (section 6.1 of RFC 2083). */
    function Bpp(): nat {
      if depth < 8 then 1 else img_n * Bytes()
    }

    function RowBits(x: nat): nat {
      img_n * x * depth
    }

    function RowBytes(x: nat): nat {
      (RowBits(x) + 7) / 8
    }

    function ImageBytes(x: nat, y: nat): nat {
      x * y * OutBytes()
    }

    function Stride(x: nat): nat {
      x * out_n * Bytes()
    }

    /** Packed rows wait at the right end of their output row. */
    function Placement(x: nat): Layout
      requires depth < 8 ==> RowBytes(x) <= x * out_n
    {
      if depth < 8 then Layout(RowBytes(x), 1, 1, x * out_n - RowBytes(x), Stride(x))
      else Layout(x, img_n * Bytes(), OutBytes(), 0, Stride(x))
    }

    /** Greyscale samples are stretched to a byte; palette indices are not. */
    function Scale(): byte {
      if color != 0 then 1 else if depth == 1 then 0xff else if depth == 2 then 0x55 else if depth == 4 then 0x11 else 1
    }
  }

  /** The stretch is exact: the largest sample becomes 255, the rest in proportion. */
  lemma GreyScale(f: Format, v: nat)
    requires f.Valid() && Packed(f.depth) && f.color == 0 && v < Pow2(f.depth)
    ensures Scaled(f.Scale(), v) * (Pow2(f.depth) - 1) == v * 255
  {
    Pow2Values();
  }

  lemma PlacementValid(f: Format, x: nat)
    requires f.Valid() && 0 < x && (f.depth < 8 ==> f.RowBytes(x) <= x)
    ensures f.depth < 8 ==> f.RowBytes(x) <= x * f.out_n
    ensures var l := f.Placement(x);
            l.Valid() && l.ob <= l.fb + 2 && l.fb == f.Bpp() && l.RowBytes() == f.RowBytes(x) && l.stride == f.Stride(x)
  {
    hide Format.RowBytes, Format.Stride;
    MulLe(1, f.out_n, x);
    if f.depth < 8 {
      PackedWidth(f, x);
    } else {
      WideWidth(f, x);
      ChannelsFit(f);
    }
  }

  lemma PackedWidth(f: Format, x: nat)
    requires f.Valid() && 0 < x && f.depth < 8
    ensures 0 < f.RowBytes(x) && f.Stride(x) == x * f.out_n
  {
    MulLe(1, f.img_n, x);
    MulLe(1, f.img_n * x, f.depth);
  }

  lemma WideWidth(f: Format, x: nat)
    requires f.Valid() && f.depth >= 8
    ensures f.RowBytes(x) == x * (f.img_n * f.Bytes()) && f.Stride(x) == x * f.OutBytes()
  {
    var n := f.img_n * x;
    if f.depth == 8 {
      assert n * 8 == 8 * n;
    } else {
      assert n * 16 == 8 * (n * 2);
      assert x * (f.img_n * 2) == n * 2;
      assert x * (f.out_n * 2) == x * f.out_n * 2;
    }
  }

  /** Where row j of the buffer begins. */
  function RowStart(stride: nat, j: nat): nat {
    j * stride
  }

  lemma RowStartStep(stride: nat, j: nat, n: nat)
    requires j < n
    ensures RowStart(stride, j + 1) == RowStart(stride, j) + stride <= RowStart(stride, n)
  {
    MulLe(j + 1, n, stride);
  }

  ghost function RowBase(l: Layout, j: nat): nat {
    RowStart(l.stride, j) + l.off
  }

  // ----- undoing the filters

  /** The first n rows are decoded into the buffer. */
  ghost predicate RowsHeld(s: seq<byte>, l: Layout, rows: seq<seq<byte>>, n: nat) {
    n <= |rows| && forall j :: 0 <= j < n ==> Held(s, l, RowBase(l, j), rows[j])
  }

  lemma HeldKept(s: seq<byte>, s': seq<byte>, l: Layout, base: int, row: seq<byte>, lo: int, hi: int)
    requires Held(s, l, base, row) && l.Valid()
    requires base + l.width * l.ob <= lo || hi <= base
    requires SameOutside(s, s', lo, hi)
    ensures Held(s', l, base, row)
  {
    hide Filled, AlphaPlace;
    FilledKept(s, s', l, base, row, l.RowBytes(), lo, hi);
    forall c: nat | l.fb + c < l.ob
      ensures Opaque(s', l, base, c, l.width)
    {
      assert Opaque(s, l, base, c, l.width);
      forall i | 0 <= i < l.width
        ensures 0 <= AlphaPlace(l, base, c, i) < |s'| && s'[AlphaPlace(l, base, c, i)] == 255
      {
        AlphaBound(l, base, c, i);
      }
    }
  }

  lemma RowsKept(s: seq<byte>, s': seq<byte>, l: Layout, rows: seq<seq<byte>>, n: nat)
    requires RowsHeld(s, l, rows, n) && l.Valid()
    requires SameOutside(s, s', RowStart(l.stride, n), |s|)
    ensures RowsHeld(s', l, rows, n)
  {
    hide Held, RowStart;
    forall j | 0 <= j < n
      ensures Held(s', l, RowBase(l, j), rows[j])
    {
      RowStartStep(l.stride, j, n);
      HeldKept(s, s', l, RowBase(l, j), rows[j], RowStart(l.stride, n), |s|);
    }
  }

  ghost predicate FiltersValid(raw: seq<byte>, width: nat, n: nat) {
    forall j :: 0 <= j < n ==> Start(width, j) < |raw| && FilterByte(raw, width, j) <= 4
  }

  /** The row to decode next has its predecessor in the buffer. */
  lemma NextJob(raw: seq<byte>, out: seq<byte>, l: Layout, j: nat, y: nat, filter: nat) returns (job: Job)
    requires l.Valid() && j < y && Enough(raw, l.RowBytes(), j + 1) && Enough(raw, l.RowBytes(), j)
    requires RowStart(l.stride, y) <= |out|
    requires RowsHeld(out, l, UnfilterImage(raw, l.fb, l.RowBytes(), j), j)
    requires Start(l.RowBytes(), j) < |raw| && filter == FilterByte(raw, l.RowBytes(), j) <= 4
    ensures job.Ready(l, out, RowBase(l, j))
    ensures UnfilterImage(raw, l.fb, l.RowBytes(), j + 1) == UnfilterImage(raw, l.fb, l.RowBytes(), j) + [job.Row(l)]
    ensures job.Switch() == if j == 0 then FirstRowFilter(filter) else filter
    ensures Start(l.RowBytes(), j) + 1 + |job.enc| <= |raw|
    ensures job.enc == raw[Start(l.RowBytes(), j) + 1..Start(l.RowBytes(), j) + 1 + |job.enc|]
  {
    hide Held, RowStart, Start, UnfilterRow, FirstRowFilter;
    var w := l.RowBytes();
    MulLe(1, l.width, l.fb);
    StartStep(w, j);
    var rows := UnfilterImage(raw, l.fb, w, j);
    job := Job(filter, Above(rows), Encoded(raw, w, j));
    RowStartStep(l.stride, j, y);
    if j > 0 {
      RowStartStep(l.stride, j - 1, y);
      HeldFilled(out, l, RowBase(l, j - 1), rows[j - 1]);
    }
  }

  lemma HeldFilled(s: seq<byte>, l: Layout, base: int, row: seq<byte>)
    requires Held(s, l, base, row)
    ensures |row| == l.RowBytes() && Filled(s, l, base, row, l.RowBytes())
  {
  }

  /** The main loop; it fails on the first filter byte above 4. */
  method UnfilterRows(raw: seq<byte>, out: array<byte>, l: Layout, y: nat) returns (ok: bool)
    requires l.Valid() && l.ob <= l.fb + 2 && Enough(raw, l.RowBytes(), y) && RowStart(l.stride, y) <= out.Length
    modifies out
    ensures ok <==> FiltersValid(raw, l.RowBytes(), y)
    ensures ok ==> RowsHeld(out[..], l, UnfilterImage(raw, l.fb, l.RowBytes(), y), y)
  {
    hide Held, RowStart, Start, UnfilterRow, UnfilterImage, FirstRowFilter;
    ghost var w := l.RowBytes();
    var width := l.width * l.fb;
    var j, r := 0, 0;
    ghost var rows := [];
    StartZero(w, y);
    assert rows == UnfilterImage(raw, l.fb, w, 0) by { NoRows(raw, l.fb, w); }
    while j < y
      invariant 0 <= j <= y && r == Start(w, j) && Enough(raw, w, j)
      invariant FiltersValid(raw, w, j)
      invariant rows == UnfilterImage(raw, l.fb, w, j) && RowsHeld(out[..], l, rows, j)
    {
      StartStep(w, j);
      StartMonotone(w, j + 1, y);
      var filter := raw[r];
      r := r + 1;
      if filter > 4 {
        return false;
      }
      ghost var job := NextJob(raw, out[..], l, j, y, filter);
      RowStartStep(l.stride, j, y);
      if j == 0 {
        filter := FirstRowFilter(filter);
      }
      ghost var before := out[..];
      var cur := CurrentRow(l, j);
      DecodeRow(raw, r, out, l, cur, filter, job);
      RowsKept(before, out[..], l, rows, j);
      rows := rows + [job.Row(l)];
      r := r + width;
      j := j + 1;
    }
    ok := true;
  }

  lemma StartZero(w: nat, y: nat)
    ensures Start(w, 0) == 0 <= Start(w, y)
  {
  }

  lemma NoRows(raw: seq<byte>, bpp: nat, w: nat)
    requires Enough(raw, w, 0)
    ensures UnfilterImage(raw, bpp, w, 0) == []
  {
  }

  method CurrentRow(l: Layout, j: nat) returns (cur: nat)
    ensures cur == RowBase(l, j)
  {
    cur := j * l.stride + l.off;
  }

  // ----- pixels

  function SampleAt(row: seq<byte>, depth: nat, scale: byte, t: nat): byte
    requires Packed(depth)
  {
    if t / PerByte(depth) < |row| then Spread(row, depth, scale, t) else 0
  }

  /** The two bytes of a 16-bit sample change places: PNG is big-endian, the host little-endian. */
  function Swapped(d: nat): nat {
    if d % 2 == 0 then d + 1 else d - 1
  }

  /** Byte b of the output row that a decoded row stands for. */
  function PixelByte(f: Format, row: seq<byte>, b: nat): byte
    requires f.Valid()
  {
    var i, d := b / f.OutBytes(), b % f.OutBytes();
    if d >= f.img_n * f.Bytes() then 255
    else if f.depth < 8 then SampleAt(row, f.depth, f.Scale(), i * f.img_n + d)
    else if f.depth == 8 then At(row, i * f.img_n + d)
    else At(row, i * (f.img_n * 2) + Swapped(d))
  }

  function RowPixels(f: Format, row: seq<byte>, x: nat): (r: seq<byte>)
    requires f.Valid()
    ensures |r| == f.Stride(x)
  {
    seq(f.Stride(x), b requires 0 <= b => PixelByte(f, row, b))
  }

  function Pixels(f: Format, rows: seq<seq<byte>>, x: nat): (r: seq<seq<byte>>)
    requires f.Valid()
    ensures |r| == |rows|
  {
    seq(|rows|, j requires 0 <= j < |rows| => RowPixels(f, rows[j], x))
  }

  ghost predicate Shows(s: seq<byte>, start: int, px: seq<byte>) {
    0 <= start && start + |px| <= |s| && s[start..start + |px|] == px
  }

  /** The first n rows of the buffer are the given ones. */
  ghost predicate ShowsAll(s: seq<byte>, stride: nat, rows: seq<seq<byte>>, n: nat) {
    n <= |rows| && forall j :: 0 <= j < n ==> |rows[j]| == stride && Shows(s, RowStart(stride, j), rows[j])
  }

  /** The buffer read by position is the row read by index. */
  lemma ShowsBytes(s: seq<byte>, f: Format, x: nat, start: nat, row: seq<byte>)
    requires f.Valid() && start + f.Stride(x) <= |s|
    requires forall p :: start <= p < start + f.Stride(x) ==> s[p] == PixelByte(f, row, p - start)
    ensures Shows(s, start, RowPixels(f, row, x))
  {
    hide PixelByte, Format.Stride;
    var px := RowPixels(f, row, x);
    var got := s[start..start + |px|];
    forall b | 0 <= b < |px|
      ensures got[b] == px[b]
    {
      assert got[b] == s[start + b];
    }
  }

  // ----- packed samples

  lemma PlainPixel(f: Format, row: seq<byte>, b: nat)
    requires f.Valid() && f.depth < 8 && f.img_n == f.out_n
    ensures PixelByte(f, row, b) == SampleAt(row, f.depth, f.Scale(), b)
  {
    hide SampleAt;
    if f.out_n == 1 {} else if f.out_n == 2 {} else if f.out_n == 3 {} else {}
  }

  /** Spreads the samples of one row whose packed bytes are at its right end. */
  method SpreadRow(out: array<byte>, f: Format, start: nat, width: nat, n: nat, ghost row: seq<byte>)
    requires f.Valid() && f.depth < 8 && |row| == PackedBytes(n, f.depth) && |row| <= width && n <= width
    requires start + width <= out.Length
    requires forall p :: start + width - |row| <= p < start + width ==> out[p] == row[p - (start + width - |row|)]
    modifies out
    ensures forall p :: start <= p < start + n ==> out[p] == SampleAt(row, f.depth, f.Scale(), p - start)
    ensures forall p :: 0 <= p < out.Length && !(start <= p < start + n) ==> out[p] == old(out[p])
  {
    hide Spread;
    var off := width - PackedBytes(n, f.depth);
    hide PackedBytes;
    UnpackRow(out, start, off, row, f.depth, f.Scale(), n);
  }

  /** Interleaves alpha with the samples of one row. */
  method AddAlpha(out: array<byte>, f: Format, x: nat, start: nat, ghost row: seq<byte>)
    requires f.Valid() && f.depth < 8 && f.out_n == f.img_n + 1 && start + x * f.out_n <= out.Length
    requires forall p :: start <= p < start + x * f.img_n ==> 0 <= p < out.Length && out[p] == SampleAt(row, f.depth, f.Scale(), p - start)
    modifies out
    ensures forall p :: start <= p < start + x * f.out_n ==> out[p] == PixelByte(f, row, p - start)
    ensures forall p :: 0 <= p < out.Length && !(start <= p < start + x * f.out_n) ==> out[p] == old(out[p])
  {
    hide PixelByte, SampleAt, Format.Scale;
    if f.img_n == 1 {
      AddAlpha1(out, f, x, start, row);
    } else {
      AddAlpha3(out, f, x, start, row);
    }
  }

  method AddAlpha1(out: array<byte>, f: Format, x: nat, start: nat, ghost row: seq<byte>)
    requires f.Valid() && f.depth < 8 && f.img_n == 1 && f.out_n == 2 && start + 2 * x <= out.Length
    requires forall p :: start <= p < start + x ==> out[p] == SampleAt(row, f.depth, f.Scale(), p - start)
    modifies out
    ensures forall p :: start <= p < start + 2 * x ==> out[p] == PixelByte(f, row, p - start)
    ensures forall p :: 0 <= p < out.Length && !(start <= p < start + 2 * x) ==> out[p] == old(out[p])
  {
    hide PixelByte, SampleAt, Widened1, Format.Scale;
    ghost var s := Samples(row, f.depth, f.Scale(), x);
    InsertAlpha1(out, start, x, s);
    hide Samples;
    forall p | start <= p < start + 2 * x
      ensures out[p] == PixelByte(f, row, p - start)
    {
      AlphaPixel1(f, row, s, p - start);
    }
  }

  method AddAlpha3(out: array<byte>, f: Format, x: nat, start: nat, ghost row: seq<byte>)
    requires f.Valid() && f.depth < 8 && f.img_n == 3 && f.out_n == 4 && start + 4 * x <= out.Length
    requires forall p :: start <= p < start + 3 * x ==> out[p] == SampleAt(row, f.depth, f.Scale(), p - start)
    modifies out
    ensures forall p :: start <= p < start + 4 * x ==> out[p] == PixelByte(f, row, p - start)
    ensures forall p :: 0 <= p < out.Length && !(start <= p < start + 4 * x) ==> out[p] == old(out[p])
  {
    hide PixelByte, SampleAt, Widened3, Format.Scale;
    ghost var s := Samples(row, f.depth, f.Scale(), 3 * x);
    InsertAlpha3(out, start, x, s);
    hide Samples;
    forall p | start <= p < start + 4 * x
      ensures out[p] == PixelByte(f, row, p - start)
    {
      AlphaPixel3(f, row, s, p - start);
    }
  }

  /** Expands one packed row to output pixels. */
  method ExpandRow(out: array<byte>, f: Format, x: nat, start: nat, ghost row: seq<byte>)
    requires f.Valid() && f.depth < 8 && f.RowBytes(x) <= x && |row| == f.RowBytes(x)
    requires start + x * f.out_n <= out.Length && |row| <= x * f.out_n
    requires forall p :: start + x * f.out_n - |row| <= p < start + x * f.out_n ==>
                           out[p] == row[p - (start + x * f.out_n - |row|)]
    modifies out
    ensures forall p :: start <= p < start + x * f.out_n ==> out[p] == PixelByte(f, row, p - start)
    ensures forall p :: 0 <= p < out.Length && !(start <= p < start + x * f.out_n) ==> out[p] == old(out[p])
  {
    hide PixelByte, SampleAt, PackedBytes;
    var n, width := x * f.img_n, x * f.out_n;
    MulLe(f.img_n, f.out_n, x);
    assert f.RowBytes(x) == PackedBytes(n, f.depth) by { SameWidth(f, x); }
    SpreadRow(out, f, start, width, n, row);
    if f.img_n == f.out_n {
      forall p | start <= p < start + n
        ensures out[p] == PixelByte(f, row, p - start)
      {
        PlainPixel(f, row, p - start);
      }
    } else {
      AddAlpha(out, f, x, start, row);
    }
  }

  lemma SameWidth(f: Format, x: nat)
    ensures f.RowBytes(x) == PackedBytes(x * f.img_n, f.depth)
  {
    assert f.img_n * x == x * f.img_n;
  }

  ghost function Samples(row: seq<byte>, depth: nat, scale: byte, n: nat): seq<byte>
    requires Packed(depth)
  {
    seq(n, t requires 0 <= t => SampleAt(row, depth, scale, t))
  }

  lemma AlphaPixel1(f: Format, row: seq<byte>, s: seq<byte>, b: nat)
    requires f.Valid() && f.depth < 8 && f.img_n == 1 && f.out_n == 2 && b / 2 < |s|
    requires s == Samples(row, f.depth, f.Scale(), |s|)
    ensures Widened1(s, b) == PixelByte(f, row, b)
  {
    hide SampleAt;
  }

  lemma AlphaPixel3(f: Format, row: seq<byte>, s: seq<byte>, b: nat)
    requires f.Valid() && f.depth < 8 && f.img_n == 3 && f.out_n == 4 && b / 4 * 3 + 2 < |s|
    requires s == Samples(row, f.depth, f.Scale(), |s|)
    ensures Widened3(s, b) == PixelByte(f, row, b)
  {
    hide SampleAt;
  }

  lemma HeldPacked(s: seq<byte>, l: Layout, base: int, row: seq<byte>)
    requires Held(s, l, base, row) && l.Valid() && l.fb == l.ob == 1 && 0 <= base && base + |row| <= |s|
    ensures forall p :: base <= p < base + |row| ==> s[p] == row[p - base]
  {
    hide Slot;
    forall p | base <= p < base + |row|
      ensures s[p] == row[p - base]
    {
      SlotPlain(l, base, p - base);
      assert s[Slot(l, base, p - base)] == row[p - base];
    }
  }

  lemma ShowsKept(s: seq<byte>, s': seq<byte>, stride: nat, rows: seq<seq<byte>>, n: nat)
    requires ShowsAll(s, stride, rows, n) && SameOutside(s, s', RowStart(stride, n), |s|)
    ensures ShowsAll(s', stride, rows, n)
  {
    hide RowStart;
    forall j | 0 <= j < n
      ensures Shows(s', RowStart(stride, j), rows[j])
    {
      RowStartStep(stride, j, n);
      var start := RowStart(stride, j);
      assert Shows(s, start, rows[j]);
      assert s'[start..start + stride] == s[start..start + stride];
    }
  }

  /** The rows not yet expanded. */
  ghost predicate RestHeld(s: seq<byte>, l: Layout, rows: seq<seq<byte>>, n: nat) {
    forall j :: n <= j < |rows| ==> Held(s, l, RowBase(l, j), rows[j])
  }

  lemma RestKept(s: seq<byte>, s': seq<byte>, l: Layout, rows: seq<seq<byte>>, n: nat)
    requires RestHeld(s, l, rows, n) && l.Valid()
    requires SameOutside(s, s', 0, RowStart(l.stride, n + 1))
    ensures RestHeld(s', l, rows, n + 1)
  {
    hide Held, RowStart;
    forall j | n + 1 <= j < |rows|
      ensures Held(s', l, RowBase(l, j), rows[j])
    {
      RowStartStep(l.stride, n, j);
      HeldKept(s, s', l, RowBase(l, j), rows[j], 0, RowStart(l.stride, n + 1));
    }
  }

  /** The second pass, over rows of less than 8 bits a sample. */
  method ExpandRows(out: array<byte>, f: Format, x: nat, y: nat, ghost l: Layout, ghost rows: seq<seq<byte>>)
    requires f.Valid() && f.depth < 8 && f.RowBytes(x) <= x && |rows| == y
    requires l.Valid() && l.stride == f.Stride(x) == x * f.out_n && l.RowBytes() == f.RowBytes(x)
    requires l.fb == l.ob == 1 && l.off == l.stride - l.RowBytes()
    requires RowsHeld(out[..], l, rows, y) && RowStart(l.stride, y) <= out.Length
    modifies out
    ensures ShowsAll(out[..], l.stride, Pixels(f, rows, x), y)
  {
    hide Held, RowStart, PixelByte, Shows, Format.RowBytes, Format.Stride, RowPixels;
    ghost var px := Pixels(f, rows, x);
    var j, stride := 0, x * f.out_n;
    while j < y
      invariant 0 <= j <= y
      invariant ShowsAll(out[..], stride, px, j) && RestHeld(out[..], l, rows, j)
    {
      RowStartStep(stride, j, y);
      ghost var before := out[..];
      ExpandAt(out, f, x, RowStart(stride, j), l, RowBase(l, j), rows[j]);
      ShowsKept(before, out[..], stride, px, j);
      RestKept(before, out[..], l, rows, j);
      j := j + 1;
    }
  }

  method ExpandAt(out: array<byte>, f: Format, x: nat, start: nat, ghost l: Layout, ghost base: nat, ghost row: seq<byte>)
    requires f.Valid() && f.depth < 8 && f.RowBytes(x) <= x
    requires l.Valid() && l.stride == f.Stride(x) == x * f.out_n && l.RowBytes() == f.RowBytes(x)
    requires l.fb == l.ob == 1 && base == start + l.stride - l.RowBytes() && start + l.stride <= out.Length
    requires Held(out[..], l, base, row)
    modifies out
    ensures Shows(out[..], start, RowPixels(f, row, x))
    ensures SameOutside(old(out[..]), out[..], start, start + l.stride)
  {
    hide Held, PixelByte, Format.RowBytes, Format.Stride, RowPixels, Shows, Layout.Valid, Layout.RowBytes, Filled;
    HeldFilled(out[..], l, base, row);
    HeldPacked(out[..], l, base, row);
    ExpandRow(out, f, x, start, row);
    ShowsBytes(out[..], f, x, start, row);
  }

  // ----- samples of 8 and 16 bits

  lemma PixelIndex(l: Layout, base: int, b: nat)
    requires l.Valid() && b < l.width * l.ob
    ensures 0 <= b / l.ob < l.width && Place(l, base, b / l.ob, b % l.ob) == base + b
  {
    var i := b / l.ob;
    assert b == i * l.ob + b % l.ob;
    if i >= l.width {
      MulLe(l.width, i, l.ob);
    }
  }

  /** A decoded row read by byte index. */
  lemma HeldByte(s: seq<byte>, l: Layout, base: int, row: seq<byte>, b: nat)
    requires Held(s, l, base, row) && l.Valid() && b < l.width * l.ob
    ensures 0 <= base + b < |s|
    ensures var i, d := b / l.ob, b % l.ob;
            if d < l.fb then i * l.fb + d < |row| && s[base + b] == row[i * l.fb + d] else s[base + b] == 255
  {
    hide Slot, Place, Held;
    PixelIndex(l, base, b);
    HeldPixel(s, l, base, row, b / l.ob, b % l.ob);
  }

  lemma HeldPixel(s: seq<byte>, l: Layout, base: int, row: seq<byte>, i: nat, d: nat)
    requires Held(s, l, base, row) && l.Valid() && i < l.width && d < l.ob
    ensures 0 <= Place(l, base, i, d) < |s|
    ensures d < l.fb ==> i * l.fb + d < |row| && s[Place(l, base, i, d)] == row[i * l.fb + d]
    ensures l.fb <= d ==> s[Place(l, base, i, d)] == 255
  {
    hide Slot, Place;
    if d < l.fb {
      MulLe(i + 1, l.width, l.fb);
      SlotIsPlace(l, base, i, d);
      assert s[Slot(l, base, i * l.fb + d)] == row[i * l.fb + d];
    } else {
      assert Opaque(s, l, base, d - l.fb, l.width);
      assert AlphaPlace(l, base, d - l.fb, i) == Place(l, base, i, d);
    }
  }

  lemma Shows8(s: seq<byte>, f: Format, x: nat, start: nat, l: Layout, row: seq<byte>)
    requires f.Valid() && f.depth == 8 && l.Valid() && l.fb == f.img_n && l.ob == f.out_n && l.width * l.ob == f.Stride(x)
    requires Held(s, l, start, row) && start + f.Stride(x) <= |s|
    ensures Shows(s, start, RowPixels(f, row, x))
  {
    hide Held, Format.Stride, RowPixels, Shows;
    forall p | start <= p < start + f.Stride(x)
      ensures s[p] == PixelByte(f, row, p - start)
    {
      HeldByte(s, l, start, row, p - start);
    }
    ShowsBytes(s, f, x, start, row);
  }

  /** Turns big-endian samples into little-endian ones. */
  method Swap16(out: array<byte>, n: nat)
    requires 2 * n == out.Length
    modifies out
    ensures forall p :: 0 <= p < out.Length ==> Swapped(p) < out.Length && out[p] == old(out[Swapped(p)])
  {
    hide Swapped;
    var i, cur := 0, 0;
    while i < n
      invariant 0 <= i <= n && cur == 2 * i
      invariant forall p :: 0 <= p < cur ==> Swapped(p) < out.Length && out[p] == old(out[Swapped(p)])
      invariant forall p :: cur <= p < out.Length ==> out[p] == old(out[p])
    {
      out[cur], out[cur + 1] := out[cur + 1], out[cur];
      SwappedPair(i);
      i, cur := i + 1, cur + 2;
    }
  }

  lemma SwappedPair(e: nat)
    ensures Swapped(2 * e) == 2 * e + 1 && Swapped(2 * e + 1) == 2 * e
  {
  }

  lemma SwappedShift(e: nat, r: nat, half: nat)
    ensures Swapped(2 * e + r) == 2 * e + Swapped(r)
    ensures r < 2 * half ==> Swapped(r) < 2 * half
  {
  }

  /** Swapping within a row of pixels stays within a pixel. */
  lemma SwappedPixel(b: nat, m: nat, half: nat)
    requires 0 < m == 2 * half
    ensures Swapped(b) / m == b / m && Swapped(b) % m == Swapped(b % m) < m
  {
    hide Swapped;
    var q, r := b / m, b % m;
    assert b == m * q + r;
    EvenMultiple(q, m, half);
    SwappedShift(q * half, r, half);
    DivModUnique(Swapped(b), m, q, Swapped(r));
  }

  lemma EvenMultiple(q: nat, m: nat, half: nat)
    requires m == 2 * half
    ensures m * q == q * m == 2 * (q * half)
  {
  }

  lemma PixelByte16(f: Format, row: seq<byte>, b: nat)
    requires f.Valid() && f.depth == 16
    ensures f.OutBytes() > 0
    ensures var i, d := Swapped(b) / f.OutBytes(), Swapped(b) % f.OutBytes();
            PixelByte(f, row, b) == if d < f.img_n * 2 then At(row, i * (f.img_n * 2) + d) else 255
  {
    SwappedPixel(b, f.OutBytes(), f.out_n);
  }

  lemma Shows16(s: seq<byte>, s': seq<byte>, f: Format, x: nat, start: nat, l: Layout, row: seq<byte>, e: nat)
    requires f.Valid() && f.depth == 16 && l.Valid() && l.fb == f.img_n * 2 && l.ob == f.out_n * 2
    requires l.width * l.ob == f.Stride(x) == 2 * (x * f.out_n) && start == 2 * e
    requires Held(s, l, start, row) && start + f.Stride(x) <= |s| && |s'| == |s|
    requires forall p :: 0 <= p < |s| ==> Swapped(p) < |s| && s'[p] == s[Swapped(p)]
    ensures Shows(s', start, RowPixels(f, row, x))
  {
    hide Held, PixelByte, RowPixels, Shows, Format.Stride, Swapped;
    forall p | start <= p < start + f.Stride(x)
      ensures s'[p] == PixelByte(f, row, p - start)
    {
      var b := p - start;
      SwappedShift(e, b, x * f.out_n);
      PixelByte16(f, row, b);
      HeldByte(s, l, start, row, Swapped(b));
    }
    ShowsBytes(s', f, x, start, row);
  }

  // ----- the whole of stbi__create_png_image_raw

  /** Exactly the inputs that produce an image. */
  ghost predicate Accepts(f: Format, raw: seq<byte>, x: nat, y: nat) {
    && f.ImageBytes(x, y) <= INT_MAX && f.RowBits(x) + 7 <= INT_MAX
    && Enough(raw, f.RowBytes(x), y) && (f.depth < 8 ==> f.RowBytes(x) <= x)
    && FiltersValid(raw, f.RowBytes(x), y)
  }

  /** The image those inputs stand for, row by row. */
  ghost function Decoded(f: Format, raw: seq<byte>, x: nat, y: nat): (r: seq<seq<byte>>)
    requires f.Valid() && Enough(raw, f.RowBytes(x), y)
    ensures |r| == y && forall j :: 0 <= j < y ==> |r[j]| == f.Stride(x)
  {
    hide Format.RowBytes, Enough;
    Pixels(f, UnfilterImage(raw, f.Bpp(), f.RowBytes(x), y), x)
  }

  lemma BufferSize(f: Format, x: nat, y: nat)
    ensures RowStart(f.Stride(x), y) == f.ImageBytes(x, y)
  {
    assert y * (x * f.out_n * f.Bytes()) == x * y * (f.out_n * f.Bytes()) by {
      var a, b, c := y, x, f.out_n * f.Bytes();
      assert x * f.out_n * f.Bytes() == b * c;
      assert a * (b * c) == b * a * c;
    }
  }

  /** The 32-bit length of the filtered data never wraps. */
  lemma LengthFits(f: Format, x: nat, y: nat)
    requires f.Valid() && 0 < x && f.ImageBytes(x, y) <= INT_MAX && (f.depth < 8 ==> f.RowBytes(x) <= x)
    ensures Start(f.RowBytes(x), y) < 0x1_0000_0000
  {
    hide Format.RowBytes, Format.ImageBytes, Format.Stride;
    RowFits(f, x);
    BufferSize(f, x, y);
    RowsFit(f.RowBytes(x), f.Stride(x), y);
  }

  lemma RowFits(f: Format, x: nat)
    requires f.Valid() && 0 < x && (f.depth < 8 ==> f.RowBytes(x) <= x)
    ensures f.RowBytes(x) <= f.Stride(x) && 1 <= f.Stride(x)
  {
    hide Format.RowBytes, Format.Stride;
    MulLe(1, f.out_n, x);
    if f.depth < 8 {
      PackedWidth(f, x);
    } else {
      WideWidth(f, x);
      ChannelsFit(f);
      MulLe(f.img_n * f.Bytes(), f.OutBytes(), x);
      MulLe(1, f.OutBytes(), x);
    }
  }

  lemma ChannelsFit(f: Format)
    requires f.Valid() && f.depth >= 8
    ensures 1 <= f.img_n * f.Bytes() <= f.OutBytes() <= f.img_n * f.Bytes() + 2
  {
  }

  lemma RowsFit(width: nat, stride: nat, y: nat)
    requires width <= stride && 1 <= stride
    ensures Start(width, y) <= 2 * RowStart(stride, y)
  {
    MulLe(width, stride, y);
    MulLe(1, stride, y);
    assert y * (width + 1) == width * y + y;
  }

  /** Rows of 8 and 16 bits a sample, once unfiltered. */
  lemma ShowsWide(s: seq<byte>, s': seq<byte>, f: Format, x: nat, y: nat, l: Layout, rows: seq<seq<byte>>)
    requires f.Valid() && f.depth >= 8 && l == f.Placement(x) && l.Valid() && |rows| == y
    requires RowsHeld(s, l, rows, y) && RowStart(l.stride, y) <= |s| == |s'|
    requires f.depth == 8 ==> s' == s
    requires f.depth == 16 ==> forall p :: 0 <= p < |s| ==> Swapped(p) < |s| && s'[p] == s[Swapped(p)]
    ensures ShowsAll(s', l.stride, Pixels(f, rows, x), y)
  {
    hide Held, Swapped, RowPixels, Shows, PixelByte;
    WideWidth(f, x);
    forall j | 0 <= j < y
      ensures Shows(s', RowStart(l.stride, j), RowPixels(f, rows[j], x))
    {
      RowStartStep(l.stride, j, y);
      if f.depth == 8 {
        Shows8(s, f, x, RowStart(l.stride, j), l, rows[j]);
      } else {
        EvenStart(f, x, j);
        Shows16(s, s', f, x, RowStart(l.stride, j), l, rows[j], j * (x * f.out_n));
      }
    }
  }

  lemma EvenStart(f: Format, x: nat, j: nat)
    requires f.depth == 16
    ensures f.Stride(x) == 2 * (x * f.out_n) && RowStart(f.Stride(x), j) == 2 * (j * (x * f.out_n))
  {
    var n := x * f.out_n;
    assert j * (2 * n) == 2 * (j * n);
  }

  /** Both passes over a buffer of the right size. */
  method FillImage(f: Format, raw: seq<byte>, out: array<byte>, x: nat, y: nat) returns (ok: bool)
    requires f.Valid() && 0 < x && Enough(raw, f.RowBytes(x), y) && (f.depth < 8 ==> f.RowBytes(x) <= x)
    requires out.Length == f.ImageBytes(x, y)
    modifies out
    ensures ok <==> FiltersValid(raw, f.RowBytes(x), y)
    ensures ok ==> ShowsAll(out[..], f.Stride(x), Decoded(f, raw, x, y), y)
  {
    hide Held, Shows, PixelByte, Swapped, RowPixels, Start, RowStart, UnfilterImage, Format.RowBits, Format.ImageBytes;
    PlacementValid(f, x);
    BufferSize(f, x, y);
    var l := f.Placement(x);
    ok := UnfilterRows(raw, out, l, y);
    if ok {
      ghost var rows := UnfilterImage(raw, l.fb, l.RowBytes(), y);
      ghost var held := out[..];
      if f.depth < 8 {
        PackedWidth(f, x);
        ExpandRows(out, f, x, y, l, rows);
      } else {
        if f.depth == 16 {
          Samples16(f, x, y);
          Swap16(out, x * y * f.out_n);
        }
        ShowsWide(held, out[..], f, x, y, l, rows);
      }
    }
  }

  lemma Samples16(f: Format, x: nat, y: nat)
    requires f.depth == 16
    ensures 2 * (x * y * f.out_n) == f.ImageBytes(x, y)
  {
    var n := x * y;
    assert n * (f.out_n * 2) == 2 * (n * f.out_n);
  }

  /** The buffer holds the image. */
  ghost predicate Produced(s: seq<byte>, f: Format, raw: seq<byte>, x: nat, y: nat)
    requires f.Valid()
  {
    Enough(raw, f.RowBytes(x), y) && ShowsAll(s, f.Stride(x), Decoded(f, raw, x, y), y)
  }

  method CreateRaw(f: Format, raw: seq<byte>, x: nat, y: nat) returns (ok: bool, out: array<byte>)
    requires f.Valid() && 0 < x && 0 < y
    ensures fresh(out) && (ok <==> Accepts(f, raw, x, y))
    ensures ok ==> out.Length == f.ImageBytes(x, y) && Produced(out[..], f, raw, x, y)
  {
    hide Decoded, ShowsAll, Start, Mad3SizesValid, FiltersValid;
    Mad3Exact(x, y, f.OutBytes(), 0);
    Mad3Exact(f.img_n, x, f.depth, 7);
    ok := false;
    if !Mad3SizesValid(x, y, f.OutBytes(), 0) {
      out := new byte[0];
      return;
    }
    out := new byte[f.ImageBytes(x, y)];
    if !Mad3SizesValid(f.img_n, x, f.depth, 7) {
      return;
    }
    var img_width_bytes := f.RowBytes(x);
    var img_len := Start(img_width_bytes, y);
    hide Format.RowBytes, Format.ImageBytes;
    if |raw| < img_len {
      return;
    }
    // the source makes this test inside the row loop, which runs at least once
    if f.depth < 8 && img_width_bytes > x {
      return;
    }
    ok := FillImage(f, raw, out, x, y);
  }
}
