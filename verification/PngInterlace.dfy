/** Adam7: seven reduced images that together hold every pixel once (section 2.6 of RFC 2083). */
module PngInterlace {
  import opened Arith
  import opened Bits
  import opened PngSpec
  import opened Png
  import opened PngRow

  function XOrig(p: nat): nat { if p == 1 then 4 else if p == 3 then 2 else if p == 5 then 1 else 0 }
  function YOrig(p: nat): nat { if p == 2 then 4 else if p == 4 then 2 else if p == 6 then 1 else 0 }
  function XSpc(p: nat): (r: nat)
    ensures r > 0
  {
    if p <= 1 then 8 else if p <= 3 then 4 else if p <= 5 then 2 else 1
  }
  function YSpc(p: nat): (r: nat)
    ensures r > 0
  {
    if p <= 2 then 8 else if p <= 4 then 4 else 2
  }

  /** Columns and rows of a pass. */
  function Across(p: nat, width: nat): nat
    requires p < 7
  {
    (width - XOrig(p) + XSpc(p) - 1) / XSpc(p)
  }

  function Down(p: nat, height: nat): nat
    requires p < 7
  {
    (height - YOrig(p) + YSpc(p) - 1) / YSpc(p)
  }

  // ----- the passes partition the image

  /** Pass pixel (i, j) lands on (u, v). */
  predicate Lands(p: nat, i: nat, j: nat, u: nat, v: nat) {
    u == i * XSpc(p) + XOrig(p) && v == j * YSpc(p) + YOrig(p)
  }

  /** The pass, column and row that supply a pixel. */
  function PassOf(u: nat, v: nat): (p: nat)
    ensures p < 7
  {
    if v % 2 == 1 then 6
    else if u % 2 == 1 then 5
    else if v % 4 == 2 then 4
    else if u % 4 == 2 then 3
    else if v % 8 == 4 then 2
    else if u % 8 == 4 then 1
    else 0
  }

  function ColumnOf(p: nat, u: nat): int {
    (u - XOrig(p)) / XSpc(p)
  }

  function LineOf(p: nat, v: nat): int {
    (v - YOrig(p)) / YSpc(p)
  }

  /** The columns and the rows that a pass visits. */
  predicate OnColumn(p: nat, u: nat) {
    u % XSpc(p) == XOrig(p)
  }

  predicate OnLine(p: nat, v: nat) {
    v % YSpc(p) == YOrig(p)
  }

  lemma Residues(u: nat)
    ensures u % 4 == u % 8 % 4 && u % 2 == u % 8 % 2
  {
    var q, r := u / 8, u % 8;
    DivModUnique(u, 4, 2 * q + r / 4, r % 4);
    DivModUnique(u, 2, 4 * q + r / 2, r % 2);
  }

  lemma PassIsBoth(p: nat, u: nat, v: nat)
    requires p < 7
    ensures PassOf(u, v) == p <==> OnColumn(p, u) && OnLine(p, v)
  {
    Residues(u);
    Residues(v);
  }

  lemma ColumnIs(p: nat, i: int, u: nat)
    requires p < 7
    ensures u == i * XSpc(p) + XOrig(p) <==> OnColumn(p, u) && i == ColumnOf(p, u)
    ensures OnColumn(p, u) ==> 0 <= ColumnOf(p, u)
  {
    var d, o := XSpc(p), XOrig(p);
    assert o < d;
    if u == i * d + o {
      DivModUnique(u, d, i, o);
      DivModUnique(u - o, d, i, 0);
    } else if u % d == o {
      assert u - o == d * (u / d);
      DivModUnique(u - o, d, u / d, 0);
    }
  }

  lemma LineIs(p: nat, j: int, v: nat)
    requires p < 7
    ensures v == j * YSpc(p) + YOrig(p) <==> OnLine(p, v) && j == LineOf(p, v)
    ensures OnLine(p, v) ==> 0 <= LineOf(p, v)
  {
    var d, o := YSpc(p), YOrig(p);
    assert o < d;
    if v == j * d + o {
      DivModUnique(v, d, j, o);
      DivModUnique(v - o, d, j, 0);
    } else if v % d == o {
      assert v - o == d * (v / d);
      DivModUnique(v - o, d, v / d, 0);
    }
  }

  lemma LandsForward(u: nat, v: nat)
    ensures var p := PassOf(u, v);
            0 <= ColumnOf(p, u) && 0 <= LineOf(p, v) && Lands(p, ColumnOf(p, u), LineOf(p, v), u, v)
  {
    hide PassOf, ColumnOf, LineOf, XOrig, YOrig, XSpc, YSpc, OnColumn, OnLine;
    var p := PassOf(u, v);
    PassIsBoth(p, u, v);
    ColumnIs(p, ColumnOf(p, u), u);
    LineIs(p, LineOf(p, v), v);
  }

  lemma LandsBack(p: nat, i: nat, j: nat, u: nat, v: nat)
    requires p < 7 && Lands(p, i, j, u, v)
    ensures PassOf(u, v) == p && ColumnOf(p, u) == i && LineOf(p, v) == j
  {
    hide PassOf, ColumnOf, LineOf, XOrig, YOrig, XSpc, YSpc, OnColumn, OnLine;
    PassIsBoth(p, u, v);
    ColumnIs(p, i, u);
    LineIs(p, j, v);
  }

  lemma InsideAcross(p: nat, i: nat, width: nat)
    requires p < 7 && 0 < width
    ensures i < Across(p, width) <==> i * XSpc(p) + XOrig(p) < width
  {
    if p <= 1 {} else if p <= 3 {} else if p <= 5 {} else {}
  }

  lemma InsideDown(p: nat, j: nat, height: nat)
    requires p < 7 && 0 < height
    ensures j < Down(p, height) <==> j * YSpc(p) + YOrig(p) < height
  {
    if p <= 2 {} else if p <= 4 {} else {}
  }

  /** Every pixel of the image comes from exactly one pixel of exactly one pass. */
  lemma PassesPartition(width: nat, height: nat, u: nat, v: nat)
    requires 0 < width && 0 < height && u < width && v < height
    ensures var p := PassOf(u, v);
            && 0 <= ColumnOf(p, u) < Across(p, width) && 0 <= LineOf(p, v) < Down(p, height)
            && Lands(p, ColumnOf(p, u), LineOf(p, v), u, v)
    ensures forall p: nat, i: nat, j: nat | p < 7 && i < Across(p, width) && j < Down(p, height) && Lands(p, i, j, u, v) ::
              p == PassOf(u, v) && i == ColumnOf(p, u) && j == LineOf(p, v)
  {
    hide PassOf, ColumnOf, LineOf, XOrig, YOrig, Across, Down, XSpc, YSpc;
    LandsForward(u, v);
    var p := PassOf(u, v);
    InsideAcross(p, ColumnOf(p, u), width);
    InsideDown(p, LineOf(p, v), height);
    forall p: nat, i: nat, j: nat | p < 7 && i < Across(p, width) && j < Down(p, height) && Lands(p, i, j, u, v)
      ensures p == PassOf(u, v) && i == ColumnOf(p, u) && j == LineOf(p, v)
    {
      LandsBack(p, i, j, u, v);
    }
  }

  /** No pass pixel falls outside the image. */
  lemma PassesInside(width: nat, height: nat, p: nat, i: nat, j: nat)
    requires 0 < width && 0 < height && p < 7 && i < Across(p, width) && j < Down(p, height)
    ensures i * XSpc(p) + XOrig(p) < width && j * YSpc(p) + YOrig(p) < height
  {
    InsideAcross(p, i, width);
    InsideDown(p, j, height);
  }

  function PassSize(p: nat, width: nat, height: nat): nat
    requires p < 7 && 0 < width && 0 < height
  {
    Across(p, width) * Down(p, height)
  }

  /** Splitting every other column off a pass gives two passes twice as sparse. */
  lemma Halves(n: nat)
    ensures (n + 7) / 8 + (n + 3) / 8 == (n + 3) / 4
    ensures (n + 3) / 4 + (n + 1) / 4 == (n + 1) / 2
    ensures (n + 1) / 2 + n / 2 == n
  {
    Eighths(n);
    Quarters(n);
  }

  lemma Eighths(n: nat)
    ensures (n + 7) / 8 + (n + 3) / 8 == (n + 3) / 4
  {
  }

  lemma Quarters(n: nat)
    ensures (n + 3) / 4 + (n + 1) / 4 == (n + 1) / 2
  {
  }

  lemma PassWidths(n: nat)
    requires 0 < n
    ensures Across(0, n) == (n + 7) / 8 && Across(1, n) == (n + 3) / 8 && Across(2, n) == (n + 3) / 4
    ensures Across(3, n) == (n + 1) / 4 && Across(4, n) == (n + 1) / 2 && Across(5, n) == n / 2 && Across(6, n) == n
    ensures Down(0, n) == (n + 7) / 8 && Down(1, n) == (n + 7) / 8 && Down(2, n) == (n + 3) / 8 && Down(3, n) == (n + 3) / 4
    ensures Down(4, n) == (n + 1) / 4 && Down(5, n) == (n + 1) / 2 && Down(6, n) == n / 2
  {
  }

  lemma Telescope(w8: nat, w8': nat, w4: nat, w4': nat, w2: nat, w2': nat, w: nat, h8: nat, h8': nat, h4: nat, h4': nat, h2: nat, h2': nat, h: nat)
    requires w8 + w8' == w4 && w4 + w4' == w2 && w2 + w2' == w
    requires h8 + h8' == h4 && h4 + h4' == h2 && h2 + h2' == h
    ensures w8 * h8 + w8' * h8 + w4 * h8' + w4' * h4 + w2 * h4' + w2' * h2 + w * h2' == w * h
  {
    assert w8 * h8 + w8' * h8 == w4 * h8;
    assert w4 * h8 + w4 * h8' == w4 * h4;
    assert w4 * h4 + w4' * h4 == w2 * h4;
    assert w2 * h4 + w2 * h4' == w2 * h2;
    assert w2 * h2 + w2' * h2 == w * h2;
    assert w * h2 + w * h2' == w * h;
  }

  /** The sizes of the passes add up to the size of the image. */
  lemma PassSizesSum(w: nat, h: nat)
    requires 0 < w && 0 < h
    ensures PassSize(0, w, h) + PassSize(1, w, h) + PassSize(2, w, h) + PassSize(3, w, h)
            + PassSize(4, w, h) + PassSize(5, w, h) + PassSize(6, w, h) == w * h
  {
    hide Across, Down;
    PassWidths(w);
    PassWidths(h);
    Halves(w);
    Halves(h);
    Telescope(Across(0, w), Across(1, w), Across(2, w), Across(3, w), Across(4, w), Across(5, w), w,
              Down(0, h), Down(2, h), Down(3, h), Down(4, h), Down(5, h), Down(6, h), h);
  }

  // ----- what the de-interlaced image is

  /** Bytes of filtered data that pass p takes; a pass without pixels takes none. */
  function PassLength(f: Format, w: nat, h: nat, p: nat): nat
    requires 0 < w && 0 < h && p < 7
  {
    if Across(p, w) == 0 || Down(p, h) == 0 then 0 else Start(f.RowBytes(Across(p, w)), Down(p, h))
  }

  function PassStart(f: Format, w: nat, h: nat, p: nat): nat
    requires 0 < w && 0 < h && p <= 7
  {
    if p == 0 then 0 else PassStart(f, w, h, p - 1) + PassLength(f, w, h, p - 1)
  }

  ghost predicate PassOk(f: Format, data: seq<byte>, w: nat, h: nat, p: nat)
    requires 0 < w && 0 < h && p < 7
  {
    && PassStart(f, w, h, p) <= |data|
    && (0 < Across(p, w) && 0 < Down(p, h) ==> Accepts(f, data[PassStart(f, w, h, p)..], Across(p, w), Down(p, h)))
  }

  /** The rows of pass p. */
  ghost function PassRows(f: Format, data: seq<byte>, w: nat, h: nat, p: nat): seq<seq<byte>>
    requires f.Valid() && 0 < w && 0 < h && p < 7 && PassOk(f, data, w, h, p)
  {
    if Across(p, w) == 0 || Down(p, h) == 0 then []
    else Decoded(f, data[PassStart(f, w, h, p)..], Across(p, w), Down(p, h))
  }

  /** Pixel i of a row. */
  ghost function Pick(row: seq<byte>, ob: nat, i: int): seq<byte> {
    if 0 <= i && (i + 1) * ob <= |row| then row[i * ob..(i + 1) * ob] else []
  }

  ghost function PickFrom(rows: seq<seq<byte>>, ob: nat, i: int, j: int): seq<byte> {
    if 0 <= j < |rows| then Pick(rows[j], ob, i) else []
  }

  /** Pixel number n, counted along the rows, of the full image. */
  ghost function FullPixel(f: Format, data: seq<byte>, w: nat, h: nat, n: nat): seq<byte>
    requires f.Valid() && 0 < w && 0 < h && PassOk(f, data, w, h, PassOf(n % w, n / w))
  {
    var p := PassOf(n % w, n / w);
    PickFrom(PassRows(f, data, w, h, p), f.OutBytes(), ColumnOf(p, n % w), LineOf(p, n / w))
  }

  /** Pixel n is supplied by a pass before p, or by pass p before its pixel (i, j). */
  predicate Before(w: nat, n: nat, p: nat, i: int, j: int)
    requires 0 < w
  {
    var q := PassOf(n % w, n / w);
    q < p || (q == p && (LineOf(p, n / w) < j || (LineOf(p, n / w) == j && ColumnOf(p, n % w) < i)))
  }

  ghost predicate Delivered(s: seq<byte>, f: Format, data: seq<byte>, w: nat, h: nat, n: nat)
    requires f.Valid() && 0 < w && 0 < h
  {
    && PassOk(f, data, w, h, PassOf(n % w, n / w))
    && Shows(s, RowStart(f.OutBytes(), n), FullPixel(f, data, w, h, n))
    && |FullPixel(f, data, w, h, n)| == f.OutBytes()
  }

  /** Everything supplied before pixel (i, j) of pass p is in the image. */
  ghost predicate Progress(s: seq<byte>, f: Format, data: seq<byte>, w: nat, h: nat, p: nat, i: int, j: int)
    requires f.Valid() && 0 < w && 0 < h
  {
    forall n :: 0 <= n < w * h && Before(w, n, p, i, j) ==> Delivered(s, f, data, w, h, n)
  }

  /** Storing one pixel keeps the others. */
  lemma PixelStored(s: seq<byte>, s': seq<byte>, f: Format, data: seq<byte>, w: nat, h: nat, p: nat, i: nat, j: nat, at: nat)
    requires f.Valid() && 0 < w && 0 < h && p < 7 && PassOk(f, data, w, h, p)
    requires i < Across(p, w) && j < Down(p, h)
    requires at == (j * YSpc(p) + YOrig(p)) * w + (i * XSpc(p) + XOrig(p))
    requires SameOutside(s, s', RowStart(f.OutBytes(), at), RowStart(f.OutBytes(), at) + f.OutBytes())
    requires Shows(s', RowStart(f.OutBytes(), at), PickFrom(PassRows(f, data, w, h, p), f.OutBytes(), i, j))
    requires |PickFrom(PassRows(f, data, w, h, p), f.OutBytes(), i, j)| == f.OutBytes()
    requires Progress(s, f, data, w, h, p, i, j)
    ensures Progress(s', f, data, w, h, p, i + 1, j)
  {
    hide PassOf, ColumnOf, LineOf, XOrig, YOrig, XSpc, YSpc, Across, Down, PassOk, PassRows, RowStart, PickFrom;
    var u, v := i * XSpc(p) + XOrig(p), j * YSpc(p) + YOrig(p);
    PassesInside(w, h, p, i, j);
    DivModUnique(at, w, v, u);
    LandsBack(p, i, j, u, v);
    forall n | 0 <= n < w * h && Before(w, n, p, i + 1, j)
      ensures Delivered(s', f, data, w, h, n)
    {
      if !Before(w, n, p, i, j) {
        SamePixel(w, n, p, i, j, at);
      } else {
        assert Delivered(s, f, data, w, h, n);
        NotItself(w, n, p, i, j, at);
        Elsewhere(s, s', f.OutBytes(), n, at, FullPixel(f, data, w, h, n));
      }
    }
  }

  lemma SamePixel(w: nat, n: nat, p: nat, i: nat, j: nat, at: nat)
    requires 0 < w && p < 7 && Before(w, n, p, i + 1, j) && !Before(w, n, p, i, j)
    requires at == (j * YSpc(p) + YOrig(p)) * w + (i * XSpc(p) + XOrig(p))
    ensures n == at
  {
    hide PassOf, ColumnOf, LineOf, XOrig, YOrig, XSpc, YSpc;
    LandsForward(n % w, n / w);
    assert n == (n / w) * w + n % w;
  }

  lemma NotItself(w: nat, n: nat, p: nat, i: nat, j: nat, at: nat)
    requires 0 < w && p < 7 && Before(w, n, p, i, j)
    requires at / w == j * YSpc(p) + YOrig(p) && at % w == i * XSpc(p) + XOrig(p)
    ensures n != at
  {
    hide PassOf, ColumnOf, LineOf, XOrig, YOrig, XSpc, YSpc;
    LandsBack(p, i, j, at % w, at / w);
  }

  lemma Elsewhere(s: seq<byte>, s': seq<byte>, ob: nat, n: nat, at: nat, px: seq<byte>)
    requires Shows(s, RowStart(ob, n), px) && |px| == ob && n != at
    requires SameOutside(s, s', RowStart(ob, at), RowStart(ob, at) + ob)
    ensures Shows(s', RowStart(ob, n), px)
  {
    hide RowStart;
    if n < at {
      RowStartStep(ob, n, at);
    } else {
      RowStartStep(ob, at, n);
    }
    var start := RowStart(ob, n);
    assert s'[start..start + ob] == s[start..start + ob];
  }

  // ----- copying the passes

  lemma PixelInImage(w: nat, h: nat, n: nat)
    requires 0 < w && n < w * h
    ensures n % w < w && n / w < h
  {
    assert n == (n / w) * w + n % w;
    if n / w >= h {
      MulLe(h, n / w, w);
    }
  }

  lemma NextLine(s: seq<byte>, f: Format, data: seq<byte>, w: nat, h: nat, p: nat, j: nat)
    requires f.Valid() && 0 < w && 0 < h && p < 7 && Progress(s, f, data, w, h, p, Across(p, w), j)
    ensures Progress(s, f, data, w, h, p, 0, j + 1)
  {
    hide PassOf, ColumnOf, LineOf, XOrig, YOrig, XSpc, YSpc, Across, Down, Delivered;
    hide Before;
    forall n | 0 <= n < w * h && Before(w, n, p, 0, j + 1)
      ensures Before(w, n, p, Across(p, w), j)
    {
      PixelInImage(w, h, n);
      LineBefore(w, h, n, p, j);
    }
  }

  lemma LineBefore(w: nat, h: nat, n: nat, p: nat, j: nat)
    requires 0 < w && 0 < h && p < 7 && 0 <= n % w < w && 0 <= n / w < h && Before(w, n, p, 0, j + 1)
    ensures Before(w, n, p, Across(p, w), j)
  {
    hide PassOf, ColumnOf, LineOf, Across;
    PassesPartition(w, h, n % w, n / w);
  }

  lemma NextPass(s: seq<byte>, f: Format, data: seq<byte>, w: nat, h: nat, p: nat, j: nat)
    requires f.Valid() && 0 < w && 0 < h && p < 7 && Progress(s, f, data, w, h, p, 0, j)
    requires j == Down(p, h) || Across(p, w) == 0
    ensures Progress(s, f, data, w, h, p + 1, 0, 0)
  {
    hide PassOf, ColumnOf, LineOf, XOrig, YOrig, XSpc, YSpc, Across, Down, Delivered;
    forall n | 0 <= n < w * h && Before(w, n, p + 1, 0, 0)
      ensures Before(w, n, p, 0, j)
    {
      PixelInImage(w, h, n);
      PassesPartition(w, h, n % w, n / w);
    }
  }

  lemma SubShows(s: seq<byte>, start: nat, row: seq<byte>, a: nat, n: nat)
    requires Shows(s, start, row) && a + n <= |row|
    ensures Shows(s, start + a, row[a..a + n])
  {
    var got, want := s[start + a..start + a + n], row[a..a + n];
    forall k | 0 <= k < n
      ensures got[k] == want[k]
    {
      assert s[start..start + |row|][a + k] == row[a + k];
    }
  }

  lemma PixelOffset(ob: nat, x: nat, i: nat, j: nat)
    requires i < x
    ensures RowStart(ob, j * x + i) == RowStart(x * ob, j) + i * ob
    ensures i * ob + ob == (i + 1) * ob <= x * ob
  {
    MulLe(i + 1, x, ob);
    assert (j * x + i) * ob == j * (x * ob) + i * ob;
    assert (i + 1) * ob == i * ob + ob;
  }

  /** The bytes that the copy of pixel (i, j) reads. */
  lemma PickSource(s: seq<byte>, ob: nat, x: nat, rows: seq<seq<byte>>, i: nat, j: nat)
    requires ShowsAll(s, x * ob, rows, |rows|) && i < x && j < |rows|
    ensures Shows(s, RowStart(ob, j * x + i), PickFrom(rows, ob, i, j)) && |PickFrom(rows, ob, i, j)| == ob
  {
    hide RowStart, Shows, PickFrom, ShowsAll;
    PixelOffset(ob, x, i, j);
    PickAt(s, ob, x * ob, rows, i, j, i * ob);
  }

  lemma PickAt(s: seq<byte>, ob: nat, stride: nat, rows: seq<seq<byte>>, i: nat, j: nat, at: nat)
    requires ShowsAll(s, stride, rows, |rows|) && j < |rows| && at == i * ob && at + ob == (i + 1) * ob <= stride
    ensures Shows(s, RowStart(stride, j) + at, PickFrom(rows, ob, i, j)) && |PickFrom(rows, ob, i, j)| == ob
  {
    hide RowStart, Shows, Pick;
    PickInside(rows[j], ob, i, at, stride);
    SubShows(s, RowStart(stride, j), rows[j], at, ob);
  }

  lemma PickInside(row: seq<byte>, ob: nat, i: nat, at: nat, stride: nat)
    requires at == i * ob && at + ob == (i + 1) * ob <= stride == |row|
    ensures Pick(row, ob, i) == row[at..at + ob]
  {
  }

  /** memcpy between two buffers. */
  method CopyBytes(dst: array<byte>, to: nat, src: array<byte>, from: nat, n: nat, ghost px: seq<byte>)
    requires dst != src && to + n <= dst.Length && |px| == n && Shows(src[..], from, px)
    modifies dst
    ensures Shows(dst[..], to, px) && SameOutside(old(dst[..]), dst[..], to, to + n)
  {
    var k := 0;
    while k < n
      invariant 0 <= k <= n
      invariant dst[to..to + k] == px[..k]
      invariant forall q :: 0 <= q < dst.Length && !(to <= q < to + k) ==> dst[q] == old(dst[q])
    {
      assert src[from + k] == src[..][from..from + |px|][k] == px[k];
      dst[to + k] := src[from + k];
      assert dst[to..to + k + 1] == dst[to..to + k] + [px[k]];
      k := k + 1;
    }
    assert dst[..][to..to + n] == dst[to..to + n];
  }

  lemma TargetInside(f: Format, w: nat, h: nat, u: nat, v: nat)
    requires u < w && v < h
    ensures v * w + u < w * h
    ensures RowStart(f.OutBytes(), v * w + u) == v * w * f.OutBytes() + u * f.OutBytes()
    ensures RowStart(f.OutBytes(), v * w + u) + f.OutBytes() <= f.ImageBytes(w, h)
  {
    MulLe(v + 1, h, w);
    RowStartStep(f.OutBytes(), v * w + u, w * h);
  }

  /** A buffer holds the rows of pass p. */
  ghost predicate PassShown(s: seq<byte>, f: Format, data: seq<byte>, w: nat, h: nat, p: nat)
    requires f.Valid() && 0 < w && 0 < h && p < 7
  {
    hide PassOk, PassRows, Across, Down;
    && PassOk(f, data, w, h, p) && |PassRows(f, data, w, h, p)| == Down(p, h)
    && ShowsAll(s, f.Stride(Across(p, w)), PassRows(f, data, w, h, p), Down(p, h))
  }

  method CopyPixel(dst: array<byte>, src: array<byte>, f: Format, w: nat, h: nat, p: nat, x: nat, i: nat, j: nat, ghost data: seq<byte>)
    requires f.Valid() && 0 < w && 0 < h && p < 7 && dst != src && dst.Length == f.ImageBytes(w, h)
    requires x == Across(p, w) && i < x && j < Down(p, h) && PassShown(src[..], f, data, w, h, p)
    requires Progress(dst[..], f, data, w, h, p, i, j)
    modifies dst
    ensures Progress(dst[..], f, data, w, h, p, i + 1, j)
  {
    hide PassOf, XOrig, YOrig, XSpc, YSpc, Across, Down, PassOk, PassRows, PickFrom, Shows, ShowsAll, SameOutside, Progress,
         Format.ImageBytes, Format.OutBytes, Format.Stride;
    PassesInside(w, h, p, i, j);
    var out_y, out_x := j * YSpc(p) + YOrig(p), i * XSpc(p) + XOrig(p);
    TargetInside(f, w, h, out_x, out_y);
    ghost var px := PickFrom(PassRows(f, data, w, h, p), f.OutBytes(), i, j);
    SameStride(f, x);
    PickSource(src[..], f.OutBytes(), x, PassRows(f, data, w, h, p), i, j);
    var ob := f.OutBytes();
    CopyBytes(dst, out_y * w * ob + out_x * ob, src, (j * x + i) * ob, ob, px);
    PixelStored(old(dst[..]), dst[..], f, data, w, h, p, i, j, out_y * w + out_x);
  }

  method CopyPass(dst: array<byte>, src: array<byte>, f: Format, w: nat, h: nat, p: nat, x: nat, y: nat, ghost data: seq<byte>)
    requires f.Valid() && 0 < w && 0 < h && p < 7 && dst != src && dst.Length == f.ImageBytes(w, h)
    requires x == Across(p, w) && y == Down(p, h) && PassShown(src[..], f, data, w, h, p)
    requires Progress(dst[..], f, data, w, h, p, 0, 0)
    modifies dst
    ensures Progress(dst[..], f, data, w, h, p + 1, 0, 0)
  {
    hide Across, Down, PassShown, Progress, Format.ImageBytes;
    var j := 0;
    while j < y
      invariant 0 <= j <= y
      invariant Progress(dst[..], f, data, w, h, p, 0, j)
    {
      var i := 0;
      while i < x
        invariant 0 <= i <= x
        invariant Progress(dst[..], f, data, w, h, p, i, j)
      {
        CopyPixel(dst, src, f, w, h, p, x, i, j, data);
        i := i + 1;
      }
      NextLine(dst[..], f, data, w, h, p, j);
      j := j + 1;
    }
    NextPass(dst[..], f, data, w, h, p, y);
  }

  // ----- the whole of stbi__create_png_image

  /** Exactly the inputs that produce an image. */
  ghost predicate AcceptsImage(f: Format, data: seq<byte>, w: nat, h: nat, interlaced: bool)
    requires 0 < w && 0 < h
  {
    if !interlaced then Accepts(f, data, w, h)
    else f.ImageBytes(w, h) <= INT_MAX && forall p :: 0 <= p < 7 ==> PassOk(f, data, w, h, p)
  }

  /** Every pixel of the buffer is the one that its pass supplies. */
  ghost predicate AllDelivered(s: seq<byte>, f: Format, data: seq<byte>, w: nat, h: nat)
    requires f.Valid() && 0 < w && 0 < h
  {
    forall n :: 0 <= n < w * h ==> Delivered(s, f, data, w, h, n)
  }

  lemma Finished(s: seq<byte>, f: Format, data: seq<byte>, w: nat, h: nat)
    requires f.Valid() && 0 < w && 0 < h && Progress(s, f, data, w, h, 7, 0, 0)
    ensures AllDelivered(s, f, data, w, h)
  {
    hide Delivered;
    forall n | 0 <= n < w * h
      ensures Delivered(s, f, data, w, h, n)
    {
      assert Before(w, n, 7, 0, 0);
    }
  }

  lemma NothingBefore(s: seq<byte>, f: Format, data: seq<byte>, w: nat, h: nat)
    requires f.Valid() && 0 < w && 0 < h
    ensures Progress(s, f, data, w, h, 0, 0, 0)
  {
    hide Delivered, PassOf, ColumnOf, LineOf;
    forall n | 0 <= n < w * h
      ensures !Before(w, n, 0, 0, 0)
    {
      LandsForward(n % w, n / w);
    }
  }

  /** What is known once a pass has been decoded. */
  lemma PassDecoded(f: Format, data: seq<byte>, w: nat, h: nat, p: nat, s: seq<byte>, raw: seq<byte>, x: nat, y: nat)
    requires f.Valid() && 0 < w && 0 < h && p < 7 && 0 < x == Across(p, w) && 0 < y == Down(p, h)
    requires PassStart(f, w, h, p) <= |data| && raw == data[PassStart(f, w, h, p)..]
    requires Accepts(f, raw, x, y) && Produced(s, f, raw, x, y)
    ensures PassShown(s, f, data, w, h, p)
    ensures PassStart(f, w, h, p + 1) <= |data|
  {
    hide Across, Down, ShowsAll, Format.RowBytes, Format.ImageBytes, Format.RowBits, Start, Format.Stride, Format.OutBytes;
  }

  lemma SameStride(f: Format, x: nat)
    ensures f.Stride(x) == x * f.OutBytes()
  {
    assert x * f.out_n * f.Bytes() == x * (f.out_n * f.Bytes());
  }

  method DecodePass(dst: array<byte>, f: Format, data: seq<byte>, w: nat, h: nat, p: nat, pos: nat) returns (ok: bool, next: nat)
    requires f.Valid() && 0 < w && 0 < h && p < 7 && pos == PassStart(f, w, h, p) <= |data| && dst.Length == f.ImageBytes(w, h)
    requires Progress(dst[..], f, data, w, h, p, 0, 0)
    modifies dst
    ensures ok <==> PassOk(f, data, w, h, p)
    ensures ok ==> Progress(dst[..], f, data, w, h, p + 1, 0, 0) && next == PassStart(f, w, h, p + 1) <= |data|
  {
    hide Produced, PassShown, Progress, Across, Down, Accepts, Format.ImageBytes, Format.RowBytes, Start;
    var x, y := Across(p, w), Down(p, h);
    if x == 0 || y == 0 {
      NextPass(dst[..], f, data, w, h, p, 0);
      return true, pos;
    }
    var img_len := Start(f.RowBytes(x), y);
    var src;
    ok, src := CreateRaw(f, data[pos..], x, y);
    next := pos + img_len;
    if ok {
      PassDecoded(f, data, w, h, p, src[..], data[pos..], x, y);
      CopyPass(dst, src, f, w, h, p, x, y, data);
    }
  }

  method CreateImage(f: Format, data: seq<byte>, w: nat, h: nat, interlaced: bool) returns (ok: bool, out: array<byte>)
    requires f.Valid() && 0 < w && 0 < h
    ensures ok <==> AcceptsImage(f, data, w, h, interlaced)
    ensures ok ==> fresh(out) && out.Length == f.ImageBytes(w, h)
    ensures ok && !interlaced ==> Produced(out[..], f, data, w, h)
    ensures ok && interlaced ==> AllDelivered(out[..], f, data, w, h)
  {
    hide Produced, Progress, Accepts, PassOk, AllDelivered, Mad3SizesValid, PassStart;
    if !interlaced {
      ok, out := CreateRaw(f, data, w, h);
      return;
    }
    Mad3Exact(w, h, f.OutBytes(), 0);
    if !Mad3SizesValid(w, h, f.OutBytes(), 0) {
      return false, new byte[0];
    }
    out := new byte[f.ImageBytes(w, h)];
    hide Format.ImageBytes;
    NothingBefore(out[..], f, data, w, h);
    var p, pos := 0, 0;
    FirstPass(f, w, h);
    while p < 7
      invariant 0 <= p <= 7 && pos == PassStart(f, w, h, p) <= |data|
      invariant forall q :: 0 <= q < p ==> PassOk(f, data, w, h, q)
      invariant Progress(out[..], f, data, w, h, p, 0, 0)
    {
      ok, pos := DecodePass(out, f, data, w, h, p, pos);
      if !ok {
        return;
      }
      p := p + 1;
    }
    Finished(out[..], f, data, w, h);
    ok := true;
  }

  lemma FirstPass(f: Format, w: nat, h: nat)
    requires 0 < w && 0 < h
    ensures PassStart(f, w, h, 0) == 0
  {
  }
}
