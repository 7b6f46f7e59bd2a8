/** The order in which decoded indices fill the image rectangle (Appendix E of GIF89a). */
module GifRaster {
  import opened Arith
  import opened Bits

  // ----- the order of the rows

  /** The rows first, first + step, ... below h. */
  function Pass(first: nat, step: nat, h: nat): (r: seq<nat>)
    requires step > 0
    decreases h - first
  {
    if first >= h then [] else [first] + Pass(first + step, step, h)
  }

  /** Interlaced images come in four passes. */
  function RowOrder(interlaced: bool, h: nat): seq<nat> {
    if interlaced then Pass(0, 8, h) + Pass(4, 8, h) + Pass(2, 4, h) + Pass(1, 2, h) else Pass(0, 1, h)
  }

  /** Row r belongs to the pass. */
  predicate OnPass(first: nat, step: nat, h: nat, r: nat)
    requires step > 0
    decreases h - first
  {
    first < h && (r == first || OnPass(first + step, step, h, r))
  }

  lemma {:induction false} PassElements(first: nat, step: nat, h: nat, r: nat)
    requires step > 0
    ensures multiset(Pass(first, step, h))[r] == if OnPass(first, step, h, r) then 1 else 0
    ensures OnPass(first, step, h, r) ==> first <= r < h
    decreases h - first
  {
    hide Pass, OnPass;
    PassNext(first, step, h, r);
    if first < h {
      PassElements(first + step, step, h, r);
      CountFront(first, Pass(first + step, step, h), r);
    }
  }

  lemma PassNext(first: nat, step: nat, h: nat, r: nat)
    requires step > 0
    ensures first < h ==> Pass(first, step, h) == [first] + Pass(first + step, step, h)
    ensures first < h ==> (OnPass(first, step, h, r) <==> r == first || OnPass(first + step, step, h, r))
    ensures first >= h ==> Pass(first, step, h) == [] && !OnPass(first, step, h, r)
  {
  }

  lemma CountFront(first: nat, rest: seq<nat>, r: nat)
    ensures multiset([first] + rest)[r] == multiset(rest)[r] + if r == first then 1 else 0
  {
    assert multiset([first] + rest) == multiset([first]) + multiset(rest);
  }

  /** Row r is `step` times some number past row `first`, for the spacings in use. */
  predicate Spaced(first: nat, step: nat, r: nat) {
    first <= r
    && if step == 8 then (r - first) % 8 == 0
       else if step == 4 then (r - first) % 4 == 0
       else step == 1 || (r - first) % 2 == 0
  }

  lemma {:induction false} PassSpacing(first: nat, step: nat, h: nat, r: nat)
    requires step == 1 || step == 2 || step == 4 || step == 8
    ensures OnPass(first, step, h, r) <==> r < h && Spaced(first, step, r)
    decreases h - first
  {
    if first < h {
      PassSpacing(first + step, step, h, r);
    }
  }

  lemma SpacedBy8(r: nat)
    ensures Spaced(0, 8, r) <==> r % 8 == 0
    ensures Spaced(4, 8, r) <==> r % 8 == 4
  {
  }

  lemma SpacedBy4(r: nat)
    ensures Spaced(2, 4, r) <==> r % 4 == 2
  {
  }

  lemma SpacedBy2(r: nat)
    ensures Spaced(1, 2, r) <==> r % 2 == 1
  {
  }

  lemma Residues(r: nat)
    ensures r % 2 == 1 <==> r % 4 == 1 || r % 4 == 3
    ensures r % 4 == 0 <==> r % 8 == 0 || r % 8 == 4
  {
    var q, m := r / 8, r % 8;
    Mod4(if m < 4 then 2 * q else 2 * q + 1, if m < 4 then m else m - 4);
    Mod2(if m < 2 then 4 * q else if m < 4 then 4 * q + 1 else if m < 6 then 4 * q + 2 else 4 * q + 3,
         if m < 2 then m else if m < 4 then m - 2 else if m < 6 then m - 4 else m - 6);
  }

  lemma Mod4(q: nat, m: nat)
    requires m < 4
    ensures (4 * q + m) % 4 == m
  {
  }

  lemma Mod2(q: nat, m: nat)
    requires m < 2
    ensures (2 * q + m) % 2 == m
  {
  }

  /** The four passes part the rows by their remainders. */
  lemma OneSpacing(r: nat)
    ensures (if Spaced(0, 8, r) then 1 else 0) + (if Spaced(4, 8, r) then 1 else 0)
            + (if Spaced(2, 4, r) then 1 else 0) + (if Spaced(1, 2, r) then 1 else 0) == 1
  {
    hide Spaced;
    SpacedBy8(r);
    SpacedBy4(r);
    SpacedBy2(r);
    Residues(r);
  }

  /** The order visits every row of the rectangle exactly once, and no other row. */
  lemma RowsExactlyOnce(interlaced: bool, h: nat, r: nat)
    ensures multiset(RowOrder(interlaced, h))[r] == if r < h then 1 else 0
  {
    hide Pass, OnPass, Spaced;
    if interlaced {
      PassCount(0, 8, h, r);
      PassCount(4, 8, h, r);
      PassCount(2, 4, h, r);
      PassCount(1, 2, h, r);
      OneSpacing(r);
      var a, b, c, d := Pass(0, 8, h), Pass(4, 8, h), Pass(2, 4, h), Pass(1, 2, h);
      assert multiset(a + b + c + d) == multiset(a) + multiset(b) + multiset(c) + multiset(d);
    } else {
      PassCount(0, 1, h, r);
      EveryRow(r);
    }
  }

  lemma EveryRow(r: nat)
    ensures Spaced(0, 1, r)
  {
  }

  lemma PassCount(first: nat, step: nat, h: nat, r: nat)
    requires step == 1 || step == 2 || step == 4 || step == 8
    ensures multiset(Pass(first, step, h))[r] == if r < h && Spaced(first, step, r) then 1 else 0
  {
    PassElements(first, step, h, r);
    PassSpacing(first, step, h, r);
  }

  // ----- counting rows and pixels

  lemma {:induction false} PassSnoc(first: nat, step: nat, h: nat)
    requires step > 0
    ensures |Pass(first, step, h + 1)| == |Pass(first, step, h)| + (if OnPass(first, step, h + 1, h) then 1 else 0)
    decreases h + 1 - first
  {
    if first < h {
      PassSnoc(first + step, step, h);
    } else if first == h {
      assert Pass(first + step, step, h + 1) == [];
    }
  }

  /** There are as many rows in the order as in the rectangle. */
  lemma {:induction false} RowCount(interlaced: bool, h: nat)
    ensures |RowOrder(interlaced, h)| == h
    decreases h
  {
    if h != 0 {
      RowCount(interlaced, h - 1);
      RowGain(interlaced, h - 1);
    }
  }

  lemma RowGain(interlaced: bool, h: nat)
    ensures |RowOrder(interlaced, h + 1)| == |RowOrder(interlaced, h)| + 1
  {
    hide Pass, OnPass, Spaced;
    if interlaced {
      PassGain(0, 8, h);
      PassGain(4, 8, h);
      PassGain(2, 4, h);
      PassGain(1, 2, h);
      OneSpacing(h);
    } else {
      PassGain(0, 1, h);
      EveryRow(h);
    }
  }

  lemma PassGain(first: nat, step: nat, h: nat)
    requires step == 1 || step == 2 || step == 4 || step == 8
    ensures |Pass(first, step, h + 1)| == |Pass(first, step, h)| + (if Spaced(first, step, h) then 1 else 0)
  {
    PassSnoc(first, step, h);
    PassSpacing(first, step, h + 1, h);
  }

  lemma RowInRange(interlaced: bool, h: nat, k: nat)
    requires k < |RowOrder(interlaced, h)|
    ensures RowOrder(interlaced, h)[k] < h
  {
    var rows := RowOrder(interlaced, h);
    RowsExactlyOnce(interlaced, h, rows[k]);
    assert rows[k] in multiset(rows);
  }

  // ----- the rectangle in the image

  /** An image of W x H pixels and the w x h rectangle at (x, y) that the block fills. */
  datatype Frame = Frame(W: nat, H: nat, x: nat, y: nat, w: nat, h: nat, interlaced: bool)
  {
    predicate Inside() { x + w <= W && y + h <= H }
    function LineSize(): nat { 4 * W }
    function RowOffset(row: nat): nat { (y + row) * LineSize() }

    /** The byte offset of column c of row `row` of the rectangle. */
    function Offset(row: nat, c: nat): nat { RowOffset(row) + 4 * (x + c) }

    /** The byte offset of the n-th pixel in decoding order. */
    ghost function PixelOffset(n: nat): nat
      requires w > 0 && n / w < h
    {
      RowCount(interlaced, h);
      Offset(RowOrder(interlaced, h)[n / w], n % w)
    }

    lemma OffsetBound(row: nat, c: nat)
      requires Inside() && row < h && c < w
      ensures Offset(row, c) + 3 < 4 * (W * H) && Offset(row, c) % 4 == 0 && Offset(row, c) / 4 < W * H
    {
      var q := y + row;
      MulLe(q + 1, H, W);
      assert (q + 1) * W == q * W + W && H * W == W * H;
      assert q * (4 * W) == 4 * (q * W);
      assert Offset(row, c) == 4 * (q * W + x + c);
    }

    lemma RowOffsetOrder(row: nat)
      requires W > 0
      ensures RowOffset(row) >= RowOffset(h) <==> row >= h
    {
      if row >= h {
        MulLe(y + h, y + row, 4 * W);
      } else {
        MulLe(y + row + 1, y + h, 4 * W);
        assert (y + row + 1) * (4 * W) == RowOffset(row) + 4 * W;
      }
    }
  }

  // ----- painting

  /** One pixel in the colour of index i, unless that colour is transparent. */
  function Plot(img: seq<byte>, at: nat, table: seq<byte>, i: byte): (r: seq<byte>)
    requires at + 3 < |img| && |table| == 1024
    ensures |r| == |img|
  {
    if table[4 * i + 3] > 128
    then img[at := table[4 * i + 2]][at + 1 := table[4 * i + 1]][at + 2 := table[4 * i]][at + 3 := table[4 * i + 3]]
    else img
  }

  /** The image after the indices; what does not fit the rectangle is dropped. */
  ghost function Painted(f: Frame, img: seq<byte>, table: seq<byte>, indices: seq<byte>): (r: seq<byte>)
    requires f.Inside() && |img| == 4 * (f.W * f.H) && |table| == 1024
    ensures |r| == |img|
  {
    if indices == [] then img else
      var n := |indices| - 1;
      var before := Painted(f, img, table, indices[..n]);
      if f.w > 0 && n / f.w < f.h then
        RowCount(f.interlaced, f.h);
        RowInRange(f.interlaced, f.h, n / f.w);
        f.OffsetBound(RowOrder(f.interlaced, f.h)[n / f.w], n % f.w);
        Plot(before, f.PixelOffset(n), table, indices[n])
      else before
  }

  /** The pixels that were reached, painted or transparent. */
  ghost function Touched(f: Frame, history: seq<byte>, n: nat): (r: seq<byte>)
    requires f.Inside() && |history| == f.W * f.H
    ensures |r| == |history|
  {
    if n == 0 then history else
      var before := Touched(f, history, n - 1);
      if f.w > 0 && (n - 1) / f.w < f.h then
        RowCount(f.interlaced, f.h);
        RowInRange(f.interlaced, f.h, (n - 1) / f.w);
        f.OffsetBound(RowOrder(f.interlaced, f.h)[(n - 1) / f.w], (n - 1) % f.w);
        before[f.PixelOffset(n - 1) / 4 := 1]
      else before
  }

  lemma PaintedSnoc(f: Frame, img: seq<byte>, table: seq<byte>, indices: seq<byte>, i: byte)
    requires f.Inside() && |img| == 4 * (f.W * f.H) && |table| == 1024
    requires f.w > 0 && |indices| / f.w < f.h && f.PixelOffset(|indices|) + 3 < |img|
    ensures Painted(f, img, table, indices + [i]) == Plot(Painted(f, img, table, indices), f.PixelOffset(|indices|), table, i)
  {
    hide Plot, RowOrder, Frame.PixelOffset;
    var n, all := |indices|, indices + [i];
    assert all[..n] == indices && all[n] == i && |all| - 1 == n;
    hide Frame.Inside;
  }

  lemma TouchedNext(f: Frame, history: seq<byte>, n: nat)
    requires f.Inside() && |history| == f.W * f.H
    requires f.w > 0 && n / f.w < f.h && f.PixelOffset(n) / 4 < |history|
    ensures Touched(f, history, n + 1) == Touched(f, history, n)[f.PixelOffset(n) / 4 := 1]
  {
    hide RowOrder, Frame.PixelOffset;
  }

  // ----- the row cursor

  /** The passes that follow when `parse` of them are left. */
  function LaterPasses(parse: nat, h: nat): seq<nat> {
    if parse == 0 then [] else
      Pow2Positive(parse);
      Pass(Pow2(parse) / 2, Pow2(parse), h) + LaterPasses(parse - 1, h)
  }

  lemma Pow2Positive(n: nat)
    ensures Pow2(n) > 0
  {
  }

  /** The rows still to come when the cursor stands on `row`. */
  function Remaining(row: nat, step: nat, parse: nat, h: nat): seq<nat>
    requires step > 0
  {
    Pass(row, step, h) + LaterPasses(parse, h)
  }

  lemma RemainingAtStart(interlaced: bool, h: nat)
    ensures Remaining(0, if interlaced then 8 else 1, if interlaced then 3 else 0, h) == RowOrder(interlaced, h)
  {
    assert Pow2(1) == 2 && Pow2(2) == 4 && Pow2(3) == 8;
    assert LaterPasses(1, h) == Pass(1, 2, h) + [];
    assert LaterPasses(2, h) == Pass(2, 4, h) + LaterPasses(1, h);
    assert LaterPasses(3, h) == Pass(4, 8, h) + LaterPasses(2, h);
  }

  // ----- each pixel of the rectangle exactly once

  lemma TwiceMeansTwo(s: seq<nat>, i: nat, j: nat)
    requires i < j < |s| && s[i] == s[j]
    ensures multiset(s)[s[i]] >= 2
  {
    assert s == s[..j] + s[j..];
    assert s[..j][i] == s[i] && s[j..][0] == s[i];
    assert s[i] in multiset(s[..j]) && s[i] in multiset(s[j..]);
  }

  lemma OnceMeansDistinct(s: seq<nat>, i: nat, j: nat)
    requires i < |s| && j < |s| && s[i] == s[j] && multiset(s)[s[i]] <= 1
    ensures i == j
  {
    if i < j {
      TwiceMeansTwo(s, i, j);
    } else if j < i {
      TwiceMeansTwo(s, j, i);
    }
  }

  lemma DivModDetermine(a: nat, b: nat, w: nat)
    requires w > 0 && a / w == b / w && a % w == b % w
    ensures a == b
  {
    assert a == w * (a / w) + a % w;
    assert b == w * (b / w) + b % w;
  }

  /** Two indices never land on the same pixel. */
  lemma PixelsDistinct(f: Frame, a: nat, b: nat)
    requires f.Inside() && f.w > 0 && a / f.w < f.h && b / f.w < f.h
    requires f.PixelOffset(a) == f.PixelOffset(b)
    ensures a == b
  {
    hide RowOrder, Frame.Offset, Frame.Inside;
    RowCount(f.interlaced, f.h);
    SamePlace(f, a / f.w, a % f.w, b / f.w, b % f.w);
    DivModDetermine(a, b, f.w);
  }

  lemma SamePlace(f: Frame, k: nat, c: nat, k': nat, c': nat)
    requires f.Inside() && k < f.h && k' < f.h && c < f.w && c' < f.w && |RowOrder(f.interlaced, f.h)| == f.h
    requires var order := RowOrder(f.interlaced, f.h); f.Offset(order[k], c) == f.Offset(order[k'], c')
    ensures k == k' && c == c'
  {
    hide RowOrder, Frame.Offset, Frame.Inside;
    var order := RowOrder(f.interlaced, f.h);
    OffsetInjective(f, order[k], c, order[k'], c');
    RowInRange(f.interlaced, f.h, k);
    RowsExactlyOnce(f.interlaced, f.h, order[k]);
    OnceMeansDistinct(order, k, k');
  }

  lemma OffsetInjective(f: Frame, r: nat, c: nat, r': nat, c': nat)
    requires f.Inside() && c < f.w && c' < f.w && f.Offset(r, c) == f.Offset(r', c')
    ensures r == r' && c == c'
  {
    if r < r' {
      OffsetOrder(f, r, c, r');
    } else if r' < r {
      OffsetOrder(f, r', c', r);
    }
  }

  lemma OffsetOrder(f: Frame, r: nat, c: nat, r': nat)
    requires f.Inside() && c < f.w && r < r'
    ensures f.Offset(r, c) < f.RowOffset(r')
  {
    MulLe(f.y + r + 1, f.y + r', 4 * f.W);
    assert (f.y + r + 1) * (4 * f.W) == f.RowOffset(r) + 4 * f.W;
  }

  /** Every pixel of the rectangle is the place of some index. */
  lemma PixelsCover(f: Frame, r: nat, c: nat) returns (n: nat)
    requires f.Inside() && r < f.h && c < f.w
    ensures n / f.w < f.h && f.PixelOffset(n) == f.Offset(r, c)
  {
    hide RowOrder;
    RowCount(f.interlaced, f.h);
    var order := RowOrder(f.interlaced, f.h);
    RowsExactlyOnce(f.interlaced, f.h, r);
    assert r in multiset(order);
    assert r in order;
    var k :| 0 <= k < |order| && order[k] == r;
    n := k * f.w + c;
    DivModUnique(n, f.w, k, c);
  }
}
