/** Scanline filtering as sections 2.3 and 6 of RFC 2083 define it. */
module PngSpec {
  import opened Arith
  import opened Bits

  function Abs(v: int): nat {
    if v < 0 then -v else v
  }

  /** The neighbour nearest to a + b - c, ties going to the left one, then the upper one. */
  function Paeth(a: int, b: int, c: int): (r: int)
    ensures r == a || r == b || r == c
    ensures forall n :: n in [a, b, c] ==> Abs(a + b - c - r) <= Abs(a + b - c - n)
    ensures r != a ==> Abs(a + b - c - r) < Abs(a + b - c - a)
    ensures r != a && r != b ==> Abs(a + b - c - r) < Abs(a + b - c - b)
  {
    var p := a + b - c;
    var pa := Abs(p - a);
    var pb := Abs(p - b);
    var pc := Abs(p - c);
    if pa <= pb && pa <= pc then a else if pb <= pc then b else c
  }

  /** What a filter subtracts, given the bytes to the left, above, and above left. */
  function Predict(filter: nat, left: byte, up: byte, corner: byte): byte {
    if filter == 0 then 0
    else if filter == 1 then left
    else if filter == 2 then up
    else if filter == 3 then Average(left, up)
    else Paeth(left, up, corner)
  }

  function Average(left: int, up: int): int {
    (left + up) / 2
  }

  /** Bytes outside the image count as zero. */
  function At(row: seq<byte>, k: int): byte {
    if 0 <= k < |row| then row[k] else 0
  }

  function Prediction(filter: nat, bpp: nat, prior: seq<byte>, row: seq<byte>, k: nat): byte {
    Predict(filter, At(row, k - bpp), At(prior, k), At(prior, k - bpp))
  }

  function Minus(v: int, p: int): byte {
    (v - p) % 256
  }

  function Plus(v: int, p: int): byte {
    (v + p) % 256
  }

  /** The encoder's side. */
  function FilterRow(filter: nat, bpp: nat, prior: seq<byte>, row: seq<byte>): (enc: seq<byte>)
    ensures |enc| == |row|
  {
    seq(|row|, k requires 0 <= k < |row| => Minus(row[k], Prediction(filter, bpp, prior, row, k)))
  }

  /** The decoder's side: each byte needs the ones decoded before it. */
  function UnfilterRow(filter: nat, bpp: nat, prior: seq<byte>, enc: seq<byte>): (row: seq<byte>)
    ensures |row| == |enc|
  {
    if enc == [] then []
    else
      var n := |enc| - 1;
      var row := UnfilterRow(filter, bpp, prior, enc[..n]);
      row + [Plus(enc[n], Prediction(filter, bpp, prior, row, n))]
  }

  lemma {:induction false} UnfilterPrefix(filter: nat, bpp: nat, prior: seq<byte>, enc: seq<byte>, n: nat)
    requires n <= |enc|
    ensures UnfilterRow(filter, bpp, prior, enc)[..n] == UnfilterRow(filter, bpp, prior, enc[..n])
  {
    if n < |enc| {
      var m := |enc| - 1;
      UnfilterPrefix(filter, bpp, prior, enc[..m], n);
      assert enc[..m][..n] == enc[..n];
    } else {
      assert enc[..n] == enc;
    }
  }

  lemma UnfilterAt(filter: nat, bpp: nat, prior: seq<byte>, enc: seq<byte>, k: nat)
    requires k < |enc| && 0 < bpp
    ensures var row := UnfilterRow(filter, bpp, prior, enc);
            row[k] == Plus(enc[k], Prediction(filter, bpp, prior, row, k))
  {
    var row := UnfilterRow(filter, bpp, prior, enc);
    UnfilterPrefix(filter, bpp, prior, enc, k);
    UnfilterPrefix(filter, bpp, prior, enc, k + 1);
    assert enc[..k + 1][..k] == enc[..k];
    assert At(row[..k], k - bpp) == At(row, k - bpp);
    assert row[..k + 1][k] == row[k];
  }

  lemma SamePrediction(filter: nat, bpp: nat, prior: seq<byte>, row: seq<byte>, row': seq<byte>, k: nat)
    requires At(row, k - bpp) == At(row', k - bpp)
    ensures Prediction(filter, bpp, prior, row, k) == Prediction(filter, bpp, prior, row', k)
  {
  }

  /** A row is determined by its defining equations. */
  lemma {:induction false} UnfilterUnique(filter: nat, bpp: nat, prior: seq<byte>, enc: seq<byte>, row: seq<byte>, n: nat)
    requires 0 < bpp && |row| == |enc| && n <= |row|
    requires forall k :: 0 <= k < |row| ==> row[k] == Plus(enc[k], Prediction(filter, bpp, prior, row, k))
    ensures UnfilterRow(filter, bpp, prior, enc)[..n] == row[..n]
  {
    hide Prediction, Plus, UnfilterRow;
    if n > 0 {
      UnfilterUnique(filter, bpp, prior, enc, row, n - 1);
      var got := UnfilterRow(filter, bpp, prior, enc);
      UnfilterAt(filter, bpp, prior, enc, n - 1);
      assert forall k :: 0 <= k < n - 1 ==> got[k] == got[..n - 1][k] == row[..n - 1][k] == row[k];
      assert At(got, n - 1 - bpp) == At(row, n - 1 - bpp);
      SamePrediction(filter, bpp, prior, got, row, n - 1);
      hide At;
      assert got[..n] == got[..n - 1] + [got[n - 1]];
      assert row[..n] == row[..n - 1] + [row[n - 1]];
    }
  }

  lemma PlusMinus(v: byte, p: byte)
    ensures Plus(Minus(v, p), p) == v && Minus(Plus(v, p), p) == v
  {
    var x: int, y: int := v, p;
    assert (x - y) % 256 == if y <= x then x - y else x - y + 256;
    assert (x + y) % 256 == if x + y < 256 then x + y else x + y - 256;
  }

  /** Decoding undoes encoding, whatever filter the encoder picked. */
  lemma RowRoundTrip(filter: nat, bpp: nat, prior: seq<byte>, row: seq<byte>)
    requires 0 < bpp
    ensures UnfilterRow(filter, bpp, prior, FilterRow(filter, bpp, prior, row)) == row
  {
    hide Prediction, Plus, Minus;
    var enc := FilterRow(filter, bpp, prior, row);
    forall k | 0 <= k < |row|
      ensures row[k] == Plus(enc[k], Prediction(filter, bpp, prior, row, k))
    {
      PlusMinus(row[k], Prediction(filter, bpp, prior, row, k));
    }
    UnfilterUnique(filter, bpp, prior, enc, row, |row|);
    assert row[..|row|] == row;
    assert UnfilterRow(filter, bpp, prior, enc)[..|row|] == UnfilterRow(filter, bpp, prior, enc);
  }

  /** Encoding undoes decoding: every filtered row is the filtered form of exactly one row. */
  lemma FilteredRoundTrip(filter: nat, bpp: nat, prior: seq<byte>, enc: seq<byte>)
    requires 0 < bpp
    ensures FilterRow(filter, bpp, prior, UnfilterRow(filter, bpp, prior, enc)) == enc
  {
    hide Prediction, Plus, Minus;
    var row := UnfilterRow(filter, bpp, prior, enc);
    forall k | 0 <= k < |enc|
      ensures Minus(row[k], Prediction(filter, bpp, prior, row, k)) == enc[k]
    {
      UnfilterAt(filter, bpp, prior, enc, k);
      PlusMinus(enc[k], Prediction(filter, bpp, prior, row, k));
    }
  }

  // ----- whole images

  /** The rows decoded so far end in the one above; above the first row there is none. */
  function Above(rows: seq<seq<byte>>): seq<byte> {
    if rows == [] then [] else rows[|rows| - 1]
  }

  function FilterImage(filters: seq<byte>, bpp: nat, rows: seq<seq<byte>>): seq<byte>
    requires |filters| == |rows|
  {
    if rows == [] then []
    else
      var n := |rows| - 1;
      FilterImage(filters[..n], bpp, rows[..n])
      + [filters[n]] + FilterRow(filters[n], bpp, Above(rows[..n]), rows[n])
  }

  function Start(width: nat, j: nat): nat {
    j * (width + 1)
  }

  lemma StartStep(width: nat, j: nat)
    ensures Start(width, j + 1) == Start(width, j) + width + 1
  {
  }

  lemma StartMonotone(width: nat, i: nat, j: nat)
    requires i <= j
    ensures Start(width, i) <= Start(width, j)
  {
    MulLe(i, j, width + 1);
  }

  /** Row j of the filtered data: a filter byte, then `width` bytes. */
  ghost predicate Enough(raw: seq<byte>, width: nat, height: nat) {
    Start(width, height) <= |raw|
  }

  function FilterByte(raw: seq<byte>, width: nat, j: nat): byte
    requires Start(width, j) < |raw|
  {
    raw[Start(width, j)]
  }

  function Encoded(raw: seq<byte>, width: nat, j: nat): (r: seq<byte>)
    requires Start(width, j) + width + 1 <= |raw|
    ensures |r| == width
  {
    raw[Start(width, j) + 1..Start(width, j) + 1 + width]
  }

  function UnfilterImage(raw: seq<byte>, bpp: nat, width: nat, height: nat): (rows: seq<seq<byte>>)
    requires Enough(raw, width, height)
    ensures |rows| == height && forall j :: 0 <= j < height ==> |rows[j]| == width
  {
    if height == 0 then []
    else
      var n := height - 1;
      StartStep(width, n);
      var rows := UnfilterImage(raw, bpp, width, n);
      rows + [UnfilterRow(FilterByte(raw, width, n), bpp, Above(rows), Encoded(raw, width, n))]
  }

  lemma {:induction false} UnfilterImagePrefix(raw: seq<byte>, bpp: nat, width: nat, n: nat, height: nat)
    requires n <= height && Enough(raw, width, height)
    ensures Enough(raw, width, n)
    ensures UnfilterImage(raw, bpp, width, height)[..n] == UnfilterImage(raw, bpp, width, n)
  {
    StartMonotone(width, n, height);
    if n < height {
      StartMonotone(width, height - 1, height);
      UnfilterImagePrefix(raw, bpp, width, n, height - 1);
    }
  }

  lemma {:induction false} FilterImageLength(filters: seq<byte>, bpp: nat, rows: seq<seq<byte>>, width: nat)
    requires |filters| == |rows| && forall j :: 0 <= j < |rows| ==> |rows[j]| == width
    ensures |FilterImage(filters, bpp, rows)| == Start(width, |rows|)
  {
    if rows != [] {
      var n := |rows| - 1;
      FilterImageLength(filters[..n], bpp, rows[..n], width);
      StartStep(width, n);
    }
  }

  /** Data past the last row is ignored. */
  lemma {:induction false} UnfilterImageTail(raw: seq<byte>, tail: seq<byte>, bpp: nat, width: nat, height: nat)
    requires Enough(raw, width, height)
    ensures Enough(raw + tail, width, height)
    ensures UnfilterImage(raw + tail, bpp, width, height) == UnfilterImage(raw, bpp, width, height)
  {
    if height > 0 {
      var n := height - 1;
      StartStep(width, n);
      UnfilterImageTail(raw, tail, bpp, width, n);
      assert FilterByte(raw + tail, width, n) == FilterByte(raw, width, n);
      assert Encoded(raw + tail, width, n) == Encoded(raw, width, n);
    }
  }

  /** Unfiltering inverts filtering for every image and every choice of filters, whatever follows. */
  lemma {:induction false} ImageRoundTrip(filters: seq<byte>, bpp: nat, rows: seq<seq<byte>>, width: nat, tail: seq<byte>)
    requires 0 < bpp && |filters| == |rows| && forall j :: 0 <= j < |rows| ==> |rows[j]| == width
    ensures Enough(FilterImage(filters, bpp, rows) + tail, width, |rows|)
    ensures UnfilterImage(FilterImage(filters, bpp, rows) + tail, bpp, width, |rows|) == rows
  {
    hide FilterRow, UnfilterRow, Start, FilterByte, Encoded, Above;
    FilterImageLength(filters, bpp, rows, width);
    if rows != [] {
      var n := |rows| - 1;
      var enc := FilterRow(filters[n], bpp, Above(rows[..n]), rows[n]);
      var last := [filters[n]] + enc + tail;
      FilterImageLength(filters[..n], bpp, rows[..n], width);
      ImageRoundTrip(filters[..n], bpp, rows[..n], width, last);
      var raw := FilterImage(filters, bpp, rows) + tail;
      assert raw == FilterImage(filters[..n], bpp, rows[..n]) + last;
      hide FilterImage;
      LastRow(filters, bpp, rows, width, tail);
      RowRoundTrip(filters[n], bpp, Above(rows[..n]), rows[n]);
      assert rows == rows[..n] + [rows[n]];
    }
  }

  lemma LastRow(filters: seq<byte>, bpp: nat, rows: seq<seq<byte>>, width: nat, tail: seq<byte>)
    requires |filters| == |rows| && rows != [] && forall j :: 0 <= j < |rows| ==> |rows[j]| == width
    ensures var raw := FilterImage(filters, bpp, rows) + tail;
            var n := |rows| - 1;
            && Start(width, n) + width + 1 == Start(width, |rows|) <= |raw|
            && FilterByte(raw, width, n) == filters[n]
            && Encoded(raw, width, n) == FilterRow(filters[n], bpp, Above(rows[..n]), rows[n])
  {
    hide FilterRow, Start;
    var n := |rows| - 1;
    StartStep(width, n);
    FilterImageLength(filters, bpp, rows, width);
    FilterImageLength(filters[..n], bpp, rows[..n], width);
  }
}
