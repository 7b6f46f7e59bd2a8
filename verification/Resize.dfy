/**
 * The scanline ring buffer of stb_image_resize: vertical resampling through a ring of a few scanlines
 * gives the rows that whole-image resampling gives. Scanlines and coefficients are left abstract;
 * `Mac` is one multiply-accumulate of a scanline.
 */
module Resize {
  import opened Arith

  /** One output scanline of an enlargement: the input range, the contributors, and their coefficients. */
  datatype UpRow<Coef> = UpRow(first: int, last: int, n0: int, n1: int, coef: int -> Coef)

  /** One input scanline of a reduction: the same, and the scanline itself. */
  datatype DownRow<Row, Coef> = DownRow(first: int, last: int, n0: int, n1: int, coef: int -> Coef, row: Row)

  // ----- slots

  /** The slot of scanline s in a ring of n entries that starts with scanline `first` at `begin`. */
  function Slot(begin: int, first: int, n: int, s: int): int
    requires n > 0
  {
    (begin + (s - first)) % n
  }

  lemma SlotValue(begin: int, first: int, n: int, s: int)
    requires 0 <= begin < n && 0 <= s - first < n
    ensures Slot(begin, first, n, s) == var x := begin + (s - first); if x < n then x else x - n
  {
    var x := begin + (s - first);
    if x >= n {
      DivModUnique(x, n, 1, x - n);
    } else {
      DivModUnique(x, n, 0, x);
    }
  }

  /** Scanlines that are in the ring together have different slots. */
  lemma SlotsDiffer(begin: int, first: int, n: int, s: int, t: int)
    requires 0 <= begin < n && first <= s < t < first + n
    ensures Slot(begin, first, n, s) != Slot(begin, first, n, t)
  {
    SlotValue(begin, first, n, s);
    SlotValue(begin, first, n, t);
  }

  /** Dropping the first scanline moves the start of the ring, not the scanlines. */
  lemma SlotAfterDrop(begin: int, first: int, n: int, s: int)
    requires 0 <= begin < n && first < s < first + n
    ensures Slot((begin + 1) % n, first + 1, n, s) == Slot(begin, first, n, s)
    ensures 0 <= (begin + 1) % n < n
  {
    SlotValue(begin, first, n, first + 1);
    SlotValue(begin, first, n, s);
    var b := (begin + 1) % n;
    assert b == Slot(begin, first, n, first + 1);
    SlotValue(b, first + 1, n, s);
  }

  // ----- the naive forms

  /** Contributors n0 to k - 1 of an output row, accumulated in order. */
  function UpSum<Row, Coef>(mac: (Row, Row, Coef) -> Row, zero: Row, decode: int -> Row, r: UpRow<Coef>, k: int): Row
    decreases k - r.n0
  {
    if k <= r.n0 then zero
    else mac(UpSum(mac, zero, decode, r, k - 1), decode(k - 1), r.coef(k - 1 - r.n0))
  }

  /** Output row r after the first n input scanlines, accumulated in order. */
  function DownSum<Row, Coef>(mac: (Row, Row, Coef) -> Row, zero: Row, rows: seq<DownRow<Row, Coef>>, r: int, n: nat): Row
    requires n <= |rows|
  {
    if n == 0 then zero else
      var d, acc := rows[n - 1], DownSum(mac, zero, rows, r, n - 1);
      if d.n0 <= r <= d.n1 then mac(acc, d.row, d.coef(r - d.n0)) else acc
  }

  // ----- what the sample ranges must satisfy

  /** Ranges that move forward only, fit the ring and contain their contributors. */
  ghost predicate UpRanges<Coef>(rows: seq<UpRow<Coef>>, entries: int) {
    && (forall y :: 0 <= y < |rows| ==>
          && rows[y].first <= rows[y].last < rows[y].first + entries
          && rows[y].first <= rows[y].n0 && rows[y].n1 <= rows[y].last)
    && forall y, z :: 0 <= y < z < |rows| ==> rows[y].first <= rows[z].first && rows[y].last <= rows[z].last
  }

  /** Reductions: no gap between consecutive ranges, and together they cover the output. */
  ghost predicate DownRanges<Row, Coef>(rows: seq<DownRow<Row, Coef>>, entries: int, output_h: nat) {
    && (forall y :: 0 <= y < |rows| ==>
          && rows[y].first <= rows[y].last < rows[y].first + entries
          && rows[y].first <= rows[y].n0 && rows[y].n1 <= rows[y].last)
    && (forall y, z :: 0 <= y < z < |rows| ==> rows[y].first <= rows[z].first && rows[y].last <= rows[z].last)
    && (forall y :: 0 < y < |rows| ==> rows[y].first <= rows[y - 1].last + 1)
    && (output_h > 0 ==> |rows| > 0 && rows[0].first <= 0 && output_h - 1 <= rows[|rows| - 1].last)
  }

  // ----- the ring

  class Ring<Row, Coef> {
    const entries: nat
    const zero: Row
    const mac: (Row, Row, Coef) -> Row
    const buffer: array<Row>
    /** The slot of the first scanline, or -1 when the ring is empty. */
    var begin_index: int
    var first_scanline: int
    var last_scanline: int

    constructor (n: nat, z: Row, f: (Row, Row, Coef) -> Row)
      requires n > 0
      ensures entries == n && zero == z && mac == f && Valid() && begin_index < 0
      ensures fresh(buffer)
    {
      entries, zero, mac := n, z, f;
      buffer := new Row[n](_ => z);
      begin_index, first_scanline, last_scanline := -1, 0, 0;
    }

    ghost predicate Valid()
      reads this
    {
      && entries > 0 && buffer.Length == entries
      && (begin_index >= 0 ==> begin_index < entries && first_scanline <= last_scanline < first_scanline + entries)
    }

    ghost predicate Live(s: int)
      reads this
    {
      begin_index >= 0 && first_scanline <= s <= last_scanline
    }

    /** The scanline s of the ring, as stbir__get_ring_buffer_scanline finds it. */
    ghost function Line(s: int): Row
      requires Valid() && Live(s)
      reads this, buffer
    {
      SlotValue(begin_index, first_scanline, entries, s);
      buffer[Slot(begin_index, first_scanline, entries, s)]
    }

    /** stbir__add_empty_ring_buffer_entry */
    method AddEmpty(n: int)
      requires Valid()
      requires begin_index >= 0 ==> n == last_scanline + 1 && n < first_scanline + entries
      modifies this, buffer
      ensures Valid() && Live(n) && last_scanline == n && Line(n) == zero
      ensures first_scanline == if old(begin_index) < 0 then n else old(first_scanline)
      ensures forall s :: first_scanline <= s < n ==> old(Live(s)) && Line(s) == old(Line(s))
    {
      hide Slot;
      last_scanline := n;
      var ring_buffer_index: int;
      if begin_index < 0 {
        begin_index := 0;
        ring_buffer_index := 0;
        first_scanline := n;
        SlotValue(0, n, entries, n);
      } else {
        ring_buffer_index := Slot(begin_index, first_scanline, entries, last_scanline);
        SlotValue(begin_index, first_scanline, entries, first_scanline);
        SlotsDiffer(begin_index, first_scanline, entries, first_scanline, n);
        assert ring_buffer_index != begin_index; // the assertion of the source
        SlotValue(begin_index, first_scanline, entries, n);
      }
      forall s | first_scanline <= s < n
        ensures Slot(begin_index, first_scanline, entries, s) != ring_buffer_index
      {
        SlotsDiffer(begin_index, first_scanline, entries, s, n);
      }
      buffer[ring_buffer_index] := zero;
    }

    /** Replace the contents of scanline s. */
    method SetLine(s: int, row: Row)
      requires Valid() && Live(s)
      modifies buffer
      ensures Valid() && Line(s) == row
      ensures forall t :: Live(t) && t != s ==> Line(t) == old(Line(t))
    {
      hide Slot;
      SlotValue(begin_index, first_scanline, entries, s);
      forall t | Live(t) && t != s
        ensures Slot(begin_index, first_scanline, entries, t) != Slot(begin_index, first_scanline, entries, s)
      {
        if t < s {
          SlotsDiffer(begin_index, first_scanline, entries, t, s);
        } else {
          SlotsDiffer(begin_index, first_scanline, entries, s, t);
        }
      }
      buffer[Slot(begin_index, first_scanline, entries, s)] := row;
    }

    method GetLine(s: int) returns (row: Row)
      requires Valid() && Live(s)
      ensures row == Line(s)
    {
      SlotValue(begin_index, first_scanline, entries, s);
      row := buffer[Slot(begin_index, first_scanline, entries, s)];
    }

    /** Drop the first scanline; the ring is reset when it was the only one. */
    method DropFirst()
      requires Valid() && begin_index >= 0
      modifies this
      ensures Valid()
      ensures if old(first_scanline) == old(last_scanline) then begin_index < 0
              else begin_index >= 0 && first_scanline == old(first_scanline) + 1 && last_scanline == old(last_scanline)
      ensures forall s :: Live(s) ==> old(Live(s)) && Line(s) == old(Line(s))
    {
      hide Slot;
      if first_scanline == last_scanline {
        begin_index, first_scanline, last_scanline := -1, 0, 0;
      } else {
        forall s | first_scanline < s <= last_scanline
          ensures Slot((begin_index + 1) % entries, first_scanline + 1, entries, s) == Slot(begin_index, first_scanline, entries, s)
        {
          SlotAfterDrop(begin_index, first_scanline, entries, s);
        }
        SlotAfterDrop(begin_index, first_scanline, entries, last_scanline);
        first_scanline := first_scanline + 1;
        begin_index := (begin_index + 1) % entries;
      }
    }

    // ----- enlarging

    /** Every scanline in the ring is the decoded one. */
    ghost predicate Decoded(decode: int -> Row)
      requires Valid()
      reads this, buffer
    {
      forall s :: Live(s) ==> Line(s) == decode(s)
    }

    /** Drop scanlines before `first`, as far as there are any. */
    method DropBefore(first: int, decode: int -> Row)
      requires Valid() && Decoded(decode)
      modifies this
      ensures Valid() && Decoded(decode)
      ensures begin_index >= 0 ==> old(begin_index) >= 0 && last_scanline == old(last_scanline)
                                   && first_scanline == if first > old(first_scanline) then first else old(first_scanline)
      ensures old(begin_index) >= 0 && begin_index < 0 ==> first > old(last_scanline)
    {
      if begin_index >= 0 {
        while first > first_scanline
          invariant Valid() && begin_index >= 0 && Decoded(decode)
          invariant first_scanline <= (if first > old(first_scanline) then first else old(first_scanline))
          invariant old(first_scanline) <= first_scanline && last_scanline == old(last_scanline)
          decreases last_scanline - first_scanline
        {
          var only := first_scanline == last_scanline;
          DropFirst();
          if only {
            break;
          }
        }
      }
    }

    /** stbir__decode_and_resample_upsample */
    method Load(n: int, decode: int -> Row)
      requires Valid() && Decoded(decode)
      requires begin_index >= 0 ==> n == last_scanline + 1 && n < first_scanline + entries
      modifies this, buffer
      ensures Valid() && Decoded(decode) && Live(n) && last_scanline == n
      ensures first_scanline == if old(begin_index) < 0 then n else old(first_scanline)
    {
      AddEmpty(n);
      SetLine(n, decode(n));
    }

    /** stbir__resample_vertical_upsample */
    method Accumulate(r: UpRow<Coef>, decode: int -> Row) returns (row: Row)
      requires Valid() && Decoded(decode)
      requires forall k :: r.n0 <= k <= r.n1 ==> Live(k)
      ensures row == UpSum(mac, zero, decode, r, r.n1 + 1)
    {
      row := zero;
      var k := r.n0;
      while k <= r.n1
        invariant r.n0 <= k && (k <= r.n1 + 1 || k == r.n0)
        invariant row == UpSum(mac, zero, decode, r, k)
        decreases r.n1 + 1 - k
      {
        var line := GetLine(k);
        row := mac(row, line, r.coef(k - r.n0));
        k := k + 1;
      }
      EmptySum(r, decode, k);
    }

    lemma EmptySum(r: UpRow<Coef>, decode: int -> Row, k: int)
      requires k == r.n1 + 1 || (k == r.n0 && r.n1 < r.n0)
      ensures UpSum(mac, zero, decode, r, k) == UpSum(mac, zero, decode, r, r.n1 + 1)
    {
    }

    /** stbir__buffer_loop_upsample: every output row is the naive sum over its contributors. */
    method Upsample(rows: seq<UpRow<Coef>>, decode: int -> Row) returns (out: seq<Row>)
      requires Valid() && begin_index < 0 && UpRanges(rows, entries)
      modifies this, buffer
      ensures |out| == |rows|
      ensures forall y :: 0 <= y < |rows| ==> out[y] == UpSum(mac, zero, decode, rows[y], rows[y].n1 + 1)
    {
      out := [];
      var y := 0;
      while y < |rows|
        invariant 0 <= y <= |rows| && |out| == y
        invariant Valid() && Decoded(decode)
        invariant begin_index >= 0 <==> y > 0
        invariant y > 0 ==> first_scanline == rows[y - 1].first && last_scanline == rows[y - 1].last
        invariant forall z :: 0 <= z < y ==> out[z] == UpSum(mac, zero, decode, rows[z], rows[z].n1 + 1)
      {
        var r := rows[y];
        LoadRange(r.first, r.last, decode);
        var row := Accumulate(r, decode);
        out := out + [row];
        y := y + 1;
      }
    }

    /** Drop what is no longer needed and load what is: afterwards the ring holds exactly the range. */
    method LoadRange(first: int, last: int, decode: int -> Row)
      requires Valid() && Decoded(decode) && first <= last < first + entries
      requires begin_index >= 0 ==> first_scanline <= first && last_scanline <= last
      modifies this, buffer
      ensures Valid() && Decoded(decode)
      ensures begin_index >= 0 && first_scanline == first && last_scanline == last
    {
      DropBefore(first, decode);
      if begin_index < 0 {
        Load(first, decode);
      }
      while last > last_scanline
        invariant Valid() && Decoded(decode) && begin_index >= 0
        invariant first_scanline == first && last_scanline <= last
        decreases last - last_scanline
      {
        Load(last_scanline + 1, decode);
      }
    }

    // ----- reducing

    /** The encoded output rows 0 to n - 1, in order, each with its accumulated scanline. */
    ghost predicate Encoded(rows: seq<DownRow<Row, Coef>>, n: nat, log: seq<(int, Row)>, count: nat)
      requires n <= |rows|
    {
      |log| == count && forall r :: 0 <= r < count ==> log[r] == (r, DownSum(mac, zero, rows, r, n))
    }

    ghost function Clamp(x: int, h: nat): nat { if x < 0 then 0 else if x > h then h else x }

    /** The ring holds the partial sums of the output rows after n input scanlines. */
    ghost predicate Partial(rows: seq<DownRow<Row, Coef>>, n: nat, h: nat)
      requires Valid() && n <= |rows|
      reads this, buffer
    {
      forall s :: Live(s) && 0 <= s < h ==> Line(s) == DownSum(mac, zero, rows, s, n)
    }

    /** stbir__empty_ring_buffer: encode and drop the scanlines before `need`. */
    method EmptyRing(need: int, output_h: nat, log0: seq<(int, Row)>, ghost rows: seq<DownRow<Row, Coef>>, ghost n: nat)
      returns (log: seq<(int, Row)>)
      requires Valid() && n <= |rows| && Partial(rows, n, output_h)
      requires begin_index >= 0 ==> Encoded(rows, n, log0, Clamp(first_scanline, output_h))
      modifies this
      ensures Valid() && Partial(rows, n, output_h)
      ensures old(begin_index) < 0 ==> begin_index < 0 && log == log0
      ensures begin_index >= 0 ==>
                && last_scanline == old(last_scanline)
                && first_scanline == (if need > old(first_scanline) then need else old(first_scanline))
                && Encoded(rows, n, log, Clamp(first_scanline, output_h))
      ensures old(begin_index) >= 0 && begin_index < 0 ==>
                need > old(last_scanline) && Encoded(rows, n, log, Clamp(old(last_scanline) + 1, output_h))
    {
      hide DownSum;
      log := log0;
      if begin_index >= 0 {
        while need > first_scanline
          invariant Valid() && begin_index >= 0 && Partial(rows, n, output_h)
          invariant first_scanline <= (if need > old(first_scanline) then need else old(first_scanline))
          invariant old(first_scanline) <= first_scanline && last_scanline == old(last_scanline)
          invariant Encoded(rows, n, log, Clamp(first_scanline, output_h))
          decreases last_scanline - first_scanline
        {
          if first_scanline >= 0 && first_scanline < output_h {
            var row := GetLine(first_scanline);
            log := log + [(first_scanline, row)];
          }
          var only := first_scanline == last_scanline;
          DropFirst();
          if only {
            break;
          }
        }
      }
    }

    /** Make room for the output rows of one input scanline; afterwards the ring holds exactly its range. */
    method OpenRange(first: int, last: int, ghost rows: seq<DownRow<Row, Coef>>, ghost n: nat, ghost h: nat, ghost end: int)
      requires Valid() && n <= |rows| && Partial(rows, n, h) && first <= last < first + entries
      requires begin_index >= 0 ==> first_scanline == first && last_scanline <= last && end == last_scanline + 1
      requires begin_index < 0 ==> first <= end && (first < end ==> end <= 0)
      requires Untouched(rows, n, h, end)
      modifies this, buffer
      ensures Valid() && Partial(rows, n, h)
      ensures begin_index >= 0 && first_scanline == first && last_scanline == last
    {
      hide DownSum;
      if begin_index < 0 {
        AddEmpty(first);
      }
      while last > last_scanline
        invariant Valid() && begin_index >= 0 && Partial(rows, n, h)
        invariant first_scanline == first && last_scanline <= last
        invariant end <= last_scanline + 1 || last_scanline + 1 <= 0
        decreases last - last_scanline
      {
        AddEmpty(last_scanline + 1);
      }
    }

    /** stbir__resample_vertical_downsample */
    method Distribute(d: DownRow<Row, Coef>, ghost rows: seq<DownRow<Row, Coef>>, ghost n: nat, ghost h: nat)
      requires Valid() && n < |rows| && rows[n] == d && Partial(rows, n, h)
      requires forall k :: d.n0 <= k <= d.n1 ==> Live(k)
      modifies buffer
      ensures Valid() && Partial(rows, n + 1, h)
    {
      var k := d.n0;
      while k <= d.n1
        invariant Valid() && d.n0 <= k
        invariant forall s :: Live(s) && 0 <= s < h ==>
                    Line(s) == DownSum(mac, zero, rows, s, if d.n0 <= s < k then n + 1 else n)
        decreases d.n1 + 1 - k
      {
        var line := GetLine(k);
        SetLine(k, mac(line, d.row, d.coef(k - d.n0)));
        k := k + 1;
      }
    }

    /** Input scanlines whose range misses the output contribute to no output row. */
    lemma SkippedRow(rows: seq<DownRow<Row, Coef>>, n: nat, h: nat, s: int)
      requires n < |rows| && DownRanges(rows, entries, h) && 0 <= s < h
      requires rows[n].last < 0 || rows[n].first >= h
      ensures DownSum(mac, zero, rows, s, n + 1) == DownSum(mac, zero, rows, s, n)
    {
    }

    /** Nor does a scanline whose range lies behind the row. */
    lemma PassedRow(rows: seq<DownRow<Row, Coef>>, n: nat, h: nat, s: int)
      requires n < |rows| && DownRanges(rows, entries, h) && (s < rows[n].first || rows[n].last < s)
      ensures DownSum(mac, zero, rows, s, n + 1) == DownSum(mac, zero, rows, s, n)
    {
    }

    /** Output rows from `end` on have received nothing. */
    ghost predicate Untouched(rows: seq<DownRow<Row, Coef>>, n: nat, h: nat, end: int)
      requires n <= |rows|
    {
      forall s :: end <= s && 0 <= s < h ==> DownSum(mac, zero, rows, s, n) == zero
    }

    /**
     * Between input scanlines: rows before `next` are encoded, rows from `next` to `end` are in the
     * ring, rows from `end` on have received nothing.
     */
    ghost predicate Between(rows: seq<DownRow<Row, Coef>>, n: nat, h: nat, log: seq<(int, Row)>, next: int, end: int)
      requires n <= |rows|
      reads this, buffer
    {
      && Valid() && Partial(rows, n, h)
      && (if begin_index >= 0 then next == first_scanline && end == last_scanline + 1 else next == end)
      && Encoded(rows, n, log, Clamp(next, h))
      && Untouched(rows, n, h, end)
      && 0 <= end
      && (n < |rows| ==> next <= rows[n].first || next <= 0)
      && (n < |rows| && begin_index >= 0 ==> next <= rows[n].first && end <= rows[n].last + 1)
      && (n < |rows| ==> rows[n].first <= end || h <= end)
      && (n == |rows| && h > 0 ==> h <= end)
    }

    /** stbir__buffer_loop_downsample: every output row once, in order, with the naive sum. */
    method Downsample(rows: seq<DownRow<Row, Coef>>, output_h: nat) returns (log: seq<(int, Row)>)
      requires Valid() && begin_index < 0 && DownRanges(rows, entries, output_h)
      modifies this, buffer
      ensures |log| == output_h
      ensures forall r :: 0 <= r < output_h ==> log[r] == (r, DownSum(mac, zero, rows, r, |rows|))
    {
      hide DownSum;
      log := [];
      var y := 0;
      ghost var next, end := 0, 0;
      NothingYet(rows);
      while y < |rows|
        invariant 0 <= y <= |rows|
        invariant Between(rows, y, output_h, log, next, end)
      {
        var d := rows[y];
        if d.last < 0 || d.first >= output_h {
          Skip(rows, y, output_h, log, next, end);
        } else {
          log := EmptyRing(d.first, output_h, log, rows, y);
          OpenRange(d.first, d.last, rows, y, output_h, end);
          Distribute(d, rows, y, output_h);
          next, end := d.first, d.last + 1;
          Advance(rows, y, output_h, log);
        }
        y := y + 1;
      }
      log := EmptyRing(output_h, output_h, log, rows, |rows|);
    }

    lemma NextRange(rows: seq<DownRow<Row, Coef>>, n: nat, h: nat)
      requires n < |rows| && DownRanges(rows, entries, h)
      ensures n + 1 < |rows| ==> rows[n].first <= rows[n + 1].first <= rows[n].last + 1 && rows[n].last <= rows[n + 1].last
      ensures n + 1 == |rows| && h > 0 ==> h - 1 <= rows[n].last
    {
      if n + 1 < |rows| {
        assert rows[n + 1].first <= rows[n + 1 - 1].last + 1;
      }
    }

    lemma NothingYet(rows: seq<DownRow<Row, Coef>>)
      ensures forall s :: DownSum(mac, zero, rows, s, 0) == zero
    {
    }

    lemma Skip(rows: seq<DownRow<Row, Coef>>, n: nat, h: nat, log: seq<(int, Row)>, next: int, end: int)
      requires n < |rows| && DownRanges(rows, entries, h) && Between(rows, n, h, log, next, end)
      requires rows[n].last < 0 || rows[n].first >= h
      ensures Between(rows, n + 1, h, log, next, end)
    {
      hide DownSum;
      var m := n + 1;
      forall s | 0 <= s < h
        ensures DownSum(mac, zero, rows, s, m) == DownSum(mac, zero, rows, s, n)
      {
        SkippedRow(rows, n, h, s);
      }
      assert Untouched(rows, n, h, end);
      forall s | end <= s && 0 <= s < h
        ensures DownSum(mac, zero, rows, s, m) == zero
      {
        assert DownSum(mac, zero, rows, s, n) == zero;
      }
      NextRange(rows, n, h);
    }

    lemma Advance(rows: seq<DownRow<Row, Coef>>, n: nat, h: nat, log: seq<(int, Row)>)
      requires n < |rows| && DownRanges(rows, entries, h) && Valid() && Partial(rows, n + 1, h)
      requires begin_index >= 0 && first_scanline == rows[n].first && last_scanline == rows[n].last
      requires rows[n].first < h && 0 <= rows[n].last
      requires Encoded(rows, n, log, Clamp(rows[n].first, h))
      requires Untouched(rows, n, h, rows[n].last + 1)
      ensures Between(rows, n + 1, h, log, rows[n].first, rows[n].last + 1)
    {
      hide DownSum;
      var m := n + 1;
      forall s | s < rows[n].first || rows[n].last < s
        ensures DownSum(mac, zero, rows, s, m) == DownSum(mac, zero, rows, s, n)
      {
        PassedRow(rows, n, h, s);
      }
      forall s | rows[n].last + 1 <= s && 0 <= s < h
        ensures DownSum(mac, zero, rows, s, m) == zero
      {
        assert DownSum(mac, zero, rows, s, n) == zero;
      }
      NextRange(rows, n, h);
    }
  }
}
