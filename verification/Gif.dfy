/** stbi__gif: painting decoded indices, and stbi__process_gif_raster. */
module Gif {
  import opened Collections
  import opened Arith
  import opened Bits
  import opened BitStream
  import opened GifSpec
  import opened GifTable
  import opened GifRaster

  /** Locals of stbi__process_gif_raster that one code can change. */
  datatype Registers = Registers(avail: nat, oldcode: int, codesize: nat, first: bool)

  /** The entries below the clear code, which no code ever changes. */
  ghost predicate SingleBytes(cs: nat, codes: seq<Lzw>) {
    Pow2(cs) <= |codes| && forall c :: 0 <= c < Pow2(cs) ==> codes[c] == Lzw(-1, c % 256, c % 256)
  }

  /** The reader's place in the sub-blocks and the bits it has loaded but not used. */
  datatype BitBuffer = BitBuffer(pos: nat, len: nat, bits: nat, valid_bits: nat)
  {
    ghost function Position(k: nat): int { 8 * k - valid_bits }
  }

  datatype Progress = Continue | Finished | Error

  class Gif {
    ghost const frame: Frame
    const color_table: seq<byte>
    const line_size: nat
    const start_x: nat
    const start_y: nat
    const max_x: nat
    const max_y: nat

    var codes: seq<Lzw>
    const out: array<byte>
    const history: array<byte>
    var cur_x: nat
    var cur_y: nat
    var step: nat
    var parse: nat

    /** Rows finished, the row and column of the cursor, and its row spacing. */
    ghost var rows: nat
    ghost var row: nat
    ghost var col: nat
    ghost var spacing: nat

    /** The part of stbi__gif_load_next that sets up the rectangle of an image descriptor. */
    constructor (f: Frame, table: seq<byte>, image: array<byte>, touched: array<byte>)
      requires f.Inside() && |table| == 1024 && image != touched
      requires image.Length == 4 * (f.W * f.H) && touched.Length == f.W * f.H
      ensures frame == f && color_table == table && out == image && history == touched
      ensures Valid() && CursorAt(0)
    {
      frame, color_table, out, history := f, table, image, touched;
      line_size := f.W * 4;
      start_x := f.x * 4;
      start_y := f.y * (f.W * 4);
      max_x := f.x * 4 + f.w * 4;
      max_y := f.y * (f.W * 4) + f.h * (f.W * 4);
      codes := seq(TABLE_SIZE, _ => Lzw(-1, 0, 0));
      cur_x := f.x * 4;
      cur_y := if f.w == 0 then f.y * (f.W * 4) + f.h * (f.W * 4) else f.y * (f.W * 4);
      step := if f.interlaced then 8 * (f.W * 4) else f.W * 4;
      parse := if f.interlaced then 3 else 0;
      rows, row, col := 0, 0, 0;
      spacing := if f.interlaced then 8 else 1;
      new;
      RemainingAtStart(f.interlaced, f.h);
      RowCount(f.interlaced, f.h);
      StartOffsets();
    }

    lemma StartOffsets()
      ensures frame.y * (frame.W * 4) == frame.RowOffset(0)
      ensures frame.y * (frame.W * 4) + frame.h * (frame.W * 4) == frame.RowOffset(frame.h)
    {
      assert (frame.y + frame.h) * (4 * frame.W) == frame.y * (4 * frame.W) + frame.h * (4 * frame.W);
    }

    ghost predicate Valid()
      reads this`codes
    {
      && frame.Inside() && |color_table| == 1024 && out != history
      && out.Length == 4 * (frame.W * frame.H) && history.Length == frame.W * frame.H
      && line_size == 4 * frame.W && start_x == 4 * frame.x && start_y == frame.RowOffset(0)
      && max_x == 4 * (frame.x + frame.w) && max_y == frame.RowOffset(frame.h)
      && |codes| == TABLE_SIZE
    }

    /** The rows still to come are those of the order behind the finished ones. */
    ghost predicate OnRow()
      reads this`cur_y, this`step, this`parse, this`rows, this`row, this`spacing
    {
      && spacing > 0 && step == spacing * line_size && cur_y == frame.RowOffset(row)
      && rows <= frame.h == |RowOrder(frame.interlaced, frame.h)|
      && Remaining(row, spacing, parse, frame.h) == RowOrder(frame.interlaced, frame.h)[rows..]
    }

    /** The cursor stands where the n-th index goes, or past the rectangle when it is full. */
    ghost predicate CursorAt(n: nat)
      reads this`cur_x, this`cur_y, this`step, this`parse, this`rows, this`row, this`col, this`spacing
    {
      if frame.w == 0 then cur_y >= max_y else
        && OnRow() && (row < frame.h <==> rows < frame.h)
        && (if rows < frame.h then n == rows * frame.w + col && col < frame.w && cur_x == start_x + 4 * col
            else n >= frame.h * frame.w)
    }

    ghost predicate Shows(img: seq<byte>, hist: seq<byte>, indices: seq<byte>)
      requires Valid() && |img| == out.Length && |hist| == history.Length
      reads this, out, history
    {
      && CursorAt(|indices|)
      && out[..] == Painted(frame, img, color_table, indices)
      && history[..] == Touched(frame, hist, |indices|)
    }

    // ----- the cursor

    /** An unfinished rectangle has its cursor row next in the order; a finished one is past the last row. */
    lemma CursorRow(n: nat)
      requires Valid() && CursorAt(n) && frame.w > 0
      ensures cur_y >= max_y <==> rows == frame.h
      ensures rows < frame.h ==> row < frame.h && row == RowOrder(frame.interlaced, frame.h)[rows]
    {
      frame.RowOffsetOrder(row);
      var rest := RowOrder(frame.interlaced, frame.h)[rows..];
      if row < frame.h {
        assert rest[0] == row;
      }
    }

    /** The end of a row: on to the next row of the pass, or to the first row of the next pass that has one. */
    method NextRow(ghost n: nat)
      requires Valid() && frame.w > 0 && OnRow() && row < frame.h
      requires n == (rows + 1) * frame.w
      modifies this`cur_x, this`cur_y, this`step, this`parse, this`rows, this`row, this`col, this`spacing
      ensures CursorAt(n)
    {
      hide Remaining, RowOrder, Frame.RowOffset;
      cur_x := start_x;
      SumOffset(row, spacing);
      PassAdvances();
      cur_y := cur_y + step;
      row := row + spacing;
      rows, col := rows + 1, 0;
      SkipEmptyPasses();
      RowsLeft();
    }

    /** `while (g->cur_y >= g->max_y && g->parse > 0)` */
    method SkipEmptyPasses()
      requires Valid() && frame.w > 0 && OnRow()
      modifies this`cur_y, this`step, this`parse, this`row, this`spacing
      ensures OnRow() && (row < frame.h || parse == 0)
    {
      hide Remaining, RowOrder, Frame.RowOffset;
      frame.RowOffsetOrder(row);
      while cur_y >= max_y && parse > 0
        invariant OnRow() && (cur_y >= max_y <==> row >= frame.h)
        decreases parse
      {
        HalfStep(parse);
        PassEnds(row, spacing, parse, frame.h);
        step := Pow2(parse) * line_size;
        cur_y := start_y + step / 2;
        spacing, row := Pow2(parse), Pow2(parse) / 2;
        parse := parse - 1;
        frame.RowOffsetOrder(row);
      }
    }

    lemma PassAdvances()
      requires OnRow() && row < frame.h
      ensures rows < frame.h
      ensures Remaining(row + spacing, spacing, parse, frame.h) == RowOrder(frame.interlaced, frame.h)[rows + 1..]
    {
      hide RowOrder;
      var order := RowOrder(frame.interlaced, frame.h);
      var rest := order[rows..];
      assert Remaining(row, spacing, parse, frame.h)[1..] == Remaining(row + spacing, spacing, parse, frame.h);
      assert rest != [] && rest[1..] == order[rows + 1..];
    }

    lemma PassEnds(r: nat, s: nat, p: nat, h: nat)
      requires s > 0 && p > 0 && r >= h
      ensures Remaining(r, s, p, h) == Remaining(Pow2(p) / 2, Pow2(p), p - 1, h)
    {
    }

    /** A cursor past the last row of the last pass has no rows left, any other cursor has. */
    lemma RowsLeft()
      requires OnRow() && (row < frame.h || parse == 0)
      ensures row < frame.h <==> rows < frame.h
    {
      hide RowOrder;
      var rest := RowOrder(frame.interlaced, frame.h)[rows..];
      if row < frame.h {
        assert rest[0] == row;
      } else {
        assert rest == [];
      }
    }

    lemma SumOffset(r: nat, s: nat)
      requires Valid()
      ensures frame.RowOffset(r) + s * line_size == frame.RowOffset(r + s)
    {
      assert (frame.y + r + s) * (4 * frame.W) == (frame.y + r) * (4 * frame.W) + s * (4 * frame.W);
    }

    lemma HalfStep(p: nat)
      requires Valid() && p > 0
      ensures Pow2(p) * line_size >= 0
      ensures start_y + Pow2(p) * line_size / 2 == frame.RowOffset(Pow2(p) / 2)
    {
      hide Frame.RowOffset;
      var h := Pow2(p - 1);
      SumOffset(0, h);
      Halve(h, line_size);
    }

    lemma Halve(h: nat, n: nat)
      ensures 0 <= 2 * h * n && 2 * h * n / 2 == h * n && 2 * h / 2 == h
    {
      assert 2 * h * n == 2 * (h * n);
    }

    lemma NextCount(n: nat)
      requires CursorAt(n) && frame.w > 0 && rows < frame.h && col == frame.w - 1
      ensures n + 1 == (rows + 1) * frame.w
    {
      assert (rows + 1) * frame.w == rows * frame.w + frame.w;
    }

    // ----- pixels

    /** The part of stbi__out_gif_code behind the recursion: one index. */
    method PutPixel(i: byte, ghost img: seq<byte>, ghost hist: seq<byte>, ghost indices: seq<byte>)
      requires Valid() && |img| == out.Length && |hist| == history.Length && Shows(img, hist, indices)
      modifies this`cur_x, this`cur_y, this`step, this`parse, this`rows, this`row, this`col, this`spacing, out, history
      ensures Shows(img, hist, indices + [i])
    {
      hide Plot, Painted, Touched, RowOrder, Remaining;
      ghost var n := |indices|;
      ghost var order := RowOrder(frame.interlaced, frame.h);
      if cur_y >= max_y {
        PaintedFull(img, hist, indices, i);
        return;
      }
      CursorPlace(n);
      PaintedNext(img, hist, indices, i);
      if col == frame.w - 1 {
        NextCount(n);
      }
      var idx := cur_x + cur_y;
      Render(idx, i);
      cur_x := cur_x + 4;
      if cur_x >= max_x {
        NextRow(n + 1);
      } else {
        col := col + 1;
      }
    }

    /** `history` and the four bytes of the pixel. */
    method Render(idx: nat, i: byte)
      requires Valid() && idx + 3 < out.Length && idx / 4 < history.Length
      modifies out, history
      ensures history[..] == old(history[..])[idx / 4 := 1]
      ensures out[..] == Plot(old(out[..]), idx, color_table, i)
    {
      history[idx / 4] := 1;
      ghost var img := out[..];
      assert img == old(out[..]);
      if color_table[4 * i + 3] > 128 { // transparent pixels stay as they are
        out[idx] := color_table[4 * i + 2];
        out[idx + 1] := color_table[4 * i + 1];
        out[idx + 2] := color_table[4 * i];
        out[idx + 3] := color_table[4 * i + 3];
      }
      assert out[..] == Plot(img, idx, color_table, i);
    }

    /** The rectangle is full: further indices change nothing. */
    lemma PaintedFull(img: seq<byte>, hist: seq<byte>, indices: seq<byte>, i: byte)
      requires Valid() && |img| == out.Length && |hist| == history.Length && Shows(img, hist, indices)
      requires cur_y >= max_y
      ensures CursorAt(|indices| + 1)
      ensures Painted(frame, img, color_table, indices + [i]) == Painted(frame, img, color_table, indices)
      ensures Touched(frame, hist, |indices| + 1) == Touched(frame, hist, |indices|)
    {
      hide Plot, RowOrder, Remaining;
      var n := |indices|;
      assert (indices + [i])[..n] == indices;
      if frame.w > 0 {
        CursorRow(n);
        QuotientFull(n, frame.w, frame.h);
      }
    }

    lemma QuotientFull(n: nat, w: nat, h: nat)
      requires w > 0 && n >= h * w
      ensures n / w >= h
    {
      assert n == w * (n / w) + n % w;
      if n / w < h {
        MulLe(n / w + 1, h, w);
      }
    }

    /** The cursor is at the offset of the n-th pixel of the decoding order. */
    lemma CursorPlace(n: nat)
      requires Valid() && CursorAt(n) && cur_y < max_y
      ensures frame.w > 0 && rows < frame.h && row < frame.h
      ensures n / frame.w == rows && n % frame.w == col < frame.w
      ensures cur_x + cur_y == frame.PixelOffset(n)
      ensures cur_x + cur_y + 3 < out.Length && (cur_x + cur_y) / 4 < history.Length
      ensures cur_x + 4 >= max_x <==> col == frame.w - 1
    {
      hide RowOrder, Remaining;
      CursorRow(n);
      DivModUnique(n, frame.w, rows, col);
      frame.OffsetBound(row, col);
    }

    lemma PaintedNext(img: seq<byte>, hist: seq<byte>, indices: seq<byte>, i: byte)
      requires Valid() && |img| == out.Length && |hist| == history.Length
      requires var n := |indices|; frame.w > 0 && n / frame.w < frame.h
      ensures var n := |indices|;
              && frame.PixelOffset(n) + 3 < out.Length && frame.PixelOffset(n) / 4 < history.Length
              && Painted(frame, img, color_table, indices + [i])
                 == Plot(Painted(frame, img, color_table, indices), frame.PixelOffset(n), color_table, i)
              && Touched(frame, hist, n + 1) == Touched(frame, hist, n)[frame.PixelOffset(n) / 4 := 1]
    {
      hide Plot, RowOrder, Frame.PixelOffset, Painted, Touched;
      PixelBound(|indices|);
      PaintedSnoc(frame, img, color_table, indices, i);
      TouchedNext(frame, hist, |indices|);
    }

    lemma PixelBound(n: nat)
      requires Valid() && frame.w > 0 && n / frame.w < frame.h
      ensures frame.PixelOffset(n) + 3 < out.Length && frame.PixelOffset(n) / 4 < history.Length
    {
      hide RowOrder;
      RowCount(frame.interlaced, frame.h);
      RowInRange(frame.interlaced, frame.h, n / frame.w);
      frame.OffsetBound(RowOrder(frame.interlaced, frame.h)[n / frame.w], n % frame.w);
    }

    /** stbi__out_gif_code: the string of a code, in order. */
    method OutCode(code: nat, ghost cs: nat, ghost dict: seq<seq<byte>>,
                   ghost img: seq<byte>, ghost hist: seq<byte>, ghost indices: seq<byte>)
      requires Valid() && |img| == out.Length && |hist| == history.Length && Shows(img, hist, indices)
      requires TableOf(cs, codes, dict) && code < |dict| && !Special(cs, code)
      modifies this`cur_x, this`cur_y, this`step, this`parse, this`rows, this`row, this`col, this`spacing, out, history
      ensures Shows(img, hist, indices + dict[code])
      decreases code
    {
      hide Painted, Touched, CursorAt;
      assert Entry(cs, codes, code, dict[code]);
      if codes[code].prefix >= 0 {
        var p := codes[code].prefix;
        assert Entry(cs, codes, p, dict[p]);
        assert indices + dict[code] == indices + dict[p] + [codes[code].suffix];
        OutCode(p, cs, dict, img, hist, indices);
        PutPixel(codes[code].suffix, img, hist, indices + dict[p]);
      } else {
        assert indices + dict[code] == indices + [codes[code].suffix];
        PutPixel(codes[code].suffix, img, hist, indices);
      }
    }

    // ----- one code

    /**
     * The table without the dictionary limit (`full`) and the registers stand for the state of the
     * format's decoder; entries behind the dictionary limit can be written but never named by a code.
     */
    ghost predicate Represents(cs: nat, r: Registers, st: State, full: seq<seq<byte>>)
      reads this`codes
    {
      && cs <= 12 && Usable(cs, st) && TableOf(cs, codes, full)
      && r.avail == |full| == st.entries <= TABLE_SIZE
      && st.dict == full[..if r.avail < DictionaryLimit(cs) then r.avail else DictionaryLimit(cs)]
      && r.oldcode == st.prev && r.codesize == st.width && r.first == !st.started
      && (if cs < 12 then r.codesize <= 12 else r.codesize == 13)
      && SingleBytes(cs, codes)
    }

    /** What one code does to the table, the registers and the image. */
    method TakeCode(ghost cs: nat, clear: nat, lzw_cs: nat, r: Registers, code: nat, ghost st: State, ghost full: seq<seq<byte>>,
                    ghost img: seq<byte>, ghost hist: seq<byte>, ghost indices: seq<byte>)
      returns (next: Progress, r': Registers, ghost full': seq<seq<byte>>)
      requires Valid() && |img| == out.Length && |hist| == history.Length && Shows(img, hist, indices)
      requires lzw_cs == cs && clear == Pow2(cs)
      requires Represents(cs, r, st, full) && code < Pow2(r.codesize)
      modifies this`codes, this`cur_x, this`cur_y, this`step, this`parse, this`rows, this`row, this`col, this`spacing, out, history
      ensures Valid()
      ensures match Step(cs, st, code, TABLE_SIZE)
              case Output(st', s) => next == Continue && Represents(cs, r', st', full') && Shows(img, hist, indices + s)
              case Stop => next == Finished && Shows(img, hist, indices)
              case Illegal => next == Error
    {
      hide Step, Painted, Touched, CursorAt, Initial, TableOf, Usable;
      next, r', full' := Continue, r, full;
      CodeInRange(cs, r, st, full, code);
      if code == clear { // clear code
        StepClear(cs, r, st, full);
        full' := Initial(cs, true).dict;
        r' := Registers(clear + 2, -1, lzw_cs + 1, false);
        assert indices + [] == indices;
      } else if code == clear + 1 { // end of stream code
        StepStop(cs, st);
        next := Finished;
      } else if code <= r.avail {
        if r.first {
          StepNotStarted(cs, st, code);
          return Error, r, full; // no clear code
        }
        next, r', full' := TakeString(cs, r, code, st, full, img, hist, indices);
      } else {
        StepUnknown(cs, r, st, full, code);
        next := Error; // illegal code in raster
      }
    }

    /** A code that names a string: make the new entry, then print the string. */
    method TakeString(ghost cs: nat, r: Registers, code: nat, ghost st: State, ghost full: seq<seq<byte>>,
                      ghost img: seq<byte>, ghost hist: seq<byte>, ghost indices: seq<byte>)
      returns (next: Progress, r': Registers, ghost full': seq<seq<byte>>)
      requires Valid() && |img| == out.Length && |hist| == history.Length && Shows(img, hist, indices)
      requires Represents(cs, r, st, full) && !r.first && !Special(cs, code)
      requires code <= r.avail && code < DictionaryLimit(cs)
      modifies this`codes, this`cur_x, this`cur_y, this`step, this`parse, this`rows, this`row, this`col, this`spacing, out, history
      ensures Valid()
      ensures match Step(cs, st, code, TABLE_SIZE)
              case Output(st', s) => next == Continue && Represents(cs, r', st', full') && Shows(img, hist, indices + s)
              case Stop => false
              case Illegal => next == Error
    {
      hide Step, Painted, Touched, CursorAt, TableOf, Usable, Low, Special, Pow2, DictionaryLimit;
      next, r', full' := Continue, r, full;
      var avail := r.avail;
      NotSpecial(cs, r, st, full);
      if r.oldcode >= 0 {
        if avail + 1 > TABLE_SIZE {
          StepTooMany(cs, st, code);
          return Error, r, full; // too many codes
        }
        full' := AddEntry(cs, r, code, st, full);
        avail := avail + 1;
      } else if code == avail {
        StepUnknown(cs, r, st, full, code);
        return Error, r, full; // illegal code in raster
      }
      StepKnown(cs, r, st, full, code, full');
      GrowBound(cs, r.codesize, avail);
      TableShape(cs, full');
      OutCode(code, cs, full', img, hist, indices);
      r' := Registers(avail, code, if Low(avail, r.codesize) == 0 && avail <= 0x0FFF then r.codesize + 1 else r.codesize, false);
    }

    /** Code sizes never pass twelve bits, or stay at thirteen. */
    lemma GrowBound(cs: nat, width: nat, size: nat)
      requires cs <= 12 && Pow2(cs) + 2 <= size && (if cs < 12 then width <= 12 else width == 13)
      ensures if cs < 12 then Grow(size, width) <= 12 else Grow(size, width) == 13
    {
      hide Low;
      assert Pow2(12) == 4096;
      if width == 12 && size < 4096 {
        LowSmall(size, 12);
      }
    }

    /** The new entry of the string table. */
    method AddEntry(ghost cs: nat, r: Registers, code: nat, ghost st: State, ghost full: seq<seq<byte>>) returns (ghost full': seq<seq<byte>>)
      requires Represents(cs, r, st, full) && r.oldcode >= 0 && r.avail < TABLE_SIZE
      requires code <= r.avail && !Special(cs, code)
      modifies this`codes
      ensures TableOf(cs, codes, full')
      ensures full[st.prev] != [] && (code < |full| ==> full[code] != [])
      ensures full' == full + [full[st.prev] + [if code == |full| then full[st.prev][0] else full[code][0]]]
      ensures SingleBytes(cs, codes)
    {
      hide TableOf, Pow2;
      NotSpecial(cs, r, st, full);
      ghost var before := codes;
      TableShape(cs, full);
      var first := codes[r.oldcode].first;
      codes := codes[r.avail := Lzw(r.oldcode, first, codes[r.avail].suffix)];
      var suffix := if code == r.avail + 1 then first else codes[code].first;
      codes := codes[r.avail := Lzw(r.oldcode, first, suffix)];
      NewEntry(cs, before, full, r.oldcode, code, codes);
      full' := full + [full[st.prev] + [if code == |full| then full[st.prev][0] else full[code][0]]];
    }

    lemma TableShape(cs: nat, full: seq<seq<byte>>)
      requires TableOf(cs, codes, full)
      ensures |full| <= |codes| == TABLE_SIZE
    {
    }

    lemma NotSpecial(cs: nat, r: Registers, st: State, full: seq<seq<byte>>)
      requires Represents(cs, r, st, full)
      ensures !Special(cs, |full|) && (st.prev >= 0 ==> !Special(cs, st.prev) && st.prev < |st.dict| <= |full|)
      ensures Pow2(cs) + 2 <= |st.dict| <= |full|
    {
    }

    // ----- the cases of the format's decoder, as the source tells them apart

    lemma CodeInRange(cs: nat, r: Registers, st: State, full: seq<seq<byte>>, code: nat)
      requires Represents(cs, r, st, full) && code < Pow2(r.codesize)
      ensures code < DictionaryLimit(cs) && code < TABLE_SIZE
    {
      hide TableOf, Usable;
      Pow2Monotone(r.codesize, if cs < 12 then 12 else 13);
      Pow2Values();
      assert Pow2(12) == 4096;
    }

    lemma StepClear(cs: nat, r: Registers, st: State, full: seq<seq<byte>>)
      requires Represents(cs, r, st, full)
      ensures Step(cs, st, Pow2(cs), TABLE_SIZE) == Output(Initial(cs, true), [])
      ensures Represents(cs, Registers(Pow2(cs) + 2, -1, cs + 1, false), Initial(cs, true), Initial(cs, true).dict)
    {
      hide Usable, Initial, TableOf;
      TableShape(cs, full);
      ClearedTable(cs, true);
    }

    /** A cleared table: only single bytes, whatever stale entries lie behind them. */
    lemma ClearedTable(cs: nat, started: bool)
      requires cs <= 12 && |codes| == TABLE_SIZE && SingleBytes(cs, codes)
      ensures Represents(cs, Registers(Pow2(cs) + 2, -1, cs + 1, !started), Initial(cs, started), Initial(cs, started).dict)
    {
      hide Usable, TableOf, Pow2;
      InitialUsable(cs, started);
      SmallClear(cs);
      InitialTable(cs, codes, started);
      var dict := Initial(cs, started).dict;
      assert dict[..|dict|] == dict;
      ClearedLimit(cs, dict);
    }

    /** With thirteen-bit codes the limit is the table; otherwise the single bytes are below it. */
    lemma ClearedLimit(cs: nat, dict: seq<seq<byte>>)
      requires cs <= 12 && |dict| == Pow2(cs) + 2
      ensures |dict| <= DictionaryLimit(cs)
    {
      SmallClear(cs);
    }

    lemma SmallClear(cs: nat)
      requires cs <= 12
      ensures Pow2(cs) + 2 <= TABLE_SIZE
      ensures cs < 12 ==> Pow2(cs) + 2 <= DictionaryLimit(cs)
    {
      Pow2Monotone(cs, if cs < 12 then 11 else 12);
      assert Pow2(12) == 4096 && Pow2(11) == 2048;
    }

    lemma StepStop(cs: nat, st: State)
      requires Usable(cs, st)
      ensures Step(cs, st, Pow2(cs) + 1, TABLE_SIZE) == Stop
    {
      hide Usable;
    }

    lemma StepNotStarted(cs: nat, st: State, code: nat)
      requires Usable(cs, st) && !Special(cs, code) && !st.started
      ensures Step(cs, st, code, TABLE_SIZE) == Illegal
    {
      hide Usable;
    }

    lemma StepTooMany(cs: nat, st: State, code: nat)
      requires Usable(cs, st) && !Special(cs, code) && st.prev >= 0 && st.entries >= TABLE_SIZE
      ensures Step(cs, st, code, TABLE_SIZE) == Illegal
    {
      hide Usable;
    }

    /** A code behind the table, or the next entry when there is no previous code to make it from. */
    lemma StepUnknown(cs: nat, r: Registers, st: State, full: seq<seq<byte>>, code: nat)
      requires Represents(cs, r, st, full) && !Special(cs, code)
      requires code > |full| || (code == |full| && st.prev < 0)
      ensures Step(cs, st, code, TABLE_SIZE) == Illegal
    {
      hide TableOf;
    }

    /** A code whose string the table, extended by the new entry if there is one, can spell. */
    lemma StepKnown(cs: nat, r: Registers, st: State, full: seq<seq<byte>>, code: nat, full': seq<seq<byte>>)
      requires cs <= 12 && Usable(cs, st) && |full| == st.entries <= TABLE_SIZE && st.started && !Special(cs, code)
      requires st.dict == full[..if |full| < DictionaryLimit(cs) then |full| else DictionaryLimit(cs)]
      requires code < DictionaryLimit(cs) && code <= |full|
      requires if st.prev < 0 then full' == full && code < |full|
               else |full| < TABLE_SIZE && full[st.prev] != [] && (code < |full| ==> full[code] != [])
                    && full' == full + [full[st.prev] + [if code == |full| then full[st.prev][0] else full[code][0]]]
      ensures code < |full'|
      ensures var dict' := full'[..if |full'| < DictionaryLimit(cs) then |full'| else DictionaryLimit(cs)];
              Step(cs, st, code, TABLE_SIZE) == Output(State(dict', code, Grow(|full'|, st.width), true, |full'|), full'[code])
    {
      hide Pow2, Grow;
      var limit := DictionaryLimit(cs);
      var dict' := full'[..if |full'| < limit then |full'| else limit];
      if st.prev >= 0 {
        if |full| < limit {
          assert full[..|full|] == full && dict' == full';
        } else {
          assert dict' == st.dict;
        }
      } else {
        assert dict' == st.dict;
      }
    }

    // ----- the raster

    /** stbi__process_gif_raster: the image shows the indices that the sub-blocks denote, or the stream is illegal. */
    method ProcessRaster(data: seq<byte>, start: nat) returns (ok: bool)
      requires Valid() && CursorAt(0)
      modifies this`codes, this`cur_x, this`cur_y, this`step, this`parse, this`rows, this`row, this`col, this`spacing, out, history
      ensures Valid()
      ensures var cs := ByteOr0(data, start);
              if ok then
                cs <= 12 && Indices(cs, data, start + 1, TABLE_SIZE).Some?
                && Shows(old(out[..]), old(history[..]), Indices(cs, data, start + 1, TABLE_SIZE).value)
              else
                cs > 12 || Indices(cs, data, start + 1, TABLE_SIZE).None?
    {
      hide Step, Painted, Touched, CursorAt, TableOf, Usable, Low, Pow2, Field, Payload, Initial, Decode, Shl;
      var lzw_cs: nat := ByteOr0(data, start);
      var pos: nat := start + 1;
      if lzw_cs > 12 {
        return false;
      }
      ghost var cs := lzw_cs;
      ghost var img, hist := out[..], history[..];
      ghost var payload := Payload(data, pos);
      ghost var indices: seq<byte> := [];
      var clear := Shl(1, lzw_cs);
      ShlOne(lzw_cs);
      SmallClear(cs);
      InitialCodes(clear);
      NothingShown(img, hist);
      // a stream may open without a clear code
      var r := Registers(clear + 2, -1, lzw_cs + 1, true);
      ClearedTable(cs, false);
      ghost var st, full := Initial(cs, false), Initial(cs, false).dict;
      RestAtStart(data, pos);
      FieldEmpty(payload, 0);
      ok, indices := DecodeRaster(data, clear, lzw_cs, BitBuffer(pos, 0, 0, 0), r, payload, st, full, img, hist);
    }

    /** The loop of stbi__process_gif_raster. */
    method DecodeRaster(data: seq<byte>, clear: nat, lzw_cs: nat, b0: BitBuffer, r0: Registers, ghost payload: seq<byte>,
                        ghost st0: State, ghost full0: seq<seq<byte>>, ghost img: seq<byte>, ghost hist: seq<byte>)
      returns (ok: bool, ghost indices: seq<byte>)
      requires Valid() && |img| == out.Length && |hist| == history.Length && Shows(img, hist, [])
      requires clear == Pow2(lzw_cs) && Represents(lzw_cs, r0, st0, full0)
      requires Reading(data, payload, b0, 0)
      modifies this`codes, this`cur_x, this`cur_y, this`step, this`parse, this`rows, this`row, this`col, this`spacing, out, history
      ensures Valid()
      ensures var d := Decode(lzw_cs, payload, 0, st0, [], TABLE_SIZE);
              if ok then d == Some(indices) && Shows(img, hist, indices) else d.None?
    {
      hide Step, Shows, TableOf, Usable, Low, Pow2, Field, Payload, Decode, Reading, Represents;
      ghost var st, full, cs, k: nat := st0, full0, lzw_cs, 0;
      var b, r := b0, r0;
      indices := [];
      ReadingFacts(data, payload, b, k);
      RegisterFacts(cs, r, st, full);
      while true
        invariant Valid() && Represents(cs, r, st, full) && Shows(img, hist, indices)
        invariant Reading(data, payload, b, k)
        invariant Usable(cs, st) && k <= |payload| && b.valid_bits <= 8 * k
        invariant Decode(cs, payload, b.Position(k), st, indices, TABLE_SIZE) == Decode(cs, payload, 0, st0, [], TABLE_SIZE)
        decreases |payload| - k, b.valid_bits
      {
        ReadingFacts(data, payload, b, k);
        RegisterFacts(cs, r, st, full);
        if b.valid_bits < r.codesize {
          var more;
          more, b := Refill(data, b, payload, k);
          if !more {
            DecodeEnds(cs, payload, k, b.valid_bits, st, indices);
            return true, indices;
          }
          k := k + 1;
          ReadingFacts(data, payload, b, k);
        } else {
          ghost var p := b.Position(k);
          var code;
          code, b := ReadCode(data, b, r.codesize, payload, k);
          DecodeUnfold(cs, payload, p, st, indices);
          ghost var outcome := Step(cs, st, code, TABLE_SIZE);
          var next;
          next, r, full := TakeCode(cs, clear, lzw_cs, r, code, st, full, img, hist, indices);
          if next == Error {
            return false, indices;
          }
          if next == Finished {
            return true, indices;
          }
          st, indices := outcome.state, indices + outcome.emit;
          RegisterFacts(cs, r, st, full);
        }
      }
    }

    lemma ReadingFacts(data: seq<byte>, payload: seq<byte>, b: BitBuffer, k: nat)
      requires Reading(data, payload, b, k)
      ensures k <= |payload| && b.valid_bits <= 8 * k && b.valid_bits <= 32
    {
    }

    lemma RegisterFacts(cs: nat, r: Registers, st: State, full: seq<seq<byte>>)
      requires Represents(cs, r, st, full)
      ensures Usable(cs, st) && r.codesize == st.width && 0 < r.codesize <= 13
    {
    }

    /** The buffer holds the payload bits between the read position and byte k of the payload. */
    ghost predicate Reading(data: seq<byte>, payload: seq<byte>, b: BitBuffer, k: nat) {
      && b.valid_bits <= 8 * k && k <= |payload| && b.valid_bits <= 32
      && b.bits == Field(payload, b.Position(k), b.valid_bits)
      && Rest(data, b.pos, b.len) == payload[k..]
    }

    /** One more byte of the sub-blocks, or their end. */
    method Refill(data: seq<byte>, b: BitBuffer, ghost payload: seq<byte>, ghost k: nat) returns (more: bool, b': BitBuffer)
      requires Reading(data, payload, b, k) && b.valid_bits <= 24
      ensures more ==> k < |payload| && Reading(data, payload, b', k + 1) && b'.Position(k + 1) == b.Position(k)
      ensures !more ==> k == |payload| && b'.valid_bits == b.valid_bits
    {
      hide Field, Rest, Or, Shl;
      var pos, len := b.pos, b.len;
      b' := b;
      if len == 0 {
        len := ByteOr0(data, pos); // the next sub-block
        RestNewBlock(data, pos);
        pos := pos + 1;
        if len == 0 {
          return false, b;
        }
      }
      RestTake(data, pos, len);
      assert payload[k..][1..] == payload[k + 1..];
      FillPayload(payload, b.Position(k), b.valid_bits, k);
      b' := BitBuffer(pos + 1, len - 1, Or(b.bits, Shl(ByteOr0(data, pos), b.valid_bits)), b.valid_bits + 8);
      more := true;
    }

    /** The low `width` bits. */
    method ReadCode(ghost data: seq<byte>, b: BitBuffer, width: nat, ghost payload: seq<byte>, ghost k: nat) returns (code: nat, b': BitBuffer)
      requires Reading(data, payload, b, k) && width <= b.valid_bits
      ensures code == Field(payload, b.Position(k), width) < Pow2(width)
      ensures Reading(data, payload, b', k) && b'.Position(k) == b.Position(k) + width
      ensures b'.valid_bits == b.valid_bits - width
    {
      hide Field, Rest, Low, Shr, Pow2;
      FieldSplit(payload, b.Position(k), width, b.valid_bits - width);
      FieldBound(payload, b.Position(k), width);
      code := Low(b.bits, width);
      b' := b.(bits := Shr(b.bits, width), valid_bits := b.valid_bits - width);
    }

    /** What is left of the sub-blocks: the rest of the current one, then those from its end on. */
    ghost function Rest(data: seq<byte>, pos: nat, len: nat): seq<byte> {
      Bytes(data, pos, len) + Payload(data, pos + len)
    }

    lemma RestAtStart(data: seq<byte>, pos: nat)
      ensures Rest(data, pos, 0) == Payload(data, pos)[0..]
    {
      hide Payload;
      assert Bytes(data, pos, 0) == [];
    }

    lemma RestNewBlock(data: seq<byte>, pos: nat)
      ensures var n := ByteOr0(data, pos);
              if n == 0 then Rest(data, pos, 0) == [] else Rest(data, pos, 0) == Rest(data, pos + 1, n)
    {
      assert Bytes(data, pos, 0) == [];
    }

    lemma RestTake(data: seq<byte>, pos: nat, len: nat)
      requires len > 0
      ensures Rest(data, pos, len) != [] && Rest(data, pos, len)[0] == ByteOr0(data, pos)
      ensures Rest(data, pos, len)[1..] == Rest(data, pos + 1, len - 1)
    {
      hide Payload;
      assert Bytes(data, pos, len)[1..] == Bytes(data, pos + 1, len - 1);
    }

    lemma FieldEmpty(payload: seq<byte>, p: nat)
      ensures Field(payload, p, 0) == 0
    {
    }

    lemma FillPayload(payload: seq<byte>, p: nat, n: nat, k: nat)
      requires p + n == 8 * k && k < |payload|
      ensures Or(Field(payload, p, n), Shl(payload[k], n)) == Field(payload, p, n + 8)
    {
      hide Field, Or, Shl;
      FieldBound(payload, p, n);
      FieldAppend(payload, p, n, 8);
      FieldByte(payload, k);
      OrDisjoint(Field(payload, p, n), payload[k], n);
    }

    lemma DecodeEnds(cs: nat, payload: seq<byte>, k: nat, n: nat, st: State, indices: seq<byte>)
      requires Usable(cs, st) && n < st.width && n <= 8 * k && k == |payload|
      ensures Decode(cs, payload, 8 * k - n, st, indices, TABLE_SIZE) == Some(indices)
    {
    }

    lemma DecodeUnfold(cs: nat, payload: seq<byte>, p: nat, st: State, indices: seq<byte>)
      requires Usable(cs, st) && p + st.width <= 8 * |payload|
      ensures Decode(cs, payload, p, st, indices, TABLE_SIZE) ==
              match Step(cs, st, Field(payload, p, st.width), TABLE_SIZE)
              case Stop => Some(indices)
              case Illegal => None
              case Output(st', s) => Decode(cs, payload, p + st.width, st', indices + s, TABLE_SIZE)
    {
      hide Step, Usable, Field;
    }

    lemma NothingShown(img: seq<byte>, hist: seq<byte>)
      requires Valid() && CursorAt(0) && img == out[..] && hist == history[..]
      ensures Shows(img, hist, [])
    {
    }

    /** The loop that resets the entries below the clear code. */
    method InitialCodes(clear: nat)
      requires Valid() && clear <= TABLE_SIZE
      modifies this`codes
      ensures Valid()
      ensures forall c :: 0 <= c < clear ==> codes[c] == Lzw(-1, c % 256, c % 256)
    {
      var init_code := 0;
      while init_code < clear
        invariant 0 <= init_code <= clear && Valid()
        invariant forall c :: 0 <= c < init_code ==> codes[c] == Lzw(-1, c % 256, c % 256)
      {
        codes := codes[init_code := Lzw(-1, init_code % 256, init_code % 256)];
        init_code := init_code + 1;
      }
    }
  }
}
