/** stbi__zbuf: the zlib decoder, from the bit buffer up to stbi__parse_zlib. */
module Inflate {
  import opened Collections
  import opened Bits
  import opened BitStream
  import opened BitReverse
  import opened Canonical
  import opened ZHuffman
  import opened Deflate
  import opened LookAhead
  import opened InflateLemmas

  const UINT_MAX: nat := 0xFFFF_FFFF
  const INT_MAX: nat := 0x7FFF_FFFF

  /** `b1 * 256 + b0` */
  function Word(b1: byte, b0: byte): (w: nat)
    ensures w <= 0xFFFF
  {
    var hi: int, lo: int := b1, b0;
    hi * 256 + lo
  }

  /** Section 2.2 of RFC 1950, without a preset dictionary; a third byte must exist. */
  ghost predicate HeaderOk(data: seq<byte>) {
    && 3 <= |data|
    && Word(data[0], data[1]) % 31 == 0
    && Bit(data[1], 5) == 0
    && Low(data[0], 4) == 8
  }

  /** The DEFLATE stream at p ends at `end` and denotes `out`. */
  ghost predicate Inflates(data: seq<byte>, p: nat, out: seq<byte>, end: nat) {
    exists bs: seq<Block> ::
      StreamAt(data, p, bs) && Denotes(bs) == Some(out) && BlocksEnd(data, p, bs) == end
  }

  /** A stream has one meaning. */
  lemma InflatesUnique(data: seq<byte>, p: nat, a: seq<byte>, b: seq<byte>, ea: nat, eb: nat)
    requires Inflates(data, p, a, ea) && Inflates(data, p, b, eb)
    ensures a == b && ea == eb
  {
    var x :| StreamAt(data, p, x) && Denotes(x) == Some(a) && BlocksEnd(data, p, x) == ea;
    var y :| StreamAt(data, p, y) && Denotes(y) == Some(b) && BlocksEnd(data, p, y) == eb;
    StreamUnique(data, p, x, y);
  }

  /** Where the compressed data starts: behind the two header bytes, if there are any. */
  function Start(parse_header: bool): nat { if parse_header then 16 else 0 }

  /** The largest buffer that doubling a buffer of `size` bytes reaches. */
  function Ceiling(size: nat): (r: nat)
    requires 0 < size
    ensures size <= r && 0x8000_0000 <= r && (size <= UINT_MAX ==> r <= UINT_MAX)
    decreases UINT_MAX - size
  {
    if size > UINT_MAX / 2 then size else Ceiling(2 * size)
  }

  /**
   * Exactly what the decoder delivers: the output of a stream at p that fits the room and never leaves
   * a code lookup without bits.
   */
  ghost predicate Delivers(data: seq<byte>, p: nat, out: seq<byte>, room: nat) {
    exists bs: seq<Block> ::
      StreamAt(data, p, bs) && Denotes(bs) == Some(out) && |out| <= room && BlocksFed(data, p, p / 8, bs)
  }

  /** Nothing is refused that fits and ends sixteen bits before the input does. */
  lemma DeliversInTime(data: seq<byte>, p: nat, out: seq<byte>, end: nat, room: nat)
    requires Inflates(data, p, out, end) && end + 16 <= 8 * |data| && |out| <= room
    ensures Delivers(data, p, out, room)
  {
    hide StreamAt, Denotes, BlocksFed;
    var bs :| StreamAt(data, p, bs) && Denotes(bs) == Some(out) && BlocksEnd(data, p, bs) == end;
    StreamInTime(data, p, p / 8, bs);
  }

  /** Nothing is delivered that the stream does not denote. */
  lemma DeliveredInflates(data: seq<byte>, p: nat, out: seq<byte>, room: nat)
    requires Delivers(data, p, out, room)
    ensures exists end: nat :: Inflates(data, p, out, end)
  {
    hide StreamAt, Denotes, BlocksFed, BlocksEnd;
    var bs :| StreamAt(data, p, bs) && Denotes(bs) == Some(out) && |out| <= room && BlocksFed(data, p, p / 8, bs);
    assert Inflates(data, p, out, BlocksEnd(data, p, bs));
  }

  /**
   * stbi_zlib_decode_malloc_guesssize_headerflag: returns the output of the one stream that it can
   * deliver, and nothing exactly when there is none. Every stream that ends at least two bytes before
   * the input and denotes at most 2^31 bytes is delivered; the checksum of RFC 1950 is always enough.
   */
  method DecodeMalloc(input: seq<byte>, initial_size: nat, parse_header: bool) returns (r: Option<seq<byte>>)
    requires 0 < initial_size <= INT_MAX
    ensures r.Some? ==> (parse_header ==> HeaderOk(input)) && Delivers(input, Start(parse_header), r.value, Ceiling(initial_size))
    ensures r.Some? ==> exists end: nat :: Inflates(input, Start(parse_header), r.value, end)
    ensures r.None? ==> (parse_header && !HeaderOk(input))
                        || forall out: seq<byte> :: !Delivers(input, Start(parse_header), out, Ceiling(initial_size))
    ensures r.None? ==> (parse_header && !HeaderOk(input))
                        || forall out: seq<byte>, end: nat :: Inflates(input, Start(parse_header), out, end) ==>
                             end + 16 > 8 * |input| || |out| > 0x8000_0000
  {
    hide HeaderOk, Inflates, Delivers, StreamAt, Denotes, BlocksEnd, Field;
    var obuf := new byte[initial_size];
    var z := new ZBuf(input, obuf, true);
    var ok;
    ghost var bs;
    ok, bs := z.ParseZlib(parse_header);
    if ok {
      r := Some(z.buffer[..z.zout]);
      DeliveredInflates(input, Start(parse_header), r.value, Ceiling(initial_size));
    } else {
      r := None;
      Undelivered(input, Start(parse_header), Ceiling(initial_size), 0x8000_0000);
    }
  }

  lemma Undelivered(data: seq<byte>, p: nat, room: nat, size: nat)
    requires size <= room
    ensures (forall out: seq<byte> :: !Delivers(data, p, out, room)) ==>
              forall out: seq<byte>, end: nat :: Inflates(data, p, out, end) ==> end + 16 > 8 * |data| || |out| > size
  {
    hide Inflates, Delivers;
    forall out: seq<byte>, end: nat | Inflates(data, p, out, end) && end + 16 <= 8 * |data| && |out| <= size
      ensures Delivers(data, p, out, room)
    {
      DeliversInTime(data, p, out, end, room);
    }
  }

  /** stbi_zlib_decode_buffer: the same into a buffer of fixed size; the length of the output, or -1. */
  method DecodeBuffer(obuffer: array<byte>, ibuffer: seq<byte>) returns (n: int)
    requires obuffer.Length <= INT_MAX
    modifies obuffer
    ensures -1 <= n <= obuffer.Length
    ensures n >= 0 ==> HeaderOk(ibuffer) && Delivers(ibuffer, 16, obuffer[..n], obuffer.Length)
    ensures n >= 0 ==> exists end: nat :: Inflates(ibuffer, 16, obuffer[..n], end)
    ensures n < 0 ==> !HeaderOk(ibuffer) || forall out: seq<byte> :: !Delivers(ibuffer, 16, out, obuffer.Length)
    ensures n < 0 ==> !HeaderOk(ibuffer)
                      || forall out: seq<byte>, end: nat :: Inflates(ibuffer, 16, out, end) ==>
                           end + 16 > 8 * |ibuffer| || |out| > obuffer.Length
  {
    hide HeaderOk, Inflates, Delivers, StreamAt, Denotes, BlocksEnd, Ceiling, Field;
    var z := new ZBuf(ibuffer, obuffer, false);
    var ok;
    ghost var bs;
    ok, bs := z.ParseZlib(true);
    if ok {
      n := z.zout;
      assert z.buffer == obuffer && z.Contents() == obuffer[..n];
      DeliveredInflates(ibuffer, 16, obuffer[..n], obuffer.Length);
    } else {
      n := -1;
      assert z.room == obuffer.Length && Start(true) == 16;
      Undelivered(ibuffer, 16, obuffer.Length, obuffer.Length);
    }
  }

  class ZBuf {
    /** The input; `zbuffer` is the next byte to load and never passes the end. */
    const data: seq<byte>
    var zbuffer: nat
    var num_bits: int
    var code_buffer: nat

    /** The output buffer from `zout_start` to `zout_end`, filled up to `zout`. */
    var buffer: array<byte>
    var zout: nat
    const z_expandable: bool

    const z_length: ZHuffman
    const z_distance: ZHuffman

    /** Zero bytes that stbi__zget8 supplied past the end of the input. */
    ghost var padding: nat

    /** The number of bytes loaded so far, padding included. */
    ghost function Loaded(): nat
      reads this`zbuffer, this`padding
    {
      zbuffer + padding
    }

    /** The position of the next unread bit. */
    ghost function Pos(): int
      reads this`zbuffer, this`padding, this`num_bits
    {
      8 * Loaded() - num_bits
    }

    ghost predicate ValidInput()
      reads this`zbuffer, this`padding
    {
      zbuffer <= |data| && (padding > 0 ==> zbuffer == |data|)
    }

    /** The buffer holds exactly the bits between the read position and the load position. */
    ghost predicate ValidBits()
      reads this`zbuffer, this`padding, this`num_bits, this`code_buffer
    {
      && ValidInput()
      && 0 <= num_bits <= 32 && Pos() >= 0
      && code_buffer == Field(data, Pos(), num_bits)
    }

    /** Outputs up to this size, and no larger ones, find room. */
    ghost const room: nat

    ghost predicate ValidOutput()
      reads this`buffer, this`zout
    {
      && zout <= buffer.Length <= UINT_MAX && (z_expandable ==> 0 < buffer.Length)
      && room == if z_expandable then Ceiling(buffer.Length) else buffer.Length
    }

    ghost predicate ValidTables()
      reads z_length, z_distance
    {
      z_length != z_distance && z_length.Shape() && z_distance.Shape()
    }

    /** The bytes produced so far. */
    ghost function Contents(): seq<byte>
      requires zout <= buffer.Length
      reads this`buffer, this`zout, buffer
    {
      buffer[..zout]
    }

    constructor (input: seq<byte>, obuf: array<byte>, expandable: bool)
      requires obuf.Length <= 0x7FFF_FFFF
      requires expandable ==> 0 < obuf.Length
      ensures data == input && zbuffer == 0 && padding == 0 && z_expandable == expandable
      ensures buffer == obuf && zout == 0 && room == if expandable then Ceiling(obuf.Length) else obuf.Length
      ensures fresh(z_length) && fresh(z_distance)
      ensures num_bits == 0 && code_buffer == 0 && ValidBits() && ValidOutput() && ValidTables()
    {
      data := input;
      zbuffer, num_bits, code_buffer, padding := 0, 0, 0, 0;
      buffer, zout, z_expandable := obuf, 0, expandable;
      room := if expandable then Ceiling(obuf.Length) else obuf.Length;
      z_length := new ZHuffman();
      z_distance := new ZHuffman();
    }

    // ----- bits

    /** stbi__zget8 */
    method Get8() returns (b: byte)
      requires ValidInput()
      modifies this`zbuffer, this`padding
      ensures ValidInput()
      ensures Loaded() == old(Loaded()) + 1
      ensures b == ByteAt(data, old(Loaded()))
    {
      if zbuffer >= |data| {
        padding := padding + 1;
        b := 0;
      } else {
        b := data[zbuffer];
        zbuffer := zbuffer + 1;
      }
    }

    /** stbi__fill_bits: at least 25 bits afterwards, the read position unchanged. */
    method FillBits()
      requires ValidBits() && num_bits <= 24
      modifies this`zbuffer, this`padding, this`num_bits, this`code_buffer
      ensures ValidBits() && Pos() == old(Pos())
      ensures 25 <= num_bits && Loaded() == Refilled(Pos())
    {
      hide Field, Or, Shl, Pow2;
      var first := true;
      while first || num_bits <= 24
        invariant ValidBits() && Pos() == old(Pos())
        invariant first ==> num_bits <= 24
        decreases 32 - num_bits
      {
        ghost var p := Pos();
        FillByte(data, p, num_bits, Loaded());
        ShlOne(num_bits);
        if code_buffer >= Shl(1, num_bits) {
          assert false; // the buffer never holds bits above num_bits
        }
        var b := Get8();
        code_buffer := Or(code_buffer, Shl(b, num_bits));
        num_bits := num_bits + 8;
        first := false;
      }
    }

    /** Drop the s bits that were just looked at. */
    method Consume(s: nat)
      requires ValidBits() && s <= num_bits
      modifies this`num_bits, this`code_buffer
      ensures ValidBits() && Pos() == old(Pos()) + s
      ensures num_bits == old(num_bits) - s
    {
      hide Field, Low, Shr;
      FieldSplit(data, Pos(), s, num_bits - s);
      code_buffer := Shr(code_buffer, s);
      num_bits := num_bits - s;
    }

    /** stbi__zreceive: the next n bits as a number. */
    method Receive(n: nat) returns (k: nat)
      requires ValidBits() && n <= 24
      modifies this`zbuffer, this`padding, this`num_bits, this`code_buffer
      ensures ValidBits() && Pos() == old(Pos()) + n
      ensures k == Field(data, old(Pos()), n)
      ensures num_bits <= 32 - n
      ensures Loaded() == AfterBits(old(Pos()), old(Loaded()), n)
    {
      hide Field, Low, Shr, Pow2;
      if num_bits < n {
        FillBits();
      }
      FieldSplit(data, Pos(), n, num_bits - n);
      k := Low(code_buffer, n);
      Consume(n);
    }

    // ----- symbols

    /** stbi__zhuffman_decode: the symbol whose code stands at the read position, or -1. */
    method HuffmanDecode(z: ZHuffman, ghost lens: seq<nat>) returns (sym: int)
      requires ValidBits() && z.TableOf(lens)
      modifies this`zbuffer, this`padding, this`num_bits, this`code_buffer
      ensures ValidBits() && Pos() >= old(Pos())
      ensures sym >= 0 ==> SymbolAt(data, lens, old(Pos()), sym) && Pos() == old(Pos()) + lens[sym]
      ensures sym >= 0 ==> Loaded() == AfterLookup(old(Pos()), old(Loaded()))
      ensures Starved(|data|, old(Pos()), old(Loaded())) <==> old(num_bits) < 16 && old(zbuffer) >= |data|
      ensures sym < 0 <==> Starved(|data|, old(Pos()), old(Loaded())) || Symbol(data, lens, old(Pos())).None?
    {
      hide Field, Low, Shr, Shl, Pow2, CodeOf, CodeBits, Limit, FirstCode, FirstSymbol, Count, Fits, FastMatch;
      if num_bits < 16 {
        if zbuffer >= |data| {
          return -1; // starved
        }
        FillBits();
      }
      LookupInRange(code_buffer);
      var b := z.fast[Low(code_buffer, FAST_BITS)];
      assert FastSlot(lens, |lens|, Low(code_buffer, FAST_BITS), b);
      if b != 0 {
        ghost var hit := FastHit(lens, b);
        var s := Shr(b, 9);
        sym := Low(b, 9);
        Consume(s);
      } else {
        sym := DecodeSlowPath(z, lens);
      }
    }

    lemma LookupInRange(cb: nat)
      ensures Low(cb, FAST_BITS) < FAST_SIZE
    {
      Split(cb, FAST_BITS);
      Pow2Values();
    }

    lemma FastHit(lens: seq<nat>, b: nat) returns (hit: nat)
      requires ValidBits() && 16 <= num_bits && |lens| <= NUM_SYMBOLS
      requires b != 0 && FastSlot(lens, |lens|, Low(code_buffer, FAST_BITS), b)
      ensures SymbolAt(data, lens, Pos(), hit)
      ensures Shr(b, 9) == lens[hit] <= FAST_BITS && Low(b, 9) == hit
    {
      hide Shr, Shl, Low, Reverse, CodeBits, Field, CodeOf, Pow2;
      hit :| hit < |lens| && FastMatch(lens, hit, Low(code_buffer, FAST_BITS)) && b == Shl(lens[hit], 9) + hit;
      FastMatchIsPrefix(lens, hit, code_buffer);
      BufferWindow(data, Pos(), num_bits, code_buffer, 16);
      SymbolIsPrefix(data, lens, Pos(), hit);
      Pow2Values();
      ShlSplit(lens[hit], hit, 9);
    }

    /** stbi__zhuffman_decode_slowpath */
    method DecodeSlowPath(z: ZHuffman, ghost lens: seq<nat>) returns (sym: int)
      requires ValidBits() && 16 <= num_bits && z.TableOf(lens)
      requires FastSlot(lens, |lens|, Low(code_buffer, FAST_BITS), 0)
      modifies this`num_bits, this`code_buffer
      ensures ValidBits() && Pos() >= old(Pos())
      ensures sym >= 0 ==> SymbolAt(data, lens, old(Pos()), sym) && Pos() == old(Pos()) + lens[sym]
      ensures sym < 0 ==> Symbol(data, lens, old(Pos())).None?
    {
      hide Shr, Shl, Low, Reverse, CodeBits, Field, CodeOf, Limit, FirstCode, FirstSymbol, Count, Fits, FastSlot, BitReverseN;
      var k := BitReverseN(code_buffer, 16);
      BitReverseNCorrect(code_buffer, 16);
      BufferWindow(data, Pos(), num_bits, code_buffer, 16);
      CodeBitsBound(data, Pos(), 16);
      Pow2Values();
      FastMiss(lens, code_buffer);
      var s := FAST_BITS + 1;
      while k >= z.maxcode[s]
        invariant FAST_BITS < s <= 16
        invariant Limit(lens, s - 1) <= k
        decreases 16 - s
      {
        s := s + 1;
      }
      if s >= 16 {
        NoSymbol(lens, k);
        return -1; // invalid code!
      }
      ghost var hit := RangePrefix(lens, s, k);
      SymbolIsPrefix(data, lens, Pos(), hit);
      SortedIndexBound(lens, hit);
      var b := Shr(k, 16 - s) - z.firstcode[s] + z.firstsymbol[s];
      assert b == SortedIndex(lens, hit);
      if b >= NUM_SYMBOLS || z.size[b] != s {
        assert false; // neither guard of the source can fire for tables that were accepted
      }
      Consume(s);
      sym := z.value[b];
    }

    /** After a miss in the fast table the window is at or above the limit of length 9. */
    lemma FastMiss(lens: seq<nat>, cb: nat)
      requires FastSlot(lens, |lens|, Low(cb, FAST_BITS), 0)
      ensures Limit(lens, FAST_BITS) <= Reverse(cb, 16)
    {
      hide Reverse, Low, Limit, CodeOf;
      PrefixIffBelowLimit(lens, FAST_BITS, Reverse(cb, 16));
      if Reverse(cb, 16) < Limit(lens, FAST_BITS) {
        var sym: nat :| IsPrefix(lens, sym, Reverse(cb, 16)) && lens[sym] <= FAST_BITS;
        FastMatchIsPrefix(lens, sym, cb);
      }
    }

    lemma NoSymbol(lens: seq<nat>, k: nat)
      requires ValidBits() && Lengths(lens) && k == CodeBits(data, Pos(), 16) && Limit(lens, MAX_LENGTH) <= k
      ensures Symbol(data, lens, Pos()).None?
    {
      hide CodeBits, Limit, CodeOf;
      PrefixIffBelowLimit(lens, MAX_LENGTH, k);
      if Symbol(data, lens, Pos()).Some? {
        SymbolIsPrefix(data, lens, Pos(), Symbol(data, lens, Pos()).value);
      }
    }

    // ----- output

    /** stbi__zexpand: make room for n more bytes behind `at`, or refuse. */
    method MakeRoom(at: nat, n: nat) returns (ok: bool)
      requires ValidOutput() && at <= buffer.Length
      modifies this`buffer, this`zout
      ensures ValidOutput() && zout == at
      ensures ok <==> z_expandable && at + n <= room
      ensures ok ==> at + n <= buffer.Length && old(buffer.Length) <= buffer.Length
      ensures ok ==> fresh(buffer) && buffer[..at] == old(buffer[..at])
      ensures !ok ==> buffer == old(buffer)
    {
      zout := at;
      if !z_expandable {
        return false; // a buffer of fixed size
      }
      var limit := buffer.Length;
      if UINT_MAX - at < n {
        return false; // outofmem
      }
      while at + n > limit
        invariant buffer.Length <= limit <= UINT_MAX && Ceiling(limit) == room
        decreases at + n - limit
      {
        if limit > UINT_MAX / 2 {
          return false; // outofmem
        }
        limit := limit * 2;
      }
      var q := new byte[limit];
      forall i | 0 <= i < buffer.Length {
        q[i] := buffer[i];
      }
      buffer := q;
      ok := true;
    }

    /** The copy at the end of stbi__parse_huffman_block: one byte at a time, overlap allowed. */
    method CopyBytes(at: nat, dist: nat, len: nat) returns (end: nat)
      requires 0 < dist <= at && at + len <= buffer.Length
      modifies buffer
      ensures end == at + len
      ensures buffer[..end] == CopyRun(old(buffer[..at]), dist, len)
    {
      var p := at - dist;
      if dist == 1 {
        end := RepeatByte(at, buffer[p], len);
      } else {
        end := CopyOverlapping(at, p, len);
      }
    }

    method RepeatByte(at: nat, v: byte, length: nat) returns (end: nat)
      requires 1 <= at && at + length <= buffer.Length && buffer[at - 1] == v
      modifies buffer
      ensures end == at + length
      ensures buffer[..end] == CopyRun(old(buffer[..at]), 1, length)
    {
      ghost var start := buffer[..at];
      end := at;
      var len: nat := length;
      while len != 0
        invariant len <= length && end == at + (length - len)
        invariant buffer[end - 1] == v
        invariant buffer[..end] == CopyRun(start, 1, length - len)
        decreases len
      {
        ghost var before := buffer[..end];
        assert before[|before| - 1] == v;
        buffer[end] := v;
        end := end + 1;
        len := len - 1;
        assert buffer[..end] == before + [v];
      }
    }

    method CopyOverlapping(at: nat, from: nat, length: nat) returns (end: nat)
      requires from < at && at + length <= buffer.Length
      modifies buffer
      ensures end == at + length
      ensures buffer[..end] == CopyRun(old(buffer[..at]), at - from, length)
    {
      ghost var start := buffer[..at];
      end := at;
      var p, len: nat := from, length;
      while len != 0
        invariant len <= length && end == at + (length - len) && p == from + (length - len)
        invariant buffer[..end] == CopyRun(start, at - from, length - len)
        decreases len
      {
        ghost var before := buffer[..end];
        var v := buffer[p];
        assert v == before[|before| - (at - from)];
        buffer[end] := v;
        end := end + 1;
        p := p + 1;
        len := len - 1;
        assert buffer[..end] == before + [v];
      }
    }

    /** One literal: room for a byte, then the byte. */
    method PutLiteral(at: nat, b: byte) returns (ok: bool, end: nat)
      requires ValidOutput() && at <= buffer.Length
      modifies this`buffer, this`zout, buffer
      ensures ValidOutput() && (buffer == old(buffer) || fresh(buffer)) && (!z_expandable ==> buffer == old(buffer))
      ensures ok <==> at + 1 <= room
      ensures ok ==> end == at + 1 && end <= buffer.Length && buffer[..end] == old(buffer[..at]) + [b]
    {
      end := at;
      if at >= buffer.Length {
        ok := MakeRoom(at, 1);
        if !ok {
          return;
        }
      }
      assert buffer[..at] == old(buffer[..at]);
      buffer[at] := b;
      end := at + 1;
      assert buffer[..end] == buffer[..at] + [b];
      ok := true;
    }

    /** One copy whose distance is within the output: room first, then the bytes. */
    method PutCopy(at: nat, dist: nat, len: nat) returns (ok: bool, end: nat)
      requires ValidOutput() && 0 < dist <= at <= buffer.Length
      modifies this`buffer, this`zout, buffer
      ensures ValidOutput() && (buffer == old(buffer) || fresh(buffer)) && (!z_expandable ==> buffer == old(buffer))
      ensures ok <==> at + len <= room
      ensures ok ==> end == at + len && end <= buffer.Length && buffer[..end] == CopyRun(old(buffer[..at]), dist, len)
    {
      end := at;
      if at + len > buffer.Length {
        ok := MakeRoom(at, len);
        if !ok {
          return;
        }
      }
      end := CopyBytes(at, dist, len);
      ok := true;
    }

    // ----- blocks of codes

    /** The rest of a copy after its length symbol z: extra bits, distance symbol, extra bits. */
    method ReadCopy(z: nat, ghost L: seq<nat>, ghost D: seq<nat>, ghost q: nat, ghost kq: nat)
      returns (ok: bool, len: nat, dist: nat, ghost t: Token)
      requires ValidBits() && z_distance.TableOf(D)
      requires 257 <= z <= 285 && SymbolAt(data, L, q, z) && Pos() == q + L[z]
      requires !Starved(|data|, q, kq) && Loaded() == AfterLookup(q, kq)
      modifies this`zbuffer, this`padding, this`num_bits, this`code_buffer
      ensures ValidBits() && Pos() >= q
      ensures ok ==> t.Copy? && t.At(data, L, D, q) && Pos() == q + t.Size(L, D)
      ensures ok ==> len == t.Length() >= 3 && dist == t.Distance() >= 1
      ensures ok ==> TokenFed(|data|, L, D, q, kq, t) && Loaded() == AfterToken(L, D, q, kq, t)
      ensures !ok ==> var p2, k2 := q + L[z] + LengthExtra(z - 257), AfterBits(q + L[z], AfterLookup(q, kq), LengthExtra(z - 257));
                      Starved(|data|, p2, k2) || Symbol(data, D, p2).None? || Symbol(data, D, p2).value >= 30
    {
      hide LengthBase, LengthExtra, DistBase, DistExtra, Field, CodeOf, CodeBits, Token.At, Token.Size, SymbolAt, ZHuffman.TableOf;
      hide AfterBits, AfterLookup, Starved;
      SymbolRange(L, q, z);
      len, dist, ok := 0, 0, false;
      t := Literal(0);
      var base, extra := LengthRow(z - 257);
      ghost var lextra;
      len, lextra := ReceiveOnto(base, extra);
      var d := DecodeDistance(D);
      if d < 0 {
        return;
      }
      base, extra := DistRow(d);
      ghost var dextra;
      dist, dextra := ReceiveOnto(base, extra);
      t := Copy(z, lextra, d, dextra);
      CopyAt(L, D, q, t);
      CopyFed(L, D, q, kq, t);
      ok := true;
    }

    /** A distance symbol below 30, or -1. */
    method DecodeDistance(ghost D: seq<nat>) returns (d: int)
      requires ValidBits() && z_distance.TableOf(D)
      modifies this`zbuffer, this`padding, this`num_bits, this`code_buffer
      ensures ValidBits() && Pos() >= old(Pos())
      ensures d >= 0 ==> d < 30 && d < |D| && SymbolAt(data, D, old(Pos()), d) && Pos() == old(Pos()) + D[d]
      ensures d >= 0 ==> !Starved(|data|, old(Pos()), old(Loaded())) && Loaded() == AfterLookup(old(Pos()), old(Loaded()))
      ensures d < 0 ==> var p2 := old(Pos());
                        Starved(|data|, p2, old(Loaded())) || Symbol(data, D, p2).None? || Symbol(data, D, p2).value >= 30
    {
      hide CodeOf, CodeBits, Field, ZHuffman.TableOf, AfterLookup, Starved;
      ghost var p2 := Pos();
      d := HuffmanDecode(z_distance, D);
      if d >= 30 {
        TakenSymbol(D, p2, d);
        d := -1; // the last two distance symbols mean nothing
      }
    }

    lemma CopyAt(L: seq<nat>, D: seq<nat>, q: nat, t: Token)
      requires t.Copy? && t.Valid() && SymbolAt(data, L, q, t.lsym)
      requires t.lextra == Field(data, q + L[t.lsym], LengthExtra(t.lsym - 257))
      requires var p2 := q + L[t.lsym] + LengthExtra(t.lsym - 257);
               SymbolAt(data, D, p2, t.dsym) && t.dextra == Field(data, p2 + D[t.dsym], DistExtra(t.dsym))
      ensures t.At(data, L, D, q)
      ensures t.Size(L, D) == L[t.lsym] + LengthExtra(t.lsym - 257) + D[t.dsym] + DistExtra(t.dsym)
    {
    }

    lemma CopyFed(L: seq<nat>, D: seq<nat>, q: nat, kq: nat, t: Token)
      requires Coded(L, D, t) && !Starved(|data|, q, kq)
      requires !Starved(|data|, DistanceAt(L, D, q, t), BeforeDistance(L, D, q, kq, t))
      ensures TokenFed(|data|, L, D, q, kq, t)
      ensures var p2, k2 := DistanceAt(L, D, q, t), BeforeDistance(L, D, q, kq, t);
              AfterToken(L, D, q, kq, t) == AfterBits(p2 + D[t.dsym], AfterLookup(p2, k2), DistExtra(t.dsym))
    {
    }

    /** `base`, plus `n` extra bits if there are any. */
    method ReceiveOnto(base: nat, n: nat) returns (sum: nat, ghost extra: nat)
      requires ValidBits() && n <= 24
      modifies this`zbuffer, this`padding, this`num_bits, this`code_buffer
      ensures ValidBits() && Pos() == old(Pos()) + n
      ensures extra == Field(data, old(Pos()), n) && sum == base + extra
      ensures Loaded() == AfterBits(old(Pos()), old(Loaded()), n)
    {
      sum, extra := base, 0;
      if n != 0 {
        var more := Receive(n);
        sum, extra := base + more, more;
      }
    }

    /** The tokens stand between p and the read position, and `at` bytes are what they make of `out`. */
    ghost predicate Parsed(L: seq<nat>, D: seq<nat>, p: nat, k: nat, out: seq<byte>, ts: seq<Token>, at: nat)
      reads this`zbuffer, this`padding, this`num_bits, this`code_buffer, this`buffer, this`zout, buffer
    {
      && ValidBits() && ValidOutput() && at <= buffer.Length
      && Read(data, L, D, p, k, out, ts, Pos(), Loaded(), buffer[..at])
      && TokensFed(|data|, L, D, p, k, ts)
    }

    /** A symbol was just looked up behind the tokens parsed so far. */
    ghost predicate LookedUp(L: seq<nat>, D: seq<nat>, p: nat, k: nat, out: seq<byte>, ts: seq<Token>, at: nat, z: nat, q: nat, kq: nat)
      reads this`zbuffer, this`padding, this`num_bits, this`code_buffer, this`buffer, this`zout, buffer
    {
      && ValidBits() && ValidOutput() && at <= buffer.Length
      && Read(data, L, D, p, k, out, ts, q, kq, buffer[..at])
      && TokensFed(|data|, L, D, p, k, ts)
      && SymbolAt(data, L, q, z) && Pos() == q + L[z]
      && !Starved(|data|, q, kq) && Loaded() == AfterLookup(q, kq)
    }

    /** The branch of stbi__parse_huffman_block for a literal z. */
    method TakeLiteral(z: byte, at: nat, ghost L: seq<nat>, ghost D: seq<nat>, ghost p: nat, ghost k: nat, ghost out: seq<byte>,
                       ghost ts: seq<Token>, ghost q: nat, ghost kq: nat)
      returns (ok: bool, at': nat, ghost t: Token)
      requires LookedUp(L, D, p, k, out, ts, at, z, q, kq)
      modifies this`buffer, this`zout, buffer
      ensures (buffer == old(buffer) || fresh(buffer)) && (!z_expandable ==> buffer == old(buffer))
      ensures ValidBits() && ValidOutput()
      ensures ok ==> Parsed(L, D, p, k, out, ts + [t], at') && at < at'
      ensures !ok ==> NoBody(data, L, D, p, k, out, room)
    {
      hide SymbolAt, Token.At, Token.Size, Field, CodeOf, CodeBits, NoBody, Apply, Read, TokensFed, Starved, AfterLookup;
      ghost var o := buffer[..at];
      t := Literal(z);
      LiteralToken(L, D, q, kq, z, o);
      ok, at' := PutLiteral(at, z);
      if ok {
        Snoc(L, D, p, k, out, ts, q, kq, o, t);
      } else {
        RefusedToken(data, L, D, p, k, out, room, ts, q, kq, o, t);
      }
    }

    /** The branch of stbi__parse_huffman_block for a length symbol z. */
    method TakeCopy(z: nat, at: nat, ghost L: seq<nat>, ghost D: seq<nat>, ghost p: nat, ghost k: nat, ghost out: seq<byte>,
                    ghost ts: seq<Token>, ghost q: nat, ghost kq: nat)
      returns (ok: bool, at': nat, ghost t: Token)
      requires LookedUp(L, D, p, k, out, ts, at, z, q, kq) && z_distance.TableOf(D) && 257 <= z <= 285
      modifies this`zbuffer, this`padding, this`num_bits, this`code_buffer, this`buffer, this`zout, buffer
      ensures (buffer == old(buffer) || fresh(buffer)) && (!z_expandable ==> buffer == old(buffer))
      ensures ValidBits() && ValidOutput()
      ensures ok ==> Parsed(L, D, p, k, out, ts + [t], at') && at < at'
      ensures !ok ==> NoBody(data, L, D, p, k, out, room)
    {
      hide Token.At, Token.Size, Token.Length, Token.Distance, Field, CodeOf, CodeBits, NoBody, Symbol, ZHuffman.TableOf;
      hide LengthBase, LengthExtra, DistBase, DistExtra, CopyRun, Apply, Read, TokensFed, Starved, AfterLookup, AfterBits;
      hide TokenFed, AfterToken;
      ghost var o := buffer[..at];
      var len, dist;
      ok, len, dist, t := ReadCopy(z, L, D, q, kq);
      at' := at;
      if !ok {
        ghost var extra := LengthExtra(z - 257);
        RefusedDistance(data, L, D, p, k, out, room, ts, q, kq, o, z, q + L[z] + extra, AfterBits(q + L[z], AfterLookup(q, kq), extra));
        return;
      }
      CopyToken(L, D, q, t, o);
      if at < dist {
        RefusedToken(data, L, D, p, k, out, room, ts, q, kq, o, t);
        ok := false;
        return; // bad dist
      }
      ok, at' := PutCopy(at, dist, len);
      if ok {
        Snoc(L, D, p, k, out, ts, q, kq, o, t);
      } else {
        CopyRunLength(o, dist, len);
        RefusedToken(data, L, D, p, k, out, room, ts, q, kq, o, t);
      }
    }

    lemma CopyRunLength(o: seq<byte>, dist: nat, len: nat)
      requires 0 < dist <= |o|
      ensures |CopyRun(o, dist, len)| == |o| + len
    {
    }

    /**
     * stbi__parse_huffman_block: literals and copies up to the end-of-block symbol. It refuses a body
     * exactly when there is none that stands at the position, is fed and fits the room.
     */
    method ParseHuffmanBlock(ghost L: seq<nat>, ghost D: seq<nat>) returns (ok: bool, ghost ts: seq<Token>)
      requires ValidBits() && ValidOutput() && z_length.TableOf(L) && z_distance.TableOf(D)
      modifies this`zbuffer, this`padding, this`num_bits, this`code_buffer, this`buffer, this`zout, buffer
      ensures ValidBits() && ValidOutput()
      ensures (buffer == old(buffer) || fresh(buffer)) && (!z_expandable ==> buffer == old(buffer))
      ensures ok ==> BodyAt(data, L, D, old(Pos()), ts) && Pos() == BodyEnd(L, D, old(Pos()), ts)
      ensures ok ==> BodyFed(|data|, L, D, old(Pos()), old(Loaded()), ts) && Loaded() == AfterBody(L, D, old(Pos()), old(Loaded()), ts)
      ensures ok ==> Expand(old(Contents()), ts) == Some(Contents())
      ensures !ok ==> NoBody(data, L, D, old(Pos()), old(Loaded()), old(Contents()), room)
    {
      hide SymbolAt, Field, NoBody, Symbol, BodyAt, BodyEnd, BodyFed, AfterBody, ZHuffman.TableOf, Read, TokensFed, Starved, AfterLookup;
      ghost var p, k, out := Pos(), Loaded(), Contents();
      var at := zout;
      ts := [];
      NothingRead(L, D, p, k, out);
      while true
        invariant Parsed(L, D, p, k, out, ts, at)
        invariant (buffer == old(buffer) || fresh(buffer)) && (!z_expandable ==> buffer == old(buffer))
        decreases UINT_MAX - at
      {
        ghost var q, kq := Pos(), Loaded();
        ghost var t;
        var z := HuffmanDecode(z_length, L);
        if z < 256 {
          if z < 0 {
            RefusedSymbol(data, L, D, p, k, out, room, ts, q, kq, buffer[..at]);
            return false, ts; // no symbol, or starved
          }
          SymbolRange(L, q, z);
          TakenSymbol(L, q, z);
          ok, at, t := TakeLiteral(z, at, L, D, p, k, out, ts, q, kq);
        } else {
          SymbolRange(L, q, z);
          TakenSymbol(L, q, z);
          if z == 256 {
            zout := at;
            EndOfBlock(L, D, p, k, out, ts, q, kq, buffer[..at]);
            return true, ts;
          }
          if z >= 286 {
            RefusedSymbol(data, L, D, p, k, out, room, ts, q, kq, buffer[..at]);
            return false, ts; // the last two length symbols mean nothing
          }
          ok, at, t := TakeCopy(z, at, L, D, p, k, out, ts, q, kq);
        }
        if !ok {
          return false, ts;
        }
        ts := ts + [t];
      }
    }

    lemma NothingRead(L: seq<nat>, D: seq<nat>, p: nat, k: nat, out: seq<byte>)
      ensures Read(data, L, D, p, k, out, [], p, k, out) && TokensFed(|data|, L, D, p, k, [])
    {
    }

    lemma SymbolRange(L: seq<nat>, q: nat, z: nat)
      requires SymbolAt(data, L, q, z)
      ensures z < |L| && L[z] > 0
    {
    }

    lemma LiteralToken(L: seq<nat>, D: seq<nat>, q: nat, kq: nat, z: byte, o: seq<byte>)
      requires SymbolAt(data, L, q, z)
      ensures Literal(z).At(data, L, D, q) && Literal(z).Size(L, D) == L[z]
      ensures AfterToken(L, D, q, kq, Literal(z)) == AfterLookup(q, kq)
      ensures !Starved(|data|, q, kq) ==> TokenFed(|data|, L, D, q, kq, Literal(z))
      ensures Apply(o, Literal(z)) == Some(o + [z])
    {
    }

    lemma CopyToken(L: seq<nat>, D: seq<nat>, q: nat, t: Token, o: seq<byte>)
      requires t.Copy? && t.At(data, L, D, q)
      ensures |o| < t.Distance() ==> Apply(o, t).None?
      ensures 1 <= t.Distance() <= |o| ==> Apply(o, t) == Some(CopyRun(o, t.Distance(), t.Length()))
    {
    }

    lemma TakenSymbol(L: seq<nat>, q: nat, z: nat)
      requires SymbolAt(data, L, q, z)
      ensures Symbol(data, L, q) == Some(z)
    {
      SymbolUnique(data, L, q, z, Symbol(data, L, q).value);
    }

    lemma EndOfBlock(L: seq<nat>, D: seq<nat>, p: nat, k: nat, out: seq<byte>, ts: seq<Token>, q: nat, kq: nat, o: seq<byte>)
      requires Read(data, L, D, p, k, out, ts, q, kq, o) && TokensFed(|data|, L, D, p, k, ts)
      requires SymbolAt(data, L, q, END_OF_BLOCK) && !Starved(|data|, q, kq)
      ensures BodyAt(data, L, D, p, ts) && BodyEnd(L, D, p, ts) == q + L[END_OF_BLOCK] && Expand(out, ts) == Some(o)
      ensures BodyFed(|data|, L, D, p, k, ts) && AfterBody(L, D, p, k, ts) == AfterLookup(q, kq)
    {
    }

    lemma Snoc(L: seq<nat>, D: seq<nat>, p: nat, k: nat, out: seq<byte>, ts: seq<Token>, q: nat, kq: nat, o: seq<byte>, t: Token)
      requires Read(data, L, D, p, k, out, ts, q, kq, o) && TokensFed(|data|, L, D, p, k, ts)
      requires t.At(data, L, D, q) && TokenFed(|data|, L, D, q, kq, t) && Apply(o, t).Some?
      ensures Read(data, L, D, p, k, out, ts + [t], q + t.Size(L, D), AfterToken(L, D, q, kq, t), Apply(o, t).value)
      ensures TokensFed(|data|, L, D, p, k, ts + [t])
    {
      hide Token.At, Token.Size, Apply, TokenFed, AfterToken;
      TokensSnoc(|data|, L, D, p, k, ts, t);
      assert (ts + [t])[..|ts|] == ts;
    }

    // ----- dynamic codes

    /** The three-bit lengths of the code length code, in their odd order. */
    method ReadCodeLengthSizes(hclen: nat) returns (sizes: seq<nat>)
      requires ValidBits() && hclen <= 19
      modifies this`zbuffer, this`padding, this`num_bits, this`code_buffer
      ensures ValidBits() && Pos() == old(Pos()) + 3 * hclen
      ensures sizes == CodeLengthLengths(data, old(Pos()), hclen)
      ensures Loaded() == AfterSizes(old(Pos()), old(Loaded()), hclen)
    {
      hide Field, CodeLengthLengths, AfterSizes, AfterBits;
      SizesStart(Pos(), Loaded());
      sizes := Repeat(0, 19);
      var i := 0;
      while i < hclen
        invariant 0 <= i <= hclen
        invariant ValidBits() && Pos() == old(Pos()) + 3 * i
        invariant sizes == CodeLengthLengths(data, old(Pos()), i)
        invariant Loaded() == AfterSizes(old(Pos()), old(Loaded()), i)
      {
        SizesStep(old(Pos()), old(Loaded()), i);
        var s := Receive(3);
        sizes := sizes[CODE_LENGTH_ORDER[i] := s];
        i := i + 1;
      }
    }

    lemma SizesStart(p: nat, k: nat)
      ensures CodeLengthLengths(data, p, 0) == Repeat(0, 19) && AfterSizes(p, k, 0) == k
    {
    }

    lemma SizesStep(p: nat, k: nat, i: nat)
      requires i < 19
      ensures CODE_LENGTH_ORDER[i] < 19
      ensures CodeLengthLengths(data, p, i + 1) == CodeLengthLengths(data, p, i)[CODE_LENGTH_ORDER[i] := Field(data, p + 3 * i, 3)]
      ensures AfterSizes(p, k, i + 1) == AfterBits(p + 3 * i, AfterSizes(p, k, i), 3)
    {
      hide Field, AfterBits;
    }

    /** One pass of the loop that reads code lengths: a length, or a run of equal lengths. */
    method ReadLengthsStep(zc: ZHuffman, ghost cl: seq<nat>, lencodes: array<nat>, n: nat, ntot: nat) returns (ok: bool, n': nat)
      requires ValidBits() && zc.TableOf(cl) && |cl| == 19
      requires n < ntot <= lencodes.Length && lencodes.Length == 455
      modifies this`zbuffer, this`padding, this`num_bits, this`code_buffer, lencodes
      ensures ValidBits() && Pos() >= old(Pos())
      ensures ok ==> n < n' <= ntot
      ensures ok ==> LengthsStep(data, cl, old(Pos()), ntot, old(lencodes[..n])) == Some((lencodes[..n'], Pos()))
      ensures ok ==> Loaded() == AfterLengthsStep(data, cl, old(Pos()), old(Loaded()))
      ensures !ok <==> Starved(|data|, old(Pos()), old(Loaded()))
                       || LengthsStep(data, cl, old(Pos()), ntot, old(lencodes[..n])).None?
    {
      hide Field, Symbol, SymbolAt, ZHuffman.TableOf, LengthsStep, AfterLengthsStep, AfterLookup, AfterBits, Starved;
      ghost var p, k, acc := Pos(), Loaded(), lencodes[..n];
      ok, n' := false, n;
      var c := HuffmanDecode(zc, cl);
      NoStep(cl, p, ntot, acc);
      if c < 0 {
        return;
      }
      TakenSymbol(cl, p, c);
      SymbolRange(cl, p, c);
      if c >= 19 {
        assert false; // the code has nineteen symbols
      }
      if c < 16 {
        LengthStep(cl, p, k, ntot, acc, c);
        lencodes[n] := c;
        n' := n + 1;
        assert lencodes[..n'] == acc + [c];
      } else {
        var fill := 0;
        RunStep(cl, p, k, ntot, acc, c);
        var run := ReadRun(c);
        if c == 16 {
          if n == 0 {
            return;
          }
          fill := lencodes[n - 1];
        }
        if ntot - n < run {
          return;
        }
        SetRange(lencodes, n, fill, run);
        n' := n + run;
      }
      ok := true;
    }

    /** Length of the run that a symbol from 16 to 18 starts: its extra bits and the least length. */
    method ReadRun(c: nat) returns (run: nat)
      requires ValidBits() && 16 <= c <= 18
      modifies this`zbuffer, this`padding, this`num_bits, this`code_buffer
      ensures ValidBits() && Pos() == old(Pos()) + RunBits(c) && Loaded() == AfterBits(old(Pos()), old(Loaded()), RunBits(c))
      ensures run == Field(data, old(Pos()), RunBits(c)) + (if c == 18 then 11 else 3)
    {
      hide Field, AfterBits;
      if c == 16 {
        run := Receive(2);
        run := run + 3;
      } else if c == 17 {
        run := Receive(3);
        run := run + 3;
      } else {
        run := Receive(7);
        run := run + 11;
      }
    }

    lemma NoStep(cl: seq<nat>, p: nat, total: nat, acc: seq<nat>)
      requires |cl| == 19
      ensures Symbol(data, cl, p).None? ==> LengthsStep(data, cl, p, total, acc).None?
    {
      hide Field, Symbol;
    }

    lemma LengthStep(cl: seq<nat>, p: nat, k: nat, total: nat, acc: seq<nat>, c: nat)
      requires |cl| == 19 && c < 16 && Symbol(data, cl, p) == Some(c)
      ensures LengthsStep(data, cl, p, total, acc) == Some((acc + [c], p + cl[c]))
      ensures AfterLengthsStep(data, cl, p, k) == AfterLookup(p, k)
    {
      hide Field, Symbol, AfterBits, AfterLookup;
    }

    lemma RunStep(cl: seq<nat>, p: nat, k: nat, total: nat, acc: seq<nat>, c: nat)
      requires |cl| == 19 && 16 <= c < 19 && Symbol(data, cl, p) == Some(c)
      ensures var p1 := p + cl[c];
              var run := Field(data, p1, RunBits(c)) + (if c == 18 then 11 else 3);
              && AfterLengthsStep(data, cl, p, k) == AfterBits(p1, AfterLookup(p, k), RunBits(c))
              && LengthsStep(data, cl, p, total, acc)
                 == if (c == 16 && acc == []) || total - |acc| < run then None
                    else Some((acc + Repeat(if c == 16 then acc[|acc| - 1] else 0, run), p1 + RunBits(c)))
    {
      hide Field, Symbol, AfterBits, AfterLookup;
    }

    /** memset(lencodes + n, fill, count) */
    method SetRange(lencodes: array<nat>, n: nat, fill: nat, count: nat)
      requires n + count <= lencodes.Length
      modifies lencodes
      ensures lencodes[..n + count] == old(lencodes[..n]) + Repeat(fill, count)
    {
      forall i | n <= i < n + count {
        lencodes[i] := fill;
      }
    }

    /** All ntot code lengths. */
    method ReadAllLengths(zc: ZHuffman, ghost cl: seq<nat>, ntot: nat) returns (ok: bool, lens: seq<nat>)
      requires ValidBits() && zc.TableOf(cl) && |cl| == 19 && ntot <= 320
      modifies this`zbuffer, this`padding, this`num_bits, this`code_buffer
      ensures ValidBits() && Pos() >= old(Pos())
      ensures ok ==> ReadLengths(data, cl, old(Pos()), ntot, []) == Some((lens, Pos()))
      ensures ok ==> AfterLengths(data, cl, old(Pos()), old(Loaded()), ntot, []) == Some(Loaded())
      ensures !ok ==> AfterLengths(data, cl, old(Pos()), old(Loaded()), ntot, []).None?
    {
      hide LengthsStep, ZHuffman.TableOf, Field, Starved, AfterLengthsStep;
      var lencodes := new nat[455];
      var n := 0;
      ok, lens := true, [];
      assert lencodes[..n] == [];
      while n < ntot
        invariant 0 <= n <= ntot
        invariant ValidBits() && Pos() >= old(Pos())
        invariant Lengths(lencodes[..n])
        invariant ReadLengths(data, cl, Pos(), ntot, lencodes[..n]) == ReadLengths(data, cl, old(Pos()), ntot, [])
        invariant AfterLengths(data, cl, Pos(), Loaded(), ntot, lencodes[..n]) == AfterLengths(data, cl, old(Pos()), old(Loaded()), ntot, [])
      {
        ghost var p, acc := Pos(), lencodes[..n];
        ok, n := ReadLengthsStep(zc, cl, lencodes, n, ntot);
        if !ok {
          return;
        }
        assert LengthsStep(data, cl, p, ntot, acc) == Some((lencodes[..n], Pos()));
      }
      lens := lencodes[..n];
    }

    /** The header at p describes no two codes, or a lookup in it starves. */
    ghost predicate NoCodes(p: nat, k: nat) {
      DynamicCodes(data, p).None? || AfterCodes(data, p, k).None?
    }

    /** stbi__compute_huffman_codes: refuses exactly the headers without codes and those that starve. */
    method ComputeHuffmanCodes() returns (ok: bool, ghost L: seq<nat>, ghost D: seq<nat>)
      requires ValidBits() && ValidTables()
      modifies this`zbuffer, this`padding, this`num_bits, this`code_buffer, z_length, z_distance
      ensures ValidBits() && ValidTables() && Pos() >= old(Pos())
      ensures ok ==> DynamicCodes(data, old(Pos())) == Some(Codes(L, D, Pos()))
      ensures ok ==> AfterCodes(data, old(Pos()), old(Loaded())) == Some(Loaded())
      ensures ok ==> z_length.TableOf(L) && z_distance.TableOf(D)
      ensures !ok ==> NoCodes(old(Pos()), old(Loaded()))
    {
      hide Field, CodeLengthLengths, ReadLengths, ZHuffman.TableOf, Kraft, Pow2, Lengths, DynamicCodes, AfterCodes, AfterLengths, AfterCounts, AfterSizes;
      ghost var p, k := Pos(), Loaded();
      L, D := [], [];
      var hlit, hdist, hclen := ReadCounts();
      var ntot := hlit + hdist;
      var codelength_sizes := ReadCodeLengthSizes(hclen);
      DynamicCases(p, k, hlit, hdist, hclen, codelength_sizes);
      var z_codelength := new ZHuffman();
      ok := z_codelength.Build(codelength_sizes);
      if !ok {
        return;
      }
      var lencodes;
      ok, lencodes := ReadAllLengths(z_codelength, codelength_sizes, ntot);
      if !ok {
        return;
      }
      L, D := lencodes[..hlit], lencodes[hlit..];
      ok := BuildBoth(lencodes, hlit);
    }

    /** HLIT, HDIST and HCLEN with their offsets. */
    method ReadCounts() returns (hlit: nat, hdist: nat, hclen: nat)
      requires ValidBits()
      modifies this`zbuffer, this`padding, this`num_bits, this`code_buffer
      ensures ValidBits() && Pos() == old(Pos()) + 14 && Loaded() == AfterCounts(old(Pos()), old(Loaded()))
      ensures hlit == Field(data, old(Pos()), 5) + 257 <= 288
      ensures hdist == Field(data, old(Pos()) + 5, 5) + 1 <= 32
      ensures hclen == Field(data, old(Pos()) + 10, 4) + 4 <= 19
    {
      hide Field, Pow2;
      FieldBound(data, Pos(), 5);
      FieldBound(data, Pos() + 5, 5);
      FieldBound(data, Pos() + 10, 4);
      Pow2Values();
      hlit := Receive(5);
      hlit := hlit + 257;
      hdist := Receive(5);
      hdist := hdist + 1;
      hclen := Receive(4);
      hclen := hclen + 4;
    }

    /** The tables for literals and lengths and for distances, from one list of lengths. */
    method BuildBoth(lencodes: seq<nat>, hlit: nat) returns (ok: bool)
      requires ValidTables() && Lengths(lencodes)
      requires hlit <= NUM_SYMBOLS && hlit <= |lencodes| <= hlit + 32
      modifies z_length, z_distance
      ensures ValidTables()
      ensures ok <==> NotOversubscribed(lencodes[..hlit]) && NotOversubscribed(lencodes[hlit..])
      ensures ok ==> z_length.TableOf(lencodes[..hlit]) && z_distance.TableOf(lencodes[hlit..])
    {
      hide ZHuffman.TableOf, Kraft, Pow2, Lengths;
      SliceLengths(lencodes, hlit);
      ok := z_length.Build(lencodes[..hlit]);
      if !ok {
        return;
      }
      ok := z_distance.Build(lencodes[hlit..]);
    }

    /** The outcomes of a dynamic header, one per exit of stbi__compute_huffman_codes. */
    lemma DynamicCases(p: nat, k: nat, hlit: nat, hdist: nat, hclen: nat, cl: seq<nat>)
      requires hlit == Field(data, p, 5) + 257 && hdist == Field(data, p + 5, 5) + 1
      requires hclen == Field(data, p + 10, 4) + 4 <= 19 && cl == CodeLengthLengths(data, p + 14, hclen)
      ensures !NotOversubscribed(cl) ==> DynamicCodes(data, p).None?
      ensures NotOversubscribed(cl) ==>
                match ReadLengths(data, cl, p + 14 + 3 * hclen, hlit + hdist, [])
                case None => DynamicCodes(data, p).None?
                case Some((lens, end)) =>
                  DynamicCodes(data, p) ==
                  if NotOversubscribed(lens[..hlit]) && NotOversubscribed(lens[hlit..])
                  then Some(Codes(lens[..hlit], lens[hlit..], end)) else None
      ensures AfterCodes(data, p, k)
              == AfterLengths(data, cl, p + 14 + 3 * hclen, AfterSizes(p + 14, AfterCounts(p, k), hclen), hlit + hdist, [])
    {
      hide Field, CodeLengthLengths, ReadLengths, NotOversubscribed, AfterLengths, AfterSizes, AfterCounts;
    }

    lemma SliceLengths(lens: seq<nat>, k: nat)
      requires Lengths(lens) && k <= |lens|
      ensures Lengths(lens[..k]) && Lengths(lens[k..])
    {
    }

    // ----- stored blocks

    /** Discard the bits up to the next byte boundary. */
    method AlignToByte() returns (ghost whole: nat, ghost s: nat)
      requires ValidBits() && num_bits <= 31
      modifies this`zbuffer, this`padding, this`num_bits, this`code_buffer
      ensures ValidBits() && whole <= 3 && num_bits == 8 * whole
      ensures s == (old(Pos()) + 7) / 8 && Pos() == 8 * s
    {
      hide Field;
      ghost var rest := num_bits % 8;
      whole := num_bits / 8;
      s := Loaded() - whole;
      if num_bits % 8 != 0 {
        var _ := Receive(num_bits % 8); // discard
      }
    }

    /** Whole bytes still in the bit buffer open the header. */
    method DrainBuffer(ghost whole: nat, ghost s: nat) returns (header: seq<byte>)
      requires ValidBits() && whole <= 3 && num_bits == 8 * whole && Pos() == 8 * s
      modifies this`num_bits, this`code_buffer
      ensures ValidBits() && num_bits == 0 && |header| == whole && Loaded() == s + whole
      ensures HeaderBytes(s, header)
    {
      hide Field, Low, Shr, ByteAt;
      header := [];
      while num_bits > 0
        invariant ValidBits() && num_bits == 8 * (whole - |header|)
        invariant Pos() == 8 * (s + |header|) && HeaderBytes(s, header)
        decreases num_bits
      {
        LowByte(Pos(), num_bits, s + |header|);
        header := header + [Low(code_buffer, 8)];
        Consume(8);
      }
      if num_bits < 0 {
        assert false; // only whole bytes were drained
      }
    }

    ghost predicate HeaderBytes(s: nat, header: seq<byte>) {
      forall i :: 0 <= i < |header| ==> header[i] == ByteAt(data, s + i)
    }

    /** The bytes still in the bit buffer, then bytes from the input: a four-byte header. */
    method ReadStoredHeader() returns (header: seq<byte>, ghost s: nat)
      requires ValidBits() && num_bits <= 31
      modifies this`zbuffer, this`padding, this`num_bits, this`code_buffer
      ensures ValidBits() && num_bits == 0
      ensures s == (old(Pos()) + 7) / 8 && Loaded() == s + 4
      ensures |header| == 4 && HeaderBytes(s, header)
    {
      hide Field, ByteAt;
      ghost var whole;
      whole, s := AlignToByte();
      header := DrainBuffer(whole, s);
      // the rest comes from the input
      while |header| < 4
        invariant ValidBits() && num_bits == 0 && |header| <= 4
        invariant Loaded() == s + |header| && HeaderBytes(s, header)
        decreases 4 - |header|
      {
        EmptyField(Pos());
        var b := Get8();
        header := header + [b];
        EmptyField(Pos());
      }
    }

    lemma EmptyField(p: nat)
      ensures Field(data, p, 0) == 0
    {
    }

    lemma LowByte(p: nat, n: nat, k: nat)
      requires p == 8 * k && 8 <= n
      ensures Low(Field(data, p, n), 8) == ByteAt(data, k)
    {
      hide Field, Low;
      FieldSplit(data, p, 8, n - 8);
      FieldByte(data, k);
    }

    ghost predicate NoStored(s: nat, size: nat, room: nat) {
      forall bytes: seq<byte> :: StoredAt(data, s, bytes) ==> size + |bytes| > room
    }

    /** stbi__parse_uncompressed_block */
    method ParseUncompressedBlock() returns (ok: bool, ghost bytes: seq<byte>)
      requires ValidBits() && ValidOutput() && num_bits <= 31
      modifies this`zbuffer, this`padding, this`num_bits, this`code_buffer, this`buffer, this`zout, buffer
      ensures ValidBits() && ValidOutput()
      ensures (buffer == old(buffer) || fresh(buffer)) && (!z_expandable ==> buffer == old(buffer))
      ensures var s := (old(Pos()) + 7) / 8;
              if ok then StoredAt(data, s, bytes) && Pos() == 8 * (s + 4 + |bytes|) && Loaded() == s + 4 + |bytes|
                         && Contents() == old(Contents()) + bytes
              else NoStored(s, |old(Contents())|, room)
    {
      hide Field, Xor, Ceiling, ByteAt;
      ghost var out := Contents();
      bytes := [];
      var header;
      ghost var s;
      header, s := ReadStoredHeader();
      var len := Word(header[1], header[0]);
      var nlen := Word(header[3], header[2]);
      Complement(len);
      HeaderWords(s, header);
      if nlen != Xor(len, 0xFFFF) {
        return false, bytes; // zlib corrupt
      }
      if zbuffer + len > |data| {
        return false, bytes; // read past buffer
      }
      assert padding == 0; // a padded header cannot carry a matching complement
      bytes := data[zbuffer..zbuffer + len];
      if zout + len > buffer.Length {
        ok := MakeRoom(zout, len);
        if !ok {
          return false, bytes;
        }
      }
      CopyInput(len);
      ok := true;
    }

    lemma Complement(len: nat)
      requires len <= 0xFFFF
      ensures Xor(len, 0xFFFF) == 0xFFFF - len
    {
      Pow2Values();
      XorOnes(len, 16);
    }

    lemma HeaderWords(s: nat, header: seq<byte>)
      requires |header| == 4 && HeaderBytes(s, header)
      ensures s + 4 <= |data| ==> Word(header[1], header[0]) == LittleEndian(data, s)
                                  && Word(header[3], header[2]) == LittleEndian(data, s + 2)
      ensures s + 4 > |data| ==> Word(header[3], header[2]) <= 0xFF
    {
      assert header[0] == ByteAt(data, s) && header[1] == ByteAt(data, s + 1);
      assert header[2] == ByteAt(data, s + 2) && header[3] == ByteAt(data, s + 3);
    }

    /** memcpy from the input, and both cursors past the bytes. */
    method CopyInput(len: nat)
      requires ValidBits() && ValidOutput() && num_bits == 0 && padding == 0
      requires zbuffer + len <= |data| && zout + len <= buffer.Length
      modifies this`zbuffer, this`zout, buffer
      ensures ValidBits() && ValidOutput()
      ensures zbuffer == old(zbuffer) + len && zout == old(zout) + len
      ensures Contents() == old(Contents()) + data[old(zbuffer)..old(zbuffer) + len]
    {
      forall i | 0 <= i < len {
        buffer[zout + i] := data[zbuffer + i];
      }
      EmptyField(8 * (zbuffer + len));
      EmptyField(8 * zbuffer);
      zbuffer := zbuffer + len;
      zout := zout + len;
    }

    // ----- the stream

    /** stbi__parse_zlib_header */
    method ParseZlibHeader() returns (ok: bool)
      requires ValidBits() && num_bits == 0 && zbuffer == 0 && padding == 0
      modifies this`zbuffer, this`padding
      ensures ok <==> HeaderOk(data)
      ensures ok ==> zbuffer == 2 && padding == 0
      ensures ValidInput()
    {
      hide Low, And;
      var cmf := Get8();
      var cm := Low(cmf, 4);
      var flg := Get8();
      if zbuffer >= |data| {
        return false; // bad zlib header
      }
      if Word(cmf, flg) % 31 != 0 {
        return false; // bad zlib header
      }
      MaskBit5(flg);
      if And(flg, 32) != 0 {
        return false; // no preset dict
      }
      if cm != 8 {
        return false; // bad compression
      }
      ok := true;
    }

    lemma MaskBit5(x: byte)
      ensures And(x, 32) != 0 <==> Bit(x, 5) == 1
    {
      BitAnd(x, 32, 5);
      assert Bit(32, 5) == 1;
      BitZero(5);
      AndSingle(x, 5);
    }

    /** `x & (1 << n)` is zero exactly when bit n of x is clear. */
    lemma {:induction false} AndSingle(x: nat, n: nat)
      ensures And(x, Pow2(n)) == 0 <==> Bit(x, n) == 0
      decreases n
    {
      if x == 0 {
        BitZero(n);
      } else if n == 0 {
        assert And(x / 2, 0) == 0;
      } else {
        assert Pow2(n) / 2 == Pow2(n - 1) && Pow2(n) % 2 == 0;
        AndSingle(x / 2, n - 1);
      }
    }

    /** Every stream that starts at p starves or runs past the room for output. */
    ghost predicate NoStream(p: nat) {
      forall bs: seq<Block> :: StreamAt(data, p, bs) && Denotes(bs).Some? ==>
        !BlocksFed(data, p, p / 8, bs) || |Denotes(bs).value| > room
    }

    /** The block cannot be the next one of a stream that is fed and fits the room. */
    ghost predicate BlockedBlock(q: nat, k: nat, o: seq<byte>, b: Block, final: bool) {
      b.At(data, q, final) && b.Output(o).Some? ==>
        !BlockFed(data, q, k, b) || |b.Output(o).value| > room
    }

    /** The blocks read so far: they stand at p, end at q with k bytes loaded, and denote o. */
    ghost predicate ReadBlocks(p: nat, bs: seq<Block>, q: nat, k: nat, o: seq<byte>) {
      && BlocksAt(data, p, bs) && q == BlocksEnd(data, p, bs) && Denotes(bs) == Some(o)
      && k == AfterBlocks(data, p, p / 8, bs) && BlocksFed(data, p, p / 8, bs)
    }

    lemma NoBlocks(p: nat)
      ensures ReadBlocks(p, [], p, p / 8, [])
    {
    }

    lemma BlocksSnoc(p: nat, bs: seq<Block>, q: nat, k: nat, o: seq<byte>, b: Block, final: bool)
      requires ReadBlocks(p, bs, q, k, o) && b.At(data, q, final) && BlockFed(data, q, k, b) && b.Output(o).Some?
      ensures !final ==> ReadBlocks(p, bs + [b], b.End(data, q), AfterBlock(data, q, k, b), b.Output(o).value)
      ensures final ==> StreamAt(data, p, bs + [b]) && BlocksFed(data, p, p / 8, bs + [b])
      ensures BlocksEnd(data, p, bs + [b]) == b.End(data, q) && Denotes(bs + [b]) == b.Output(o)
    {
      hide Block.At, Block.End, Block.Output, BlockFed, AfterBlock;
      BlocksFedSnoc(data, p, p / 8, bs, b);
      assert (bs + [b])[..|bs|] == bs;
    }

    lemma RefusedStream(p: nat, bs: seq<Block>, q: nat, k: nat, o: seq<byte>)
      requires ReadBlocks(p, bs, q, k, o) && RefusedBlock(q, k, o)
      ensures NoStream(p)
    {
      hide ReadBlocks, RefusedBlock, BlockedBlock;
      forall b: Block, final: bool
        ensures BlockedBlock(q, k, o, b, final)
      {
        RefusedBlockBlocks(q, k, o, b, final);
      }
      forall full: seq<Block> | StreamAt(data, p, full) && Denotes(full).Some?
        ensures !BlocksFed(data, p, p / 8, full) || |Denotes(full).value| > room
      {
        if BlocksFed(data, p, p / 8, full) {
          AllBlocked(p, bs, q, k, o, full);
        }
      }
    }

    lemma AllBlocked(p: nat, bs: seq<Block>, q: nat, k: nat, o: seq<byte>, full: seq<Block>)
      requires ReadBlocks(p, bs, q, k, o)
      requires forall b: Block, final: bool :: BlockedBlock(q, k, o, b, final)
      requires StreamAt(data, p, full) && BlocksFed(data, p, p / 8, full) && Denotes(full).Some?
      ensures |Denotes(full).value| > room
    {
      hide Block.At, Block.End, Block.Output, BlockFed, AfterBlock;
      BlocksAgree(data, p, bs, full);
      var n, last := |bs|, |full| - 1;
      DenotesPrefix(full, n);
      BlocksFedPrefix(data, p, p / 8, full, n);
      if n == last {
        assert BlockedBlock(q, k, o, full[n], true);
      } else {
        assert full[..last][..n] == full[..n];
        BlocksPrefix(data, p, full[..last], n);
        assert BlockedBlock(q, k, o, full[n], false);
      }
    }

    /** Why the block at q was refused, by its type bits. */
    ghost predicate RefusedBlock(q: nat, k: nat, o: seq<byte>) {
      var kind := Field(data, q + 1, 2);
      if kind == 0 then NoStored((q + 10) / 8, |o|, room)
      else if kind == 1 then NoBody(data, FIXED_LENGTHS, FIXED_DISTANCES, q + 3, AfterHeader(q, k), o, room)
      else if kind == 2 then
        var c, k' := DynamicCodes(data, q + 3), AfterCodes(data, q + 3, AfterHeader(q, k));
        c.Some? && k'.Some? ==> NoBody(data, c.value.L, c.value.D, c.value.end, k'.value, o, room)
      else kind == 3
    }

    lemma RefusedBlockBlocks(q: nat, k: nat, o: seq<byte>, b: Block, final: bool)
      requires RefusedBlock(q, k, o)
      ensures BlockedBlock(q, k, o, b, final)
    {
      hide Field, DynamicCodes, StoredAt, BodyAt, BodyFed, Expand, TokensEnd, AfterHeader, AfterCodes;
    }

    /** The block at q behind its three header bits, whatever its type. */
    method ParseBlock(ghost q: nat, ghost k: nat, kind: nat) returns (ok: bool, ghost b: Block)
      requires ValidBits() && ValidOutput() && ValidTables() && num_bits <= 30
      requires Pos() == q + 3 && Loaded() == AfterHeader(q, k) && kind == Field(data, q + 1, 2)
      modifies this`zbuffer, this`padding, this`num_bits, this`code_buffer, this`buffer, this`zout, buffer
      modifies z_length, z_distance
      ensures ValidBits() && ValidOutput() && ValidTables()
      ensures (buffer == old(buffer) || fresh(buffer)) && (!z_expandable ==> buffer == old(buffer))
      ensures ok ==> b.At(data, q, Field(data, q, 1) == 1) && Pos() == b.End(data, q)
      ensures ok ==> BlockFed(data, q, k, b) && Loaded() == AfterBlock(data, q, k, b)
      ensures ok ==> b.Output(old(Contents())) == Some(Contents())
      ensures ok ==> q + 3 <= Pos() && q < 8 * |data|
      ensures !ok ==> RefusedBlock(q, k, old(Contents()))
    {
      hide Field, DynamicCodes, BodyAt, BodyEnd, BodyFed, AfterBody, AfterCodes, AfterHeader, Expand, NoBody, ZHuffman.TableOf, StoredAt, NoStored;
      hide Block.At, Block.End, Block.Output, BlockFed, AfterBlock, RefusedBlock;
      b := Stored([]);
      FinalBit(q);
      PastEnd(q);
      if kind == 0 {
        ghost var bytes;
        ok, bytes := ParseUncompressedBlock();
        b := Stored(bytes);
        if ok {
          StoredBlock(q, k, bytes, old(Contents()));
        } else {
          NoStoredBlock(q, k, old(Contents()));
        }
      } else if kind == 3 {
        NoSuchBlock(q, k, old(Contents()));
        return false, b;
      } else if kind == 1 {
        ok := UseFixedCodes();
        if !ok {
          assert false; // the fixed codes satisfy the Kraft inequality
        }
        ghost var ts;
        ok, ts := ParseHuffmanBlock(FIXED_LENGTHS, FIXED_DISTANCES);
        b := Fixed(ts);
        if ok {
          FixedBlock(q, k, ts, old(Contents()));
        } else {
          NoFixedBlock(q, k, old(Contents()));
        }
      } else {
        TypeBits(q);
        ok, b := ParseDynamicBlock(q, k);
      }
    }

    /** A block that brings its own codes. */
    method ParseDynamicBlock(ghost q: nat, ghost k: nat) returns (ok: bool, ghost b: Block)
      requires ValidBits() && ValidOutput() && ValidTables()
      requires Pos() == q + 3 && Loaded() == AfterHeader(q, k) && Field(data, q + 1, 2) == 2 && Field(data, q, 1) <= 1
      modifies this`zbuffer, this`padding, this`num_bits, this`code_buffer, this`buffer, this`zout, buffer
      modifies z_length, z_distance
      ensures ValidBits() && ValidOutput() && ValidTables()
      ensures (buffer == old(buffer) || fresh(buffer)) && (!z_expandable ==> buffer == old(buffer))
      ensures ok ==> b.At(data, q, Field(data, q, 1) == 1) && Pos() == b.End(data, q)
      ensures ok ==> BlockFed(data, q, k, b) && Loaded() == AfterBlock(data, q, k, b)
      ensures ok ==> b.Output(old(Contents())) == Some(Contents()) && q + 3 <= Pos()
      ensures !ok ==> RefusedBlock(q, k, old(Contents()))
    {
      hide Field, DynamicCodes, BodyAt, BodyEnd, BodyFed, AfterBody, AfterCodes, AfterHeader, Expand, NoBody, ZHuffman.TableOf;
      hide Block.At, Block.End, Block.Output, BlockFed, AfterBlock, RefusedBlock;
      b := Stored([]);
      ghost var L, D;
      ok, L, D := ComputeHuffmanCodes();
      if !ok {
        NoDynamicBlock(q, k, old(Contents()));
        return;
      }
      ghost var c, kc := Codes(L, D, Pos()), Loaded();
      ghost var ts;
      ok, ts := ParseHuffmanBlock(L, D);
      b := Dynamic(ts);
      if ok {
        DynamicBlock(q, k, c, kc, ts, old(Contents()));
      } else {
        NoDynamicBody(q, k, c, kc, old(Contents()));
      }
    }

    // what each way through the loop establishes about the block at q

    lemma StoredBlock(q: nat, k: nat, bytes: seq<byte>, o: seq<byte>)
      requires Field(data, q, 1) <= 1 && Field(data, q + 1, 2) == 0 && StoredAt(data, (q + 10) / 8, bytes)
      ensures var b := Stored(bytes);
              && b.At(data, q, Field(data, q, 1) == 1) && b.End(data, q) == 8 * ((q + 10) / 8 + 4 + |bytes|)
              && BlockFed(data, q, k, b) && AfterBlock(data, q, k, b) == (q + 10) / 8 + 4 + |bytes|
              && b.Output(o) == Some(o + bytes) && q < 8 * |data| && q + 3 <= b.End(data, q)
    {
      hide Field;
    }

    lemma NoStoredBlock(q: nat, k: nat, o: seq<byte>)
      requires Field(data, q + 1, 2) == 0 && NoStored((q + 10) / 8, |o|, room)
      ensures RefusedBlock(q, k, o)
    {
      hide Field, NoStored;
    }

    lemma NoSuchBlock(q: nat, k: nat, o: seq<byte>)
      requires Field(data, q + 1, 2) == 3
      ensures RefusedBlock(q, k, o)
    {
      hide Field;
    }

    lemma FixedBlock(q: nat, k: nat, ts: seq<Token>, o: seq<byte>)
      requires Field(data, q, 1) <= 1 && Field(data, q + 1, 2) == 1
      requires BodyAt(data, FIXED_LENGTHS, FIXED_DISTANCES, q + 3, ts)
      requires BodyFed(|data|, FIXED_LENGTHS, FIXED_DISTANCES, q + 3, AfterHeader(q, k), ts)
      ensures var b := Fixed(ts);
              && b.At(data, q, Field(data, q, 1) == 1) && b.End(data, q) == BodyEnd(FIXED_LENGTHS, FIXED_DISTANCES, q + 3, ts)
              && BlockFed(data, q, k, b) && AfterBlock(data, q, k, b) == AfterBody(FIXED_LENGTHS, FIXED_DISTANCES, q + 3, AfterHeader(q, k), ts)
              && b.Output(o) == Expand(o, ts) && q + 3 <= b.End(data, q)
    {
      hide Field, BodyAt, BodyFed, AfterBody, AfterHeader, BodyEnd, Expand;
      BodyGrows(FIXED_LENGTHS, FIXED_DISTANCES, q + 3, ts);
    }

    lemma NoFixedBlock(q: nat, k: nat, o: seq<byte>)
      requires Field(data, q + 1, 2) == 1
      requires NoBody(data, FIXED_LENGTHS, FIXED_DISTANCES, q + 3, AfterHeader(q, k), o, room)
      ensures RefusedBlock(q, k, o)
    {
      hide Field, NoBody, AfterHeader;
    }

    lemma DynamicBlock(q: nat, k: nat, c: Codes, kc: nat, ts: seq<Token>, o: seq<byte>)
      requires Field(data, q, 1) <= 1 && Field(data, q + 1, 2) == 2
      requires DynamicCodes(data, q + 3) == Some(c) && AfterCodes(data, q + 3, AfterHeader(q, k)) == Some(kc)
      requires BodyAt(data, c.L, c.D, c.end, ts) && BodyFed(|data|, c.L, c.D, c.end, kc, ts)
      ensures var b := Dynamic(ts);
              && b.At(data, q, Field(data, q, 1) == 1) && b.End(data, q) == BodyEnd(c.L, c.D, c.end, ts)
              && BlockFed(data, q, k, b) && AfterBlock(data, q, k, b) == AfterBody(c.L, c.D, c.end, kc, ts)
              && b.Output(o) == Expand(o, ts) && q + 3 <= b.End(data, q)
    {
      hide Field, BodyAt, BodyFed, AfterBody, AfterHeader, BodyEnd, Expand, DynamicCodes, AfterCodes;
      BodyGrows(c.L, c.D, c.end, ts);
    }

    lemma NoDynamicBlock(q: nat, k: nat, o: seq<byte>)
      requires Field(data, q + 1, 2) == 2 && NoCodes(q + 3, AfterHeader(q, k))
      ensures RefusedBlock(q, k, o)
    {
      hide Field, AfterHeader, DynamicCodes, AfterCodes, NoBody;
    }

    lemma NoDynamicBody(q: nat, k: nat, c: Codes, kc: nat, o: seq<byte>)
      requires Field(data, q + 1, 2) == 2
      requires DynamicCodes(data, q + 3) == Some(c) && AfterCodes(data, q + 3, AfterHeader(q, k)) == Some(kc)
      requires NoBody(data, c.L, c.D, c.end, kc, o, room)
      ensures RefusedBlock(q, k, o)
    {
      hide Field, AfterHeader, DynamicCodes, AfterCodes, NoBody;
    }

    lemma FinalBit(q: nat)
      ensures Field(data, q, 1) <= 1
    {
      FieldBound(data, q, 1);
    }

    lemma TypeBits(q: nat)
      ensures Field(data, q + 1, 2) <= 3
    {
      FieldBound(data, q + 1, 2);
      Pow2Values();
    }

    lemma PastEnd(q: nat)
      ensures 8 * |data| <= q ==> Field(data, q + 1, 2) == 0
    {
      if 8 * |data| <= q {
        FieldPastEnd(data, q + 1, 2);
      }
    }

    /** The default code lengths; both tables are always accepted. */
    method UseFixedCodes() returns (ok: bool)
      requires ValidTables()
      modifies z_length, z_distance
      ensures ValidTables() && ok
      ensures z_length.TableOf(FIXED_LENGTHS) && z_distance.TableOf(FIXED_DISTANCES)
    {
      hide Kraft, Pow2, Lengths, ZHuffman.TableOf;
      FixedCodesComplete();
      ok := z_length.Build(FIXED_LENGTHS);
      ok := z_distance.Build(FIXED_DISTANCES);
    }

    /**
     * stbi__parse_zlib: on success the output is what the stream denotes; it fails exactly when the
     * header is bad or there is no stream that is fed and fits the room.
     */
    method ParseZlib(parse_header: bool) returns (ok: bool, ghost bs: seq<Block>)
      requires ValidInput() && ValidOutput() && ValidTables() && zbuffer == 0 && padding == 0 && zout == 0
      requires num_bits == 0 && code_buffer == 0
      modifies this`zbuffer, this`padding, this`num_bits, this`code_buffer, this`buffer, this`zout, buffer
      modifies z_length, z_distance
      ensures ValidOutput() && (!z_expandable ==> buffer == old(buffer))
      ensures var p := Start(parse_header);
              && (ok ==> (parse_header ==> HeaderOk(data)) && Delivers(data, p, Contents(), room)
                         && StreamAt(data, p, bs) && Denotes(bs) == Some(Contents()) && Pos() == BlocksEnd(data, p, bs))
              && (!ok ==> (parse_header && !HeaderOk(data)) || forall out: seq<byte> :: !Delivers(data, p, out, room))
    {
      hide Field, HeaderOk, NoStream, StreamAt, ReadBlocks, Delivers, Denotes, BlocksEnd, Ceiling;
      ok, bs := true, [];
      EmptyField(0);
      if parse_header {
        ok := ParseZlibHeader();
        if !ok {
          return;
        }
      }
      num_bits := 0;
      code_buffer := 0;
      EmptyField(Pos());
      ghost var p := Pos();
      assert Contents() == [];
      NoBlocks(p);
      var final := false;
      while !final
        invariant ValidBits() && ValidOutput() && ValidTables()
        invariant (buffer == old(buffer) || fresh(buffer)) && (!z_expandable ==> buffer == old(buffer))
        invariant ok && (if final then Complete(p, bs) else ReadBlocks(p, bs, Pos(), Loaded(), Contents()))
        decreases !final, if 8 * |data| <= Pos() then 0 else 8 * |data| - Pos()
      {
        ok, final, bs := NextBlock(p, bs);
        if !ok {
          NothingDelivered(p);
          return;
        }
      }
    }

    /** The blocks are the whole stream at p, and the output is theirs. */
    ghost predicate Complete(p: nat, bs: seq<Block>)
      requires zout <= buffer.Length
      reads this`zbuffer, this`padding, this`num_bits, this`buffer, this`zout, buffer
    {
      && StreamAt(data, p, bs) && Denotes(bs) == Some(Contents()) && Pos() == BlocksEnd(data, p, bs)
      && Delivers(data, p, Contents(), room)
    }

    /** One pass of the loop of stbi__parse_zlib: the final bit, the type, the block. */
    method NextBlock(ghost p: nat, ghost bs: seq<Block>) returns (ok: bool, final: bool, ghost bs': seq<Block>)
      requires ValidBits() && ValidOutput() && ValidTables() && ReadBlocks(p, bs, Pos(), Loaded(), Contents())
      modifies this`zbuffer, this`padding, this`num_bits, this`code_buffer, this`buffer, this`zout, buffer
      modifies z_length, z_distance
      ensures ValidBits() && ValidOutput() && ValidTables()
      ensures (buffer == old(buffer) || fresh(buffer)) && (!z_expandable ==> buffer == old(buffer))
      ensures ok ==> final == (Field(data, old(Pos()), 1) == 1)
      ensures ok && final ==> Complete(p, bs')
      ensures ok && !final ==> ReadBlocks(p, bs', Pos(), Loaded(), Contents())
      ensures ok ==> old(Pos()) < Pos() && old(Pos()) < 8 * |data|
      ensures !ok ==> NoStream(p)
    {
      hide Field, Block.At, Block.End, Block.Output, NoStream, RefusedBlock, StreamAt, ReadBlocks, Delivers, Denotes, BlocksEnd;
      hide AfterHeader, AfterBits, BlockFed, AfterBlock, Ceiling;
      ghost var q, k, o := Pos(), Loaded(), Contents();
      var final_bit := Receive(1);
      var kind := Receive(2);
      final := final_bit != 0;
      HeaderLoad(q, k);
      FinalBit(q);
      ghost var b;
      ok, b := ParseBlock(q, k, kind);
      bs' := bs + [b];
      if !ok {
        RefusedStream(p, bs, q, k, o);
        return;
      }
      BlocksSnoc(p, bs, q, k, o, b, final);
      if final {
        DeliveredHere(p, bs', Contents());
      }
    }

    lemma HeaderLoad(q: nat, k: nat)
      ensures AfterBits(q + 1, AfterBits(q, k, 1), 2) == AfterHeader(q, k)
    {
    }

    lemma NothingDelivered(p: nat)
      requires NoStream(p)
      ensures forall out: seq<byte> :: !Delivers(data, p, out, room)
    {
      hide StreamAt, Denotes, BlocksFed;
    }

    lemma DeliveredHere(p: nat, bs: seq<Block>, out: seq<byte>)
      requires StreamAt(data, p, bs) && Denotes(bs) == Some(out) && |out| <= room && BlocksFed(data, p, p / 8, bs)
      ensures Delivers(data, p, out, room)
    {
    }
  }
}
