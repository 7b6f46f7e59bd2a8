/** The entropy-coded bits of a JPEG scan and the buffer they are read through. */
module JpegReader {
  import opened Collections
  import opened Bits
  import opened MsbStream
  import opened JpegCodes
  import opened JpegHuffman

  // ----- byte stuffing (section F.1.2.3 of ITU-T T.81)

  function ByteAt(raw: seq<byte>, pos: nat): byte {
    if pos < |raw| then raw[pos] else 0
  }

  /** The position of the first byte from pos that is not a fill byte. */
  function SkipFill(raw: seq<byte>, pos: nat): (q: nat)
    ensures pos <= q && ByteAt(raw, q) != 0xff
    decreases |raw| - pos
  {
    if pos < |raw| && raw[pos] == 0xff then SkipFill(raw, pos + 1) else pos
  }

  /** The coded bytes from pos up to the next marker: FF 00 stands for FF. */
  function Entropy(raw: seq<byte>, pos: nat): seq<byte>
    decreases |raw| - pos
  {
    if pos >= |raw| then []
    else if raw[pos] != 0xff then [raw[pos]] + Entropy(raw, pos + 1)
    else
      var q := SkipFill(raw, pos + 1);
      if ByteAt(raw, q) != 0 then [] else [0xff] + Entropy(raw, q + 1)
  }

  // ----- the buffer as a number

  /** A left-aligned buffer of n bits, the first of them on top. */
  function Aligned(data: seq<byte>, p: nat, n: nat): nat
    requires n <= 32
  {
    Shl(MsbField(data, p, n), 32 - n)
  }

  lemma AlignedSplit(data: seq<byte>, p: nat, a: nat, n: nat)
    requires a <= n <= 32
    ensures Aligned(data, p, n) == Shl(MsbField(data, p, a), 32 - a) + Shl(MsbField(data, p + a, n - a), 32 - n)
    ensures Shl(MsbField(data, p + a, n - a), 32 - n) < Pow2(32 - a)
  {
    hide Shl, MsbField, Pow2;
    MsbAppend(data, p, a, n - a);
    var f, g := MsbField(data, p, a), MsbField(data, p + a, n - a);
    ShlAdd(Shl(f, n - a), g, 32 - n);
    ShlShl(f, n - a, 32 - n);
    MsbBound(data, p + a, n - a);
    ShlMonotone(g, Pow2(n - a), 32 - n);
    ShlPow2(n - a, 32 - n);
  }

  /** Looking at the top bits. */
  lemma Peek(data: seq<byte>, p: nat, n: nat, a: nat)
    requires n <= 32 && a <= 32 && (a <= n || 8 * |data| <= p + n)
    ensures Shr(Aligned(data, p, n), 32 - a) == MsbField(data, p, a)
  {
    hide Shl, Shr, Low, MsbField, Pow2;
    if a <= n {
      AlignedSplit(data, p, a, n);
      ShlSplit(MsbField(data, p, a), Shl(MsbField(data, p + a, n - a), 32 - n), 32 - a);
    } else {
      MsbAppend(data, p, n, a - n);
      MsbPastEnd(data, p + n, a - n);
      var f := MsbField(data, p, n);
      ShlShl(f, a - n, 32 - a);
      ShlSplit(Shl(f, a - n), 0, 32 - a);
    }
  }

  /** `x <<= n` on 32 bits */
  function Shl32(x: nat, n: nat): nat {
    Low(Shl(x, n), 32)
  }

  /** Dropping the top bits. */
  lemma Drop(data: seq<byte>, p: nat, n: nat, a: nat)
    requires a <= n <= 32
    ensures Shl32(Aligned(data, p, n), a) == Aligned(data, p + a, n - a)
  {
    hide Shl, Low, MsbField, Pow2, Shr;
    AlignedSplit(data, p, a, n);
    var f, rest := MsbField(data, p, a), Shl(MsbField(data, p + a, n - a), 32 - n);
    ShlAdd(Shl(f, 32 - a), rest, a);
    ShlShl(f, 32 - a, a);
    ShlShl(MsbField(data, p + a, n - a), 32 - n, a);
    ShlMonotone(rest, Pow2(32 - a), a);
    ShlPow2(32 - a, a);
    ShlSplit(f, Shl(rest, a), 32);
  }

  lemma AlignedBound(data: seq<byte>, p: nat, n: nat)
    requires n <= 32
    ensures Aligned(data, p, n) < 0x1_0000_0000
  {
    hide Shl, MsbField, Pow2;
    MsbBound(data, p, n);
    ShlMonotone(MsbField(data, p, n), Pow2(n), 32 - n);
    ShlPow2(n, 32 - n);
    Pow2Values();
  }

  /** Adding a byte below the bits already there. */
  lemma LoadByte(data: seq<byte>, k: nat, n: nat, b: nat)
    requires n <= 24 && n <= 8 * k && b == MsbField(data, 8 * k, 8)
    ensures Or(Aligned(data, 8 * k - n, n), Shl(b, 24 - n)) == Aligned(data, 8 * k - n, n + 8)
  {
    hide Shl, Low, MsbField, Pow2, Shr, Or;
    var p := 8 * k - n;
    AlignedSplit(data, p, n, n + 8);
    OrCommutes(Aligned(data, p, n), Shl(b, 24 - n));
    OrDisjoint(Shl(b, 24 - n), MsbField(data, p, n), 32 - n);
  }

  // ----- receive and extend

  /** EXTEND of Figure F.12. */
  function Extend(v: nat, n: nat): int
    requires n > 0
  {
    if v < Pow2(n - 1) then v - Pow2(n) + 1 else v
  }

  /** `stbi_lrot(x, n)` */
  function Rotate(x: nat, n: nat): nat
    requires n <= 32
  {
    Or(Shl32(x, n), Shr(x, 32 - n))
  }

  lemma RotateParts(x: nat, n: nat)
    requires x < 0x1_0000_0000 && 0 < n <= 32
    ensures Low(Rotate(x, n), n) == Shr(x, 32 - n)
    ensures Shl(Shr(Rotate(x, n), n), n) == Shl32(x, n)
  {
    hide Shl, Low, Pow2, Shr, Or;
    var hi, low := Shr(x, 32 - n), Low(x, 32 - n);
    Split(x, 32 - n);
    Pow2Values();
    assert hi < Pow2(n) by {
      ShlMonotone(hi, Pow2(n), 32 - n);
      ShlPow2(n, 32 - n);
    }
    ShlAdd(Shl(hi, 32 - n), low, n);
    ShlShl(hi, 32 - n, n);
    ShlMonotone(low, Pow2(32 - n), n);
    ShlPow2(32 - n, n);
    ShlSplit(hi, Shl(low, n), 32);
    OrCommutes(Shl(low, n), hi);
    OrDisjoint(hi, low, n);
    ShlSplit(low, hi, n);
  }

  /** The sign bit decides which half of the range the received value is in. */
  lemma SignBit(v: nat, n: nat)
    requires 0 < n && v < Pow2(n)
    ensures Shr(v, n - 1) == if v < Pow2(n - 1) then 0 else 1
  {
    hide Shl, Low, Shr;
    if v < Pow2(n - 1) {
      ShlZero(n - 1);
      ShlSplit(0, v, n - 1);
    } else {
      ShlOne(n - 1);
      ShlSplit(1, v - Pow2(n - 1), n - 1);
    }
  }

  /** `stbi__jbias[n]` */
  function Bias(n: nat): int {
    1 - Pow2(n)
  }

  // ----- looking up a code

  /** 255 marks the slots that are not accelerated, so symbol number 255 must not be accelerated. */
  ghost predicate Accelerable(s: seq<nat>) {
    |s| <= 255 || s[255] > FAST_BITS
  }

  /** The window is not one of the accelerated symbol number 255. */
  ghost predicate Readable(s: seq<nat>, w: nat)
    requires Sizes(s)
  {
    Accelerable(s) || !Begins(s, 255, w)
  }

  /** Without a fast entry no short code begins the window. */
  lemma FastMiss(h: Huffman, s: seq<nat>, w: nat)
    requires h.TableOf(s) && w < 65536 && Shr(w, 7) < FAST_SIZE && h.fast[Shr(w, 7)] == NOT_FAST && Readable(s, w)
    ensures Taken(s, Upto(s, 9)) <= w
  {
    hide Upto, Taken, HuffCode, Shr;
    var c := Shr(w, 7);
    assert FastSlot(s, |s|, c, NOT_FAST);
    UptoSplits(s, 9);
    if w < Taken(s, Upto(s, 9)) {
      var k := Match(s, w, Upto(s, 9));
      FastHitIsBegins(s, k, w);
      if FastHit(s, 255, c) {
        FastHitIsBegins(s, 255, w);
        assert false;
      }
    }
  }

  lemma FastFound(h: Huffman, s: seq<nat>, w: nat)
    requires h.TableOf(s) && Shr(w, 7) < FAST_SIZE && h.fast[Shr(w, 7)] < NOT_FAST
    ensures Begins(s, h.fast[Shr(w, 7)], w) && h.size[h.fast[Shr(w, 7)]] == s[h.fast[Shr(w, 7)]] <= FAST_BITS
  {
    hide HuffCode, Shr;
    var v := h.fast[Shr(w, 7)];
    assert FastSlot(s, |s|, Shr(w, 7), v);
    FastHitIsBegins(s, v, w);
    assert h.size[..|s|][v] == s[v];
  }

  /** Symbol number 255, when it is in the fast table, is taken for a miss. */
  lemma FlagClash(h: Huffman, s: seq<nat>, w: nat)
    requires h.TableOf(s) && Shr(w, 7) < FAST_SIZE && !Readable(s, w)
    ensures h.fast[Shr(w, 7)] == NOT_FAST && s[255] <= 9
    ensures w < Taken(s, Upto(s, 10)) && Upto(s, 9) == 256
  {
    hide HuffCode, Shr, Taken, Upto;
    var v := h.fast[Shr(w, 7)];
    assert FastSlot(s, |s|, Shr(w, 7), v);
    FastHitIsBegins(s, 255, w);
    if FastHit(s, v, Shr(w, 7)) {
      FastHitUnique(s, v, 255, Shr(w, 7));
    }
    UptoSplits(s, 9);
    UptoSplits(s, 10);
    BeginsIffInterval(s, 255, w);
    TakenMonotone(s, 256, Upto(s, 10));
  }

  lemma WindowSlot(w: nat)
    requires w < 65536
    ensures Shr(w, 7) < FAST_SIZE
  {
    hide Shr, Shl, Low, Pow2;
    Split(w, 7);
    ShlMonotone(Shr(w, 7), Pow2(9), 7);
    ShlPow2(9, 7);
    Pow2Values();
  }

  /**
   * The number and length of the code that begins the window; length 17 when there is none. Exactly the
   * windows of an accelerated symbol number 255 go wrong: ten bits are taken for a code of at most nine.
   */
  method FindSymbol(h: Huffman, ghost s: seq<nat>, w: nat) returns (c: int, len: nat)
    requires h.TableOf(s) && w < 65536
    ensures Readable(s, w) ==> (len <= 16 && 0 <= c && Begins(s, c, w) && s[c] == len) || (len == 17 && !HasMatch(s, w))
    ensures !Readable(s, w) ==> s[255] <= 9 && len == 10 && c == 256 + Shr(w, 6) - Next(s, 256, 10)
  {
    hide Upto, Taken, HuffCode, Next, FastSlot, Shr, Begins;
    WindowSlot(w);
    var k: nat := h.fast[Shr(w, 7)];
    if k < NOT_FAST {
      FastFound(h, s, w);
      if Begins(s, 255, w) {
        BeginsUnique(s, k, 255, w);
      }
      return k, h.size[k];
    }
    if Readable(s, w) {
      FastMiss(h, s, w);
    }
    k := FAST_BITS + 1;
    while w >= h.maxcode[k]
      invariant 10 <= k <= 17
      invariant k > 10 || Readable(s, w) ==> Taken(s, Upto(s, k - 1)) <= w
      invariant k > 10 ==> Taken(s, Upto(s, 10)) <= w
      decreases 17 - k
    {
      k := k + 1;
    }
    if !Readable(s, w) {
      FlagClash(h, s, w);
    }
    if k == 17 {
      UptoAll(s);
      return -1, 17;
    }
    c, len := Shr(w, 16 - k) + h.delta[k], k;
    if Readable(s, w) {
      ghost var sym := RunMatch(s, k, w);
    }
  }

  // ----- tables with that fault exist

  /** Eight-bit codes but for the last b, which have nine bits: 256 in all. */
  function Full(b: nat): (count: seq<nat>)
    requires b <= 1
    ensures |count| == 16
  {
    [0, 0, 0, 0, 0, 0, 0, 256 - b, b, 0, 0, 0, 0, 0, 0, 0]
  }

  /** Both tables are accepted; with b == 1 every count fits the byte that a DHT segment has for it. */
  lemma FlagClashes(b: nat)
    requires b <= 1
    ensures var s := SizeList(Full(b));
            && Sizes(s) && |s| == 256 && Codable(s) && !Accelerable(s)
            && exists w: nat :: w < 65536 && !Readable(s, w)
  {
    hide Expand, Taken, Codable, Begins;
    var s := SizeList(Full(b));
    FullSizes(b);
    FullTaken(s, b, 256 - b);
    var w := Taken(s, 255);
    LastWindow(s);
    assert !Readable(s, w);
  }

  lemma LastWindow(s: seq<nat>)
    requires Sizes(s) && |s| == 256 && Taken(s, 256) <= 65536
    ensures Codable(s) && Taken(s, 255) < 65536 && Begins(s, 255, Taken(s, 255))
  {
    hide Taken, Begins;
    TakenMonotone(s, 255, 256);
    BeginsIffInterval(s, 255, Taken(s, 255));
  }

  lemma FullSizes(b: nat)
    requires b <= 1
    ensures var s := SizeList(Full(b));
            && Sizes(s) && |s| == 256 && forall k :: 0 <= k < 256 ==> s[k] == if k < 256 - b then 8 else 9
  {
    hide Expand;
    var count := Full(b);
    ExpandSizes(count, 16);
    ZerosExpand(count, 0, 7);
    ExpandOne(count, 7);
    ExpandOne(count, 8);
    ZerosExpand(count, 9, 16);
    NoneExpanded(count);
  }

  lemma NoneExpanded(count: seq<nat>)
    ensures Expand(count, 0) == []
  {
  }

  lemma ExpandOne(count: seq<nat>, i: nat)
    requires i < |count|
    ensures Expand(count, i + 1) == Expand(count, i) + Repeat(i + 1, count[i])
  {
  }

  lemma {:induction false} ZerosExpand(count: seq<nat>, i: nat, n: nat)
    requires i <= n <= |count| && forall k :: i <= k < n ==> count[k] == 0
    ensures Expand(count, n) == Expand(count, i)
  {
    if i < n {
      ZerosExpand(count, i, n - 1);
    }
  }

  lemma {:induction false} FullTaken(s: seq<nat>, b: nat, k: nat)
    requires Sizes(s) && |s| == 256 && b <= 1 && forall i :: 0 <= i < 256 ==> s[i] == if i < 256 - b then 8 else 9
    requires k <= 256 - b
    ensures Taken(s, k) == 256 * k && (k == 256 - b ==> Taken(s, 256) <= 65536)
  {
    Pow2Values();
    if k > 0 {
      FullTaken(s, b, k - 1);
    }
  }

  class Reader {
    const raw: seq<byte>
    var pos: nat
    var code_buffer: nat
    var code_bits: int
    var marker: nat
    var nomore: bool

    /** The coded bytes of the whole segment, and how many (zeros past the end included) were loaded. */
    ghost var src: seq<byte>
    ghost var loaded: nat

    /** Bits consumed so far. */
    ghost function Position(): int
      reads this
    {
      8 * loaded - code_bits
    }

    /** The bytes not loaded yet. */
    ghost predicate Source()
      reads this
    {
      if nomore then |src| <= loaded
      else Entropy(raw, pos) == (if loaded <= |src| then src[loaded..] else [])
    }

    ghost predicate Valid()
      reads this
    {
      && 0 <= code_bits <= 32 && 0 <= Position()
      && code_buffer == Aligned(src, Position(), code_bits)
      && Source()
    }

    /** Every remaining real bit is in the buffer. */
    ghost predicate Exhausted()
      reads this
    {
      |src| <= loaded
    }

    constructor (raw: seq<byte>, pos: nat)
      ensures Valid() && this.raw == raw && this.pos == pos && src == Entropy(raw, pos) && Position() == 0
    {
      this.raw, this.pos := raw, pos;
      code_buffer, code_bits, marker, nomore := 0, 0, 0xff, false;
      src, loaded := Entropy(raw, pos), 0;
      new;
      ShlZero(32);
    }

    method Get8() returns (b: byte)
      modifies this`pos
      ensures b == ByteAt(raw, old(pos))
      ensures pos == if old(pos) < |raw| then old(pos) + 1 else old(pos)
    {
      if pos < |raw| {
        b := raw[pos];
        pos := pos + 1;
      } else {
        b := 0;
      }
    }

    /** The byte after FF that is not a fill byte. */
    method SkipFillBytes() returns (c: byte)
      modifies this`pos
      ensures c == ByteAt(raw, SkipFill(raw, old(pos)))
      ensures pos == if SkipFill(raw, old(pos)) < |raw| then SkipFill(raw, old(pos)) + 1 else SkipFill(raw, old(pos))
    {
      c := Get8();
      while c == 0xff
        invariant c == 0xff ==> 0 < pos <= |raw| && SkipFill(raw, pos) == SkipFill(raw, old(pos))
        invariant c != 0xff ==> c == ByteAt(raw, SkipFill(raw, old(pos)))
                                && pos == if SkipFill(raw, old(pos)) < |raw| then SkipFill(raw, old(pos)) + 1 else SkipFill(raw, old(pos))
        decreases |raw| - pos, if c == 0xff then 1 else 0
      {
        c := Get8();
      }
    }

    /** The next coded byte; `stop` when a marker comes instead. */
    method NextCoded() returns (stop: bool, b: nat)
      requires Source()
      modifies this`pos, this`marker, this`nomore
      ensures Source() || !stop
      ensures stop ==> var q := SkipFill(raw, old(pos) + 1); nomore && marker == ByteAt(raw, q) != 0 && pos == q + 1
      ensures !stop ==> marker == old(marker)
      ensures stop ==> |src| <= loaded && !old(nomore)
      ensures !stop ==> nomore == old(nomore) && b == (if loaded < |src| then src[loaded] else 0) && b < 256
      ensures !stop && nomore ==> |src| <= loaded
      ensures !stop && !nomore ==> Entropy(raw, pos) == if loaded + 1 <= |src| then src[loaded + 1..] else []
    {
      if nomore {
        return false, 0;
      }
      ghost var from := pos;
      assert loaded < |src| ==> src[loaded..][0] == src[loaded] && src[loaded..][1..] == src[loaded + 1..];
      var v := Get8();
      b := v;
      assert v != 0xff && from < |raw| ==> Entropy(raw, from) == [raw[from]] + Entropy(raw, pos);
      if b == 0xff {
        var c := SkipFillBytes();
        if c != 0 {
          marker := c;
          nomore := true;
          return true, b;
        }
        assert Entropy(raw, pos) == Entropy(raw, SkipFill(raw, from + 1) + 1);
        assert Entropy(raw, from) == [0xff] + Entropy(raw, pos);
      }
      assert from < |raw| ==> Entropy(raw, from)[1..] == Entropy(raw, pos);
      stop := false;
    }

    /** Refills the buffer; afterwards it holds more than 24 bits or all there are. */
    method GrowBuffer()
      requires Valid() && code_bits <= 24
      modifies this
      ensures Valid() && src == old(src) && Position() == old(Position())
      ensures 25 <= code_bits || (Exhausted() && !old(nomore))
      ensures marker != old(marker) ==> nomore && code_bits < 25
      ensures old(code_bits) <= code_bits
    {
      hide Aligned, Entropy, MsbField, Or, Shl;
      var more := true;
      while more
        invariant Valid() && src == old(src) && Position() == old(Position())
        invariant more ==> code_bits <= 24
        invariant !more ==> 25 <= code_bits
        invariant (old(nomore) ==> nomore) && marker == old(marker)
        invariant old(code_bits) <= code_bits
        decreases 33 - code_bits, if more then 1 else 0
      {
        var stop, b := NextCoded();
        if stop {
          return;
        }
        MsbByte(src, loaded);
        LoadByte(src, loaded, code_bits, b);
        code_buffer := Or(code_buffer, Shl(b, 24 - code_bits));
        code_bits := code_bits + 8;
        loaded := loaded + 1;
        more := code_bits <= 24;
      }
    }

    /** The next sixteen bits; zeros follow the end of the segment. */
    ghost function Window(): nat
      reads this
      requires 0 <= Position()
    {
      MsbField(src, Position(), 16)
    }

    /** Drops n bits from the buffer. */
    method Consume(n: nat)
      requires Valid() && n <= code_bits
      modifies this`code_buffer, this`code_bits
      ensures Valid() && Position() == old(Position()) + n
    {
      Drop(src, Position(), code_bits, n);
      code_buffer := Shl32(code_buffer, n);
      code_bits := code_bits - n;
    }

    /** Decodes one Huffman code, or takes ten bits for a symbol number 255 of at most nine. */
    method HuffDecode(h: Huffman, ghost s: seq<nat>) returns (r: int)
      requires Valid() && h.TableOf(s)
      modifies this
      ensures src == old(src)
      ensures r >= 0 ==> Valid()
      ensures Readable(s, old(Window())) && r >= 0 ==>
                HasMatch(s, old(Window()))
                && var k := Match(s, old(Window()), |s|);
                k < 256 && r == h.values[k] && Position() == old(Position()) + s[k]
      ensures Readable(s, old(Window())) && HasMatch(s, old(Window())) && old(Position()) + s[Match(s, old(Window()), |s|)] <= 8 * |src| ==> r >= 0
      ensures !Readable(s, old(Window())) && r >= 0 ==> s[255] <= 9 && Position() == old(Position()) + 10
    {
      hide Aligned, Entropy, MsbField, Taken, Match, Begins, Shr, HasMatch;
      if code_bits < 16 {
        GrowBuffer();
      }
      Peek(src, Position(), code_bits, 16);
      var w := Shr(code_buffer, 16);
      WindowBound(src, Position());
      var c, len := FindSymbol(h, s, w);
      if len == 17 {
        code_bits := code_bits - 16;
        return -1;
      }
      if Readable(s, w) {
        MatchIs(s, w, c);
      }
      if len > code_bits {
        return -1;
      }
      if c < 0 || c >= 256 {
        return -1;
      }
      Consume(len);
      r := h.values[c];
    }

    lemma WindowBound(data: seq<byte>, p: nat)
      ensures MsbField(data, p, 16) < 65536
    {
      hide MsbField, Pow2;
      MsbBound(data, p, 16);
      Pow2Values();
    }

    /** RECEIVE and EXTEND in one; where the real bits run out it may return zero and read nothing. */
    method ExtendReceive(n: nat) returns (v: int)
      requires Valid() && 0 < n <= 15
      modifies this
      ensures Valid() && src == old(src)
      ensures || (v == Extend(MsbField(src, old(Position()), n), n) && Position() == old(Position()) + n)
              || (v == 0 && Position() == old(Position()) && old(Position()) + n > 8 * |src| && !old(nomore))
    {
      hide Aligned, Entropy, MsbField, Shr, Shl, Low, Shl32, Rotate, Pow2;
      if code_bits < n {
        GrowBuffer();
      }
      if code_bits < n {
        return 0;
      }
      AlignedBound(src, Position(), code_bits);
      Peek(src, Position(), code_bits, n);
      Peek(src, Position(), code_bits, 1);
      FirstBit(src, Position(), n);
      RotateParts(code_buffer, n);
      Drop(src, Position(), code_bits, n);
      var sgn := Shr(code_buffer, 31);
      var k := Rotate(code_buffer, n);
      code_buffer := Shl(Shr(k, n), n);
      k := Low(k, n);
      code_bits := code_bits - n;
      v := k + if sgn == 1 then 0 else Bias(n);
    }

    lemma FirstBit(data: seq<byte>, p: nat, n: nat)
      requires 0 < n
      ensures MsbField(data, p, 1) == (if MsbField(data, p, n) < Pow2(n - 1) then 0 else 1)
    {
      hide MsbField, Shl, Shr, Low, Pow2;
      MsbAppend(data, p, 1, n - 1);
      MsbBound(data, p + 1, n - 1);
      MsbBound(data, p, n);
      ShlSplit(MsbField(data, p, 1), MsbField(data, p + 1, n - 1), n - 1);
      SignBit(MsbField(data, p, n), n);
    }
  }
}
