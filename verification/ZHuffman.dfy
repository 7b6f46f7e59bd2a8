/** stbi__zhuffman and stbi__zbuild_huffman: the decoding tables of one canonical Huffman code. */
module ZHuffman {
  import opened Bits
  import opened BitReverse
  import opened Canonical

  const FAST_BITS: nat := 9
  const FAST_SIZE: nat := 512
  const NUM_SYMBOLS: nat := 288

  lemma U16Small(x: nat)
    requires x < 65536
    ensures U16(x) == x
  {
  }

  lemma SmallPow2(i: nat)
    requires i <= MAX_LENGTH
    ensures Pow2(i) <= 32768
  {
    Pow2Monotone(i, 15);
    Pow2Values();
  }

  /** Position of the first symbol of length L when symbols are sorted by length. */
  function FirstSymbol(lens: seq<nat>, L: nat): nat {
    if L <= 1 then 0 else FirstSymbol(lens, L - 1) + Count(lens, L - 1)
  }

  /** Position of a symbol when symbols are sorted by length, then by number. */
  function SortedIndex(lens: seq<nat>, sym: nat): nat
    requires sym < |lens|
  {
    FirstSymbol(lens, lens[sym]) + Count(lens[..sym], lens[sym])
  }

  /** The code of `sym` fits the fast table and begins the input whose next nine bits are j. */
  ghost predicate FastMatch(lens: seq<nat>, sym: nat, j: nat) {
    && sym < |lens|
    && 0 < lens[sym] <= FAST_BITS
    && Reverse(j, lens[sym]) == CodeOf(lens, sym)
  }

  /** What slot j of the fast table holds once the first n symbols are entered. */
  ghost predicate FastSlot(lens: seq<nat>, n: nat, j: nat, v: nat) {
    if v == 0 then forall sym: nat :: sym < n ==> !FastMatch(lens, sym, j)
    else exists sym: nat :: sym < n && FastMatch(lens, sym, j) && v == Shl(lens[sym], 9) + sym
  }

  // ----- sorted positions

  lemma {:induction false} FirstSymbolSnoc(lens: seq<nat>, s: nat, L: nat)
    ensures FirstSymbol(lens + [s], L) == FirstSymbol(lens, L) + (if 1 <= s < L then 1 else 0)
    decreases L
  {
    if L > 1 {
      FirstSymbolSnoc(lens, s, L - 1);
      assert (lens + [s])[..|lens|] == lens;
    }
  }

  lemma {:induction false} FirstSymbolBound(lens: seq<nat>, L: nat)
    ensures FirstSymbol(lens, L) <= |lens|
    decreases |lens|
  {
    if lens == [] {
      FirstSymbolEmpty(L);
    } else {
      var n := |lens| - 1;
      FirstSymbolBound(lens[..n], L);
      FirstSymbolSnoc(lens[..n], lens[n], L);
      assert lens == lens[..n] + [lens[n]];
    }
  }

  lemma {:induction false} FirstSymbolEmpty(L: nat)
    ensures FirstSymbol([], L) == 0
  {
    if L > 1 {
      FirstSymbolEmpty(L - 1);
    }
  }

  lemma {:induction false} FirstSymbolMonotone(lens: seq<nat>, a: nat, b: nat)
    requires a <= b
    ensures FirstSymbol(lens, a) <= FirstSymbol(lens, b)
    decreases b
  {
    if a < b {
      FirstSymbolMonotone(lens, a, b - 1);
    }
  }

  lemma SortedIndexBound(lens: seq<nat>, sym: nat)
    requires sym < |lens| && lens[sym] > 0
    ensures SortedIndex(lens, sym) < FirstSymbol(lens, lens[sym] + 1) <= |lens|
  {
    CountPrefix(lens, sym, lens[sym]);
    FirstSymbolBound(lens, lens[sym] + 1);
  }

  lemma SortedIndexInjective(lens: seq<nat>, a: nat, b: nat)
    requires a < |lens| && b < |lens| && lens[a] > 0 && lens[b] > 0
    requires SortedIndex(lens, a) == SortedIndex(lens, b)
    ensures a == b
  {
    SortedIndexBound(lens, a);
    SortedIndexBound(lens, b);
    if lens[a] < lens[b] {
      FirstSymbolMonotone(lens, lens[a] + 1, lens[b]);
    } else if lens[b] < lens[a] {
      FirstSymbolMonotone(lens, lens[b] + 1, lens[a]);
    } else {
      RankInjective(lens, a, b);
    }
  }

  // ----- the fast table

  /** A fast match is a prefix of the reversed window of any buffer with those nine bits. */
  lemma FastMatchIsPrefix(lens: seq<nat>, sym: nat, cb: nat)
    ensures FastMatch(lens, sym, Low(cb, FAST_BITS))
            <==> IsPrefix(lens, sym, Reverse(cb, 16)) && lens[sym] <= FAST_BITS
  {
    hide Reverse, Low, Shr, CodeOf;
    if sym < |lens| && 0 < lens[sym] <= FAST_BITS {
      var L := lens[sym];
      ReverseTop(cb, L, 16);
      LowLow(cb, L, FAST_BITS - L);
      ReverseLow(cb, L);
      ReverseLow(Low(cb, FAST_BITS), L);
    }
  }

  /** No two symbols ever claim the same slot of the fast table. */
  lemma FastMatchUnique(lens: seq<nat>, a: nat, b: nat, j: nat)
    requires FastMatch(lens, a, j) && FastMatch(lens, b, j)
    ensures a == b
  {
    hide Reverse, Shr, CodeOf;
    ReverseTop(j, lens[a], 16);
    ReverseTop(j, lens[b], 16);
    PrefixUnique(lens, a, b, Reverse(j, 16));
  }

  /** The slots of a code are the indices congruent to its reversal. */
  lemma FastMatchIffLow(lens: seq<nat>, sym: nat, j: nat)
    requires Lengths(lens) && Fits(lens)
    requires sym < |lens| && 0 < lens[sym] <= FAST_BITS
    ensures FastMatch(lens, sym, j) <==> Low(j, lens[sym]) == Reverse(CodeOf(lens, sym), lens[sym])
  {
    var L, c := lens[sym], CodeOf(lens, sym);
    CountPrefix(lens, sym, L);
    FitsLimit(lens, L);
    ReverseLow(j, L);
    Split(j, L);
    ReverseInvolution(c, L);
    ReverseInvolution(Low(j, L), L);
  }

  /** Stepping by 2^s visits every index with the same low s bits and no other. */
  lemma LowStep(j: nat, s: nat)
    ensures Low(j + Pow2(s), s) == Low(j, s)
    ensures forall i: nat :: j < i < j + Pow2(s) ==> Low(i, s) != Low(j, s)
  {
    Split(j, s);
    var q, r := Shr(j, s), Low(j, s);
    ShlAdd(q, 1, s);
    ShlOne(s);
    ShlSplit(q + 1, r, s);
    forall i: nat | j < i < j + Pow2(s)
      ensures Low(i, s) != r
    {
      Split(i, s);
      var p := Shr(i, s);
      if Low(i, s) == r {
        ShlMonotone(q, p, s);
        ShlMonotone(p, q + 1, s);
      }
    }
  }

  class ZHuffman {
    var fast: seq<nat>
    var firstcode: seq<nat>
    var maxcode: seq<nat>
    var firstsymbol: seq<nat>
    var size: seq<nat>
    var value: seq<nat>

    ghost predicate Shape()
      reads this
    {
      && |fast| == FAST_SIZE && |firstcode| == 16 && |maxcode| == 17 && |firstsymbol| == 16
      && |size| == NUM_SYMBOLS && |value| == NUM_SYMBOLS
    }

    /** The per-length rows agree with the canonical code for lengths 1 to n. */
    ghost predicate Rows(lens: seq<nat>, n: nat)
      requires n <= MAX_LENGTH
      reads this
    {
      && Shape()
      && forall L :: 1 <= L <= n ==>
           firstcode[L] == FirstCode(lens, L) && firstsymbol[L] == FirstSymbol(lens, L)
           && maxcode[L] == Limit(lens, L)
    }

    /** The per-symbol rows agree with the canonical code for the first n symbols. */
    ghost predicate Symbols(lens: seq<nat>, n: nat)
      requires n <= |lens| <= NUM_SYMBOLS
      reads this
    {
      && Shape()
      && forall sym :: 0 <= sym < n && lens[sym] > 0 ==>
           SortedIndex(lens, sym) < NUM_SYMBOLS
           && size[SortedIndex(lens, sym)] == lens[sym] && value[SortedIndex(lens, sym)] == sym
    }

    ghost predicate Fast(lens: seq<nat>, n: nat)
      reads this
    {
      Shape() && forall j :: 0 <= j < FAST_SIZE ==> FastSlot(lens, n, j, fast[j])
    }

    /** The tables are those of the canonical code for `lens`. */
    ghost predicate TableOf(lens: seq<nat>)
      reads this
    {
      && Lengths(lens) && Fits(lens) && |lens| <= NUM_SYMBOLS
      && Rows(lens, MAX_LENGTH) && maxcode[16] == 0x10000
      && Symbols(lens, |lens|)
      && Fast(lens, |lens|)
    }

    constructor ()
      ensures Shape()
    {
      fast := seq(FAST_SIZE, _ => 0);
      firstcode := seq(16, _ => 0);
      maxcode := seq(17, _ => 0);
      firstsymbol := seq(16, _ => 0);
      size := seq(NUM_SYMBOLS, _ => 0);
      value := seq(NUM_SYMBOLS, _ => 0);
    }

    /** Build the tables; fails exactly when the lengths break the Kraft inequality. */
    method Build(sizelist: seq<nat>) returns (ok: bool)
      requires Shape()
      requires |sizelist| <= NUM_SYMBOLS && Lengths(sizelist)
      modifies this
      ensures Shape()
      ensures ok <==> Kraft(sizelist) <= Pow2(MAX_LENGTH)
      ensures ok ==> TableOf(sizelist)
    {
      hide Kraft, Fits, Count, FirstCode, Limit, FastSlot, Pow2;
      FitsIffKraft(sizelist);
      fast := seq(FAST_SIZE, _ => 0);
      var sizes := CountSizes(sizelist);
      ok := SizesPossible(sizelist, sizes);
      if !ok {
        return;
      }
      var next_code;
      ok, next_code := AssignCodes(sizelist, sizes);
      if !ok {
        return;
      }
      maxcode := maxcode[16 := 0x10000];
      FastEmpty(sizelist);
      EnterSymbols(sizelist, next_code);
    }

    /** The early test `sizes[i] > (1 << i)`. */
    method SizesPossible(ghost lens: seq<nat>, sizes: seq<nat>) returns (ok: bool)
      requires |sizes| == 17 && forall L :: 1 <= L <= 16 ==> sizes[L] == Count(lens, L)
      ensures !ok ==> !Fits(lens)
    {
      var i := 1;
      while i < 16
        invariant 1 <= i <= 16
      {
        if sizes[i] > Shl(1, i) {
          ShlOne(i);
          return false;
        }
        i := i + 1;
      }
      return true;
    }

    /** The loop over symbols. */
    method EnterSymbols(sizelist: seq<nat>, next_code0: seq<nat>)
      requires |sizelist| <= NUM_SYMBOLS && Lengths(sizelist) && Fits(sizelist)
      requires Rows(sizelist, MAX_LENGTH) && Fast(sizelist, 0)
      requires NextCodes(sizelist, next_code0, 16)
      modifies this`size, this`value, this`fast
      ensures Shape() && Rows(sizelist, MAX_LENGTH)
      ensures Symbols(sizelist, |sizelist|) && Fast(sizelist, |sizelist|)
    {
      var next_code := next_code0;
      var i := 0;
      while i < |sizelist|
        invariant 0 <= i <= |sizelist|
        invariant Rows(sizelist, MAX_LENGTH) && Symbols(sizelist, i) && Fast(sizelist, i)
        invariant |next_code| == 16
        invariant forall L :: 1 <= L <= MAX_LENGTH ==>
                    next_code[L] == FirstCode(sizelist, L) + Count(sizelist[..i], L)
      {
        var s := sizelist[i];
        if s != 0 {
          EnterSymbol(sizelist, i, next_code[s]);
          next_code := next_code[s := next_code[s] + 1];
        } else {
          SkipSymbol(sizelist, i);
        }
        forall L | 1 <= L <= MAX_LENGTH
          ensures next_code[L] == FirstCode(sizelist, L) + Count(sizelist[..i + 1], L)
        {
          CountSnoc(sizelist, i, L);
        }
        i := i + 1;
      }
    }

    /** `++sizes[sizelist[i]]` over all symbols, then `sizes[0] = 0`. */
    method CountSizes(sizelist: seq<nat>) returns (sizes: seq<nat>)
      requires Lengths(sizelist)
      ensures |sizes| == 17 && sizes[0] == 0
      ensures forall L :: 1 <= L <= 16 ==> sizes[L] == Count(sizelist, L)
    {
      sizes := seq(17, _ => 0);
      var i := 0;
      while i < |sizelist|
        invariant 0 <= i <= |sizelist|
        invariant |sizes| == 17
        invariant forall L :: 0 <= L <= 16 ==> sizes[L] == Count(sizelist[..i], L)
      {
        var s := sizelist[i];
        sizes := sizes[s := sizes[s] + 1];
        forall L | 0 <= L <= 16
          ensures sizes[L] == Count(sizelist[..i + 1], L)
        {
          CountSnoc(sizelist, i, L);
        }
        i := i + 1;
      }
      assert sizelist[..i] == sizelist;
      sizes := sizes[0 := 0];
    }

    /** The loop over code lengths: first codes, first symbols and preshifted limits. */
    method AssignCodes(ghost lens: seq<nat>, sizes: seq<nat>) returns (ok: bool, next_code: seq<nat>)
      requires Shape() && Lengths(lens) && |lens| <= NUM_SYMBOLS
      requires |sizes| == 17 && forall L :: 1 <= L <= 16 ==> sizes[L] == Count(lens, L)
      modifies this`firstcode, this`firstsymbol, this`maxcode
      ensures Shape()
      ensures ok <==> Fits(lens)
      ensures ok ==> Rows(lens, MAX_LENGTH)
      ensures ok ==> NextCodes(lens, next_code, 16)
    {
      next_code := seq(16, _ => 0);
      var code, k, i := 0, 0, 1;
      FirstRow(lens);
      hide FirstCode, FirstSymbol, Count, Pow2, Limit, Fits, FitsUpTo, NextCodes;
      while i < 16
        invariant 1 <= i <= 16
        invariant code == FirstCode(lens, i) && code <= Pow2(i) && k == FirstSymbol(lens, i)
        invariant Rows(lens, i - 1)
        invariant NextCodes(lens, next_code, i)
        invariant FitsUpTo(lens, i)
      {
        NextCodesStep(lens, next_code, i);
        next_code := next_code[i := code];
        ok, code := AssignRow(lens, i, code, k, sizes[i]);
        if !ok {
          return;
        }
        NextRow(lens, i);
        k := k + sizes[i];
        i := i + 1;
      }
      FitsAll(lens);
      ok := true;
    }

    ghost predicate NextCodes(lens: seq<nat>, next_code: seq<nat>, i: nat)
      requires i <= 16
    {
      |next_code| == 16 && forall L :: 1 <= L < i ==> next_code[L] == FirstCode(lens, L)
    }

    lemma FirstRow(lens: seq<nat>)
      ensures FirstCode(lens, 1) == 0 && FirstSymbol(lens, 1) == 0 && FitsUpTo(lens, 1)
      ensures NextCodes(lens, seq(16, _ => 0), 1)
    {
    }

    lemma NextCodesStep(lens: seq<nat>, next_code: seq<nat>, i: nat)
      requires i < 16 && NextCodes(lens, next_code, i)
      ensures NextCodes(lens, next_code[i := FirstCode(lens, i)], i + 1)
    {
    }

    lemma FitsAll(lens: seq<nat>)
      requires FitsUpTo(lens, 16)
      ensures Fits(lens)
    {
    }

    /** One pass of the loop over code lengths; `code` comes back doubled for the next length. */
    method AssignRow(ghost lens: seq<nat>, i: nat, code: nat, k: nat, size: nat) returns (ok: bool, code': nat)
      requires 1 <= i <= MAX_LENGTH && |lens| <= NUM_SYMBOLS && Rows(lens, i - 1) && FitsUpTo(lens, i)
      requires code == FirstCode(lens, i) && code <= Pow2(i)
      requires k == FirstSymbol(lens, i) && size == Count(lens, i)
      modifies this`firstcode, this`firstsymbol, this`maxcode
      ensures Shape()
      ensures !ok ==> !Fits(lens)
      ensures ok ==> Rows(lens, i) && FitsUpTo(lens, i + 1)
      ensures ok ==> Count(lens, i) > 0 ==> EndCode(lens, i) <= Pow2(i)
      ensures ok ==> code' == FirstCode(lens, i + 1) && code' <= Pow2(i + 1)
    {
      hide FirstCode, Count, FirstSymbol, Pow2, Shl, U16, Limit;
      RowFits(lens, i);
      firstcode := firstcode[i := U16(code)];
      firstsymbol := firstsymbol[i := U16(k)];
      code' := code + size;
      ShlOne(i);
      if size != 0 {
        if code' - 1 >= Shl(1, i) {
          ok := false;
          return;
        }
      }
      NextRow(lens, i);
      maxcode := maxcode[i := Shl(code', 16 - i)];
      code' := 2 * code';
      ok := true;
    }

    ghost predicate FitsUpTo(lens: seq<nat>, i: nat) {
      forall L :: 1 <= L < i && Count(lens, L) > 0 ==> EndCode(lens, L) <= Pow2(L)
    }

    lemma NextRow(lens: seq<nat>, i: nat)
      requires 1 <= i <= MAX_LENGTH && FirstCode(lens, i) <= Pow2(i) && FitsUpTo(lens, i)
      requires Count(lens, i) > 0 ==> EndCode(lens, i) <= Pow2(i)
      ensures FirstCode(lens, i + 1) == 2 * EndCode(lens, i) <= Pow2(i + 1)
      ensures FirstSymbol(lens, i + 1) == FirstSymbol(lens, i) + Count(lens, i)
      ensures Limit(lens, i) == Shl(EndCode(lens, i), 16 - i)
      ensures FitsUpTo(lens, i + 1)
    {
    }

    lemma RowFits(lens: seq<nat>, i: nat)
      requires i <= MAX_LENGTH && |lens| <= NUM_SYMBOLS && FirstCode(lens, i) <= Pow2(i)
      ensures U16(FirstCode(lens, i)) == FirstCode(lens, i)
      ensures U16(FirstSymbol(lens, i)) == FirstSymbol(lens, i)
    {
      FirstSymbolBound(lens, i);
      SmallPow2(i);
      U16Small(FirstCode(lens, i));
      U16Small(FirstSymbol(lens, i));
    }

    /** One pass of the symbol loop for a symbol that has a code. */
    method EnterSymbol(sizelist: seq<nat>, i: nat, code: nat)
      requires i < |sizelist| <= NUM_SYMBOLS && Lengths(sizelist) && Fits(sizelist)
      requires sizelist[i] > 0
      requires code == CodeOf(sizelist, i)
      requires Rows(sizelist, MAX_LENGTH) && Symbols(sizelist, i) && Fast(sizelist, i)
      modifies this`size, this`value, this`fast
      ensures Rows(sizelist, MAX_LENGTH) && Symbols(sizelist, i + 1) && Fast(sizelist, i + 1)
    {
      hide Count, FirstCode, FirstSymbol, Shl, FastSlot, Fits, Or;
      var s := sizelist[i];
      var c := code - firstcode[s] + firstsymbol[s];
      var fastv := U16(Or(Shl(s, 9), i));
      SortedIndexBound(sizelist, i);
      assert c == SortedIndex(sizelist, i);
      size := size[c := s];
      value := value[c := i];
      forall sym | 0 <= sym < i && sizelist[sym] > 0
        ensures SortedIndex(sizelist, sym) != c
      {
        if SortedIndex(sizelist, sym) == c {
          SortedIndexInjective(sizelist, sym, i);
        }
      }
      assert Symbols(sizelist, i + 1);
      if s <= FAST_BITS {
        FastValue(s, i);
        EnterFast(sizelist, i, code, fastv);
      } else {
        FastUnchanged(sizelist, i);
      }
    }

    /** The inner loop: the same entry in every slot whose low bits are the reversed code. */
    method EnterFast(sizelist: seq<nat>, i: nat, code: nat, fastv: nat)
      requires i < |sizelist| <= NUM_SYMBOLS && Lengths(sizelist) && Fits(sizelist)
      requires 0 < sizelist[i] <= FAST_BITS && code == CodeOf(sizelist, i)
      requires fastv == Shl(sizelist[i], 9) + i && fastv > 0
      requires Fast(sizelist, i)
      modifies this`fast
      ensures Fast(sizelist, i + 1)
    {
      hide Count, FirstCode, Kraft, Pow2, Shl, Low, Reverse, BitReverseN, CodeOf, Fits;
      var s := sizelist[i];
      var j := BitReverseN(code, s);
      BitReverseNCorrect(code, s);
      ReverseBound(code, s);
      LowSmall(j, s);
      ghost var before := fast;
      ghost var r := j;
      ShlOne(s);
      assert forall x: nat :: x < r ==> Low(x, s) != r by {
        forall x: nat | x < r ensures Low(x, s) != r { LowSmall(x, s); }
      }
      while j < FAST_SIZE
        invariant Shape()
        invariant Low(j, s) == r
        invariant forall x :: 0 <= x < FAST_SIZE ==>
                    fast[x] == if x < j && Low(x, s) == r then fastv else before[x]
        decreases FAST_SIZE - j
      {
        fast := fast[j := fastv];
        LowStep(j, s);
        j := j + Shl(1, s);
      }
      forall x | 0 <= x < FAST_SIZE
        ensures FastSlot(sizelist, i + 1, x, fast[x])
      {
        FastMatchIffLow(sizelist, i, x);
        assert FastSlot(sizelist, i, x, before[x]);
        if Low(x, s) == r {
          assert fast[x] == fastv && FastMatch(sizelist, i, x);
        }
      }
    }

    lemma FastEmpty(lens: seq<nat>)
      requires Shape() && forall j :: 0 <= j < FAST_SIZE ==> fast[j] == 0
      ensures Fast(lens, 0)
    {
    }

    lemma FastUnchanged(lens: seq<nat>, i: nat)
      requires i < |lens| && Fast(lens, i)
      requires lens[i] == 0 || lens[i] > FAST_BITS
      ensures Fast(lens, i + 1)
    {
      forall j | 0 <= j < FAST_SIZE
        ensures FastSlot(lens, i + 1, j, fast[j])
      {
        assert FastSlot(lens, i, j, fast[j]);
      }
    }

    lemma SkipSymbol(lens: seq<nat>, i: nat)
      requires i < |lens| <= NUM_SYMBOLS && lens[i] == 0
      requires Symbols(lens, i) && Fast(lens, i)
      ensures Symbols(lens, i + 1) && Fast(lens, i + 1)
    {
      FastUnchanged(lens, i);
    }

    lemma FastValue(s: nat, i: nat)
      requires 0 < s <= FAST_BITS && i < NUM_SYMBOLS
      ensures U16(Or(Shl(s, 9), i)) == Shl(s, 9) + i
      ensures 0 < Shl(s, 9) + i < 65536
    {
      hide Shl, Or;
      Pow2Values();
      OrCommutes(Shl(s, 9), i);
      OrDisjoint(i, s, 9);
      ShlMonotone(s, Pow2(4), 9);
      ShlMonotone(0, s, 9);
      ShlZero(9);
      ShlPow2(4, 9);
    }
  }
}
