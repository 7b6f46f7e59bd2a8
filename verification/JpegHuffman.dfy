/** stbi__huffman and stbi__build_huffman: the decoding tables of one JPEG Huffman code. */
module JpegHuffman {
  import opened Collections
  import opened Bits
  import opened Canonical
  import opened JpegCodes

  const FAST_BITS: nat := 9
  const FAST_SIZE: nat := 512
  const NOT_FAST: byte := 255

  // ----- the list of sizes

  /** count[i - 1] codes of i bits each, in ascending order (BITS and HUFFSIZE of Figure C.1). */
  function Expand(count: seq<nat>, i: nat): seq<nat>
    requires i <= |count|
  {
    if i == 0 then [] else Expand(count, i - 1) + Repeat(i, count[i - 1])
  }

  lemma {:induction false} ExpandSizes(count: seq<nat>, i: nat)
    requires i <= |count| <= 16
    ensures Sizes(Expand(count, i)) && forall k :: 0 <= k < |Expand(count, i)| ==> Expand(count, i)[k] <= i
  {
    if i > 0 {
      ExpandSizes(count, i - 1);
    }
  }

  lemma {:induction false} ExpandLonger(count: seq<nat>, i: nat, n: nat)
    requires i <= n <= |count|
    ensures |Expand(count, i)| <= |Expand(count, n)|
  {
    if i < n {
      ExpandLonger(count, i, n - 1);
    }
  }

  function SizeList(count: seq<nat>): seq<nat> {
    Expand(count, |count|)
  }

  // ----- the fast table

  /** The code of k has at most nine bits and begins with it any window whose top nine bits are c. */
  ghost predicate FastHit(s: seq<nat>, k: nat, c: nat)
    requires Sizes(s)
  {
    k < |s| && s[k] <= FAST_BITS && Shr(c, 9 - s[k]) == HuffCode(s, k)
  }

  lemma FastHitIsBegins(s: seq<nat>, k: nat, w: nat)
    requires Sizes(s)
    ensures FastHit(s, k, Shr(w, 7)) <==> Begins(s, k, w) && s[k] <= FAST_BITS
  {
    hide HuffCode, Shr;
    if k < |s| && s[k] <= 9 {
      ShrShr(w, 7, 9 - s[k]);
    }
  }

  lemma FastHitUnique(s: seq<nat>, a: nat, b: nat, c: nat)
    requires Sizes(s) && FastHit(s, a, c) && FastHit(s, b, c)
    ensures a == b
  {
    hide HuffCode, Shr, Shl, Low;
    ShlSplitZero(c);
    FastHitIsBegins(s, a, Shl(c, 7));
    FastHitIsBegins(s, b, Shl(c, 7));
    BeginsUnique(s, a, b, Shl(c, 7));
  }

  lemma ShlSplitZero(c: nat)
    ensures Shr(Shl(c, 7), 7) == c
  {
    hide Shr, Shl, Low, Pow2;
    ShlSplit(c, 0, 7);
  }

  /** Slot c once the first n symbols are entered. */
  ghost predicate FastSlot(s: seq<nat>, n: nat, c: nat, v: byte)
    requires Sizes(s)
  {
    || (v < n && FastHit(s, v, c))
    || (v == NOT_FAST && forall k: nat :: k < n ==> !FastHit(s, k, c))
  }

  class Huffman {
    var fast: seq<byte>
    var code: seq<nat>
    var values: seq<byte>
    var size: seq<nat>
    var maxcode: seq<nat>
    var delta: seq<int>

    ghost predicate Shape()
      reads this
    {
      |fast| == FAST_SIZE && |code| == 256 && |values| == 256 && |size| == 257 && |maxcode| == 18 && |delta| == 17
    }

    ghost predicate Sized(s: seq<nat>)
      reads this
    {
      Shape() && |s| <= 256 && Sizes(s) && size[..|s|] == s && size[|s|] == 0
    }

    /** Codes of the first n symbols. */
    ghost predicate Coded(s: seq<nat>, n: nat)
      reads this
    {
      Shape() && Sizes(s) && n <= |s| <= 256 && forall k :: 0 <= k < n ==> code[k] == U16(HuffCode(s, k))
    }

    /** The rows for code sizes below j. */
    ghost predicate Rows(s: seq<nat>, j: nat)
      reads this
    {
      && Shape() && Sizes(s) && j <= 17
      && forall i :: 1 <= i < j ==>
           maxcode[i] == Taken(s, Upto(s, i)) && delta[i] == Upto(s, i - 1) - Next(s, Upto(s, i - 1), i)
    }

    ghost predicate Fast(s: seq<nat>, n: nat)
      reads this
    {
      Shape() && Sizes(s) && forall c :: 0 <= c < FAST_SIZE ==> FastSlot(s, n, c, fast[c])
    }

    ghost predicate TableOf(s: seq<nat>)
      reads this
    {
      Sized(s) && Codable(s) && Coded(s, |s|) && Rows(s, 17) && maxcode[17] == 0xffff_ffff && Fast(s, |s|)
    }

    constructor ()
      ensures Shape()
    {
      fast := seq(FAST_SIZE, _ => 0);
      code := seq(256, _ => 0);
      values := seq(256, _ => 0);
      size := seq(257, _ => 0);
      maxcode := seq(18, _ => 0);
      delta := seq(17, _ => 0);
    }

    /** Fails exactly when there are more than 256 codes or a size has more codes than bit strings. */
    method Build(count: seq<nat>) returns (ok: bool)
      requires Shape() && |count| == 16
      modifies this
      ensures Shape() && values == old(values) && Sizes(SizeList(count))
      ensures ok <==> |SizeList(count)| <= 256 && Codable(SizeList(count))
      ensures ok ==> TableOf(SizeList(count))
    {
      hide Codable, SizeList, Expand, Coded, Rows, TableOf, Sizes;
      ghost var s := SizeList(count);
      assert s == Expand(count, 16) && Sizes(s) by { SizeListSizes(count); }
      var k;
      ok, k := FillSizes(count);
      if !ok {
        return;
      }
      ok := AssignCodes(s);
      if !ok {
        return;
      }
      BuildFast(s, k);
    }

    lemma SizeListSizes(count: seq<nat>)
      requires |count| == 16
      ensures SizeList(count) == Expand(count, 16) && Sizes(SizeList(count))
    {
      ExpandSizes(count, 16);
    }

    method BuildFast(ghost s: seq<nat>, k: nat)
      requires Sized(s) && Codable(s) && Coded(s, |s|) && Rows(s, 17) && k == |s|
      modifies this`maxcode, this`fast
      ensures Shape() && TableOf(s)
    {
      hide HuffCode, Codable, Taken, Upto, Next, Sizes, FastHit;
      maxcode := maxcode[17 := 0xffff_ffff];
      fast := seq(FAST_SIZE, _ => NOT_FAST);
      EnterAll(s, k);
    }

    /** Writes the list of sizes, closed by a zero. */
    method FillSizes(count: seq<nat>) returns (ok: bool, k: nat)
      requires Shape() && |count| == 16
      modifies this`size
      ensures Shape()
      ensures ok <==> |Expand(count, 16)| <= 256
      ensures ok ==> k == |Expand(count, 16)| && size[..k] == Expand(count, 16) && size[k] == 0
    {
      hide Expand, Repeat;
      k := 0;
      var i := 0;
      NothingExpanded(count);
      while i < 16
        invariant 0 <= i <= 16 && Shape()
        invariant k <= 256 && size[..k] == Expand(count, i)
      {
        var j := 0;
        ghost var start := size[..k];
        ExpandLonger(count, i + 1, 16);
        ExpandMore(count, i);
        while j < count[i]
          invariant 0 <= j <= count[i] && Shape()
          invariant k == |start| + j <= 256 && size[..k] == start + Repeat(i + 1, j)
        {
          size := size[k := i + 1];
          k := k + 1;
          if k >= 257 {
            return false, k;
          }
          assert size[..k] == size[..k - 1] + [i + 1];
          RepeatMore(i + 1, j);
          j := j + 1;
        }
        i := i + 1;
      }
      size := size[k := 0];
      ok := true;
    }

    lemma NothingExpanded(count: seq<nat>)
      ensures Expand(count, 0) == []
    {
    }

    lemma ExpandMore(count: seq<nat>, i: nat)
      requires i < |count|
      ensures Expand(count, i + 1) == Expand(count, i) + Repeat(i + 1, count[i])
      ensures Expand(count, i) + Repeat(i + 1, 0) == Expand(count, i)
    {
    }

    lemma RepeatMore(v: nat, j: nat)
      ensures Repeat(v, j + 1) == Repeat(v, j) + [v]
    {
    }

    /** The codes, and for each size the preshifted limit and the offset from code to symbol. */
    method AssignCodes(ghost s: seq<nat>) returns (ok: bool)
      requires Sized(s)
      modifies this`code, this`maxcode, this`delta
      ensures Sized(s)
      ensures ok <==> Codable(s)
      ensures ok ==> Coded(s, |s|) && Rows(s, 17)
    {
      hide Taken, Next, Upto, HuffCode, Sizes, Pow2, Shl, Rows, Coded, Sized;
      var code_, k, j := 0, 0, 1;
      FirstRun(s);
      NoRows(s);
      while j <= 16
        invariant 1 <= j <= 17 && Sized(s) && Sizes(s) && |s| <= 256
        invariant k == Upto(s, j - 1) && Taken(s, k) <= 65536
        invariant j <= 16 ==> code_ == Next(s, k, j)
        invariant Rows(s, j) && Coded(s, k)
      {
        ok, code_, k := AssignRun(s, j, code_, k);
        if !ok {
          return;
        }
        if j < 16 {
          RunEnds(s, j);
        }
        code_ := 2 * code_;
        j := j + 1;
      }
      UptoAll(s);
      ok := true;
    }

    lemma NoRows(s: seq<nat>)
      requires Sized(s)
      ensures Rows(s, 1) && Coded(s, 0) && Sizes(s) && |s| <= 256
    {
    }

    lemma FirstRun(s: seq<nat>)
      requires Sized(s)
      ensures Sizes(s) && Upto(s, 0) == 0 && Taken(s, 0) == 0 && Next(s, 0, 1) == 0
    {
      UptoAll(s);
      hide Shr, Shl, Low, Pow2;
      ShlZero(15);
      ShlSplit(0, 0, 15);
    }

    lemma RunEnds(s: seq<nat>, j: nat)
      requires Sizes(s) && 1 <= j < 16
      ensures Next(s, Upto(s, j), j + 1) == 2 * Next(s, Upto(s, j), j)
    {
      UptoSplits(s, j);
      NextDoubles(s, Upto(s, j), j);
    }

    /** One size: its codes are consecutive. */
    method AssignRun(ghost s: seq<nat>, j: nat, code0: nat, k0: nat) returns (ok: bool, code_: nat, k: nat)
      requires Sized(s) && Sizes(s) && |s| <= 256 && 1 <= j <= 16 && k0 == Upto(s, j - 1) && Taken(s, k0) <= 65536
      requires code0 == Next(s, k0, j) && Rows(s, j) && Coded(s, k0)
      modifies this`code, this`maxcode, this`delta
      ensures Sized(s)
      ensures !ok ==> !Codable(s)
      ensures ok ==> k == Upto(s, j) && code_ == Next(s, k, j) && Taken(s, k) <= 65536
      ensures ok ==> Rows(s, j + 1) && Coded(s, k)
    {
      hide Taken, Next, Upto, HuffCode, Sizes, Pow2, Shl, Shr;
      code_, k := code0, k0;
      delta := delta[j := k - code_];
      UptoSplits(s, j - 1);
      UptoSplits(s, j);
      UptoMonotone(s, j - 1, j);
      if size[k] == j {
        while size[k] == j
          invariant k0 <= k <= Upto(s, j) && Sized(s) && code_ == Next(s, k, j)
          invariant k > k0 || size[k0] == j
          invariant Coded(s, k) && delta == old(delta)[j := k0 - code0] && maxcode == old(maxcode)
          decreases |s| - k
        {
          SizeAt(s, k);
          NextIsCode(s, k);
          code := code[k := U16(code_)];
          code_ := code_ + 1;
          k := k + 1;
        }
        RunChecked(s, j, k);
        if code_ - 1 >= Shl(1, j) {
          return false, code_, k;
        }
      }
      RunComplete(s, j, k);
      TakenAligned(s, k, j);
      maxcode := maxcode[j := Shl(code_, 16 - j)];
      ok := true;
    }

    lemma SizeAt(s: seq<nat>, k: nat)
      requires Sized(s) && k <= |s| && 0 < size[k]
      ensures k < |s| && s[k] == size[k]
    {
      if k < |s| {
        assert size[..|s|][k] == size[k];
      }
    }

    lemma RunComplete(s: seq<nat>, j: nat, k: nat)
      requires Sized(s) && k <= Upto(s, j) && 1 <= j <= 16 && size[k] != j && Upto(s, j - 1) <= k
      ensures k == Upto(s, j) && (k > 0 ==> s[k - 1] <= j)
    {
      hide Upto;
      UptoSplits(s, j);
      UptoSplits(s, j - 1);
      assert k < |s| ==> s[k] == size[..|s|][k] == size[k];
    }

    /** The test after a run is exact. */
    lemma RunChecked(s: seq<nat>, j: nat, k: nat)
      requires Sizes(s) && k <= Upto(s, j) && 1 <= j <= 16 && 0 < k && s[k - 1] == j
      ensures Next(s, k, j) >= 1
      ensures Next(s, k, j) - 1 >= Shl(1, j) <==> Taken(s, k) > 65536
      ensures Taken(s, k) > 65536 ==> !Codable(s)
    {
      hide Shl, Pow2, Taken, HuffCode, Shr, Next, Upto;
      NextIsCode(s, k - 1);
      FitsInterval(s, k - 1);
      ShlOne(j);
      TakenMonotone(s, k, |s|);
    }

    /** Enters the codes of at most nine bits. */
    method EnterAll(ghost s: seq<nat>, k: nat)
      requires Sized(s) && Codable(s) && Coded(s, |s|) && Fast(s, 0) && k == |s|
      modifies this`fast
      ensures Sized(s) && Coded(s, |s|) && Fast(s, |s|)
    {
      hide HuffCode, Shl, Codable, FastSlot, Pow2, Sizes;
      var i := 0;
      while i < k
        invariant 0 <= i <= k && Shape() && Fast(s, i)
      {
        assert size[i] == size[..|s|][i] == s[i];
        if size[i] <= FAST_BITS {
          CodeFits(s, i);
          Enter(s, i);
        } else {
          SkipFast(s, i);
        }
        i := i + 1;
      }
    }

    lemma CodeFits(s: seq<nat>, i: nat)
      requires Sizes(s) && Codable(s) && i < |s|
      ensures U16(HuffCode(s, i)) == HuffCode(s, i) < Pow2(s[i])
    {
      hide HuffCode, Pow2;
      CodableIff(s);
      Pow2Monotone(s[i], 16);
      Pow2Values();
    }

    lemma SkipFast(s: seq<nat>, i: nat)
      requires Fast(s, i) && i < |s| && s[i] > FAST_BITS
      ensures Fast(s, i + 1)
    {
      forall c | 0 <= c < FAST_SIZE
        ensures FastSlot(s, i + 1, c, fast[c])
      {
        assert FastSlot(s, i, c, fast[c]);
      }
    }

    method Enter(ghost s: seq<nat>, i: nat)
      requires Sized(s) && i < |s| && Fast(s, i) && size[i] == s[i] <= FAST_BITS
      requires code[i] == HuffCode(s, i) < Pow2(s[i])
      modifies this`fast
      ensures Shape() && Fast(s, i + 1)
    {
      hide HuffCode, Shl, Shr, Pow2, FastSlot, Sizes;
      var c := Shl(code[i], FAST_BITS - size[i]);
      var m := Shl(1, FAST_BITS - size[i]);
      SlotRange(s, i);
      ghost var before := fast;
      var j := 0;
      while j < m
        invariant 0 <= j <= m && Shape()
        invariant forall x :: 0 <= x < FAST_SIZE ==> fast[x] == if c <= x < c + j then i else before[x]
      {
        fast := fast[c + j := i];
        j := j + 1;
      }
      forall x | 0 <= x < FAST_SIZE
        ensures FastSlot(s, i + 1, x, fast[x])
      {
        ShrBlock(x, 9 - s[i], code[i]);
        assert FastSlot(s, i, x, before[x]);
        SlotStep(s, i, x, before[x]);
      }
    }

    lemma SlotRange(s: seq<nat>, i: nat)
      requires Sizes(s) && i < |s| && s[i] <= FAST_BITS && HuffCode(s, i) < Pow2(s[i])
      ensures var c, m := Shl(HuffCode(s, i), 9 - s[i]), Shl(1, 9 - s[i]);
              c + m == Shl(HuffCode(s, i) + 1, 9 - s[i]) <= FAST_SIZE
    {
      hide HuffCode, Shl, Pow2;
      ShlAdd(HuffCode(s, i), 1, 9 - s[i]);
      ShlMonotone(HuffCode(s, i) + 1, Pow2(s[i]), 9 - s[i]);
      ShlPow2(s[i], 9 - s[i]);
      Pow2Values();
    }

    lemma SlotStep(s: seq<nat>, i: nat, x: nat, v: byte)
      requires Sizes(s) && i < |s| <= 256 && s[i] <= FAST_BITS && FastSlot(s, i, x, v)
      ensures FastSlot(s, i + 1, x, if FastHit(s, i, x) then i else v)
    {
      hide FastHit;
    }
  }
}
