/**
 * Canonical Huffman codes as section 3.2.2 of RFC 1951 assigns them to a list of code lengths.
 * Everything here is about the lengths alone; no table is involved.
 */
module Canonical {
  import opened Bits

  const MAX_LENGTH: nat := 15

  /** Code lengths of the symbols 0, 1, ...; length 0 means the symbol is unused. */
  ghost predicate Lengths(lens: seq<nat>) {
    forall i :: 0 <= i < |lens| ==> lens[i] <= MAX_LENGTH
  }

  /** The number of symbols with code length L (`bl_count` in the RFC). */
  function Count(lens: seq<nat>, L: nat): nat {
    if lens == [] then 0
    else Count(lens[..|lens| - 1], L) + (if lens[|lens| - 1] == L then 1 else 0)
  }

  /** The smallest code of length L (`next_code` in the RFC). */
  function FirstCode(lens: seq<nat>, L: nat): nat {
    if L <= 1 then 0 else 2 * (FirstCode(lens, L - 1) + Count(lens, L - 1))
  }

  function EndCode(lens: seq<nat>, L: nat): nat {
    FirstCode(lens, L) + Count(lens, L)
  }

  /** Codes of equal length are consecutive in symbol order. */
  function CodeOf(lens: seq<nat>, sym: nat): nat
    requires sym < |lens|
  {
    FirstCode(lens, lens[sym]) + Count(lens[..sym], lens[sym])
  }

  /** The Kraft sum of the used symbols in units of 2^-15. */
  function Kraft(lens: seq<nat>): nat
    requires Lengths(lens)
  {
    if lens == [] then 0
    else
      var s := lens[|lens| - 1];
      Kraft(lens[..|lens| - 1]) + (if s == 0 then 0 else Pow2(MAX_LENGTH - s))
  }

  /** No length has more codes than there are bit strings: the code is not over-subscribed. */
  ghost predicate Fits(lens: seq<nat>) {
    forall L :: 1 <= L <= MAX_LENGTH && Count(lens, L) > 0 ==> EndCode(lens, L) <= Pow2(L)
  }

  /** The first sixteen-bit window that no code of length at most L is a prefix of. */
  function Limit(lens: seq<nat>, L: nat): nat
    requires L <= 16
  {
    if L == 0 then 0 else Shl(EndCode(lens, L), 16 - L)
  }

  /** The code of `sym` is a prefix of the window w, read from the most significant of 16 bits. */
  ghost predicate IsPrefix(lens: seq<nat>, sym: nat, w: nat) {
    && sym < |lens|
    && 0 < lens[sym] <= MAX_LENGTH
    && Shr(w, 16 - lens[sym]) == CodeOf(lens, sym)
  }

  // ----- counting

  lemma {:induction false} CountPrefix(lens: seq<nat>, n: nat, L: nat)
    requires n <= |lens|
    ensures Count(lens[..n], L) <= Count(lens, L)
    ensures n < |lens| && lens[n] == L ==> Count(lens[..n], L) < Count(lens, L)
    decreases |lens|
  {
    if n == |lens| {
      assert lens[..n] == lens;
    } else {
      var init := lens[..|lens| - 1];
      assert init[..n] == lens[..n];
      CountPrefix(init, n, L);
    }
  }

  lemma CountSnoc(lens: seq<nat>, n: nat, L: nat)
    requires n < |lens|
    ensures Count(lens[..n + 1], L) == Count(lens[..n], L) + (if lens[n] == L then 1 else 0)
  {
    assert lens[..n + 1][..n] == lens[..n];
  }

  lemma {:induction false} CountBound(lens: seq<nat>, L: nat)
    ensures Count(lens, L) <= |lens|
  {
    if lens != [] {
      CountBound(lens[..|lens| - 1], L);
    }
  }

  /** The k-th symbol of length L, in symbol order. */
  ghost function NthSymbol(lens: seq<nat>, L: nat, k: nat): (sym: nat)
    requires k < Count(lens, L)
    ensures sym < |lens| && lens[sym] == L && Count(lens[..sym], L) == k
  {
    var n := |lens| - 1;
    if lens[n] == L && k == Count(lens[..n], L) then n
    else
      var sym := NthSymbol(lens[..n], L, k);
      assert lens[..n][..sym] == lens[..sym];
      sym
  }

  /** Symbols of the same length with the same rank are the same symbol. */
  lemma RankInjective(lens: seq<nat>, a: nat, b: nat)
    requires a < |lens| && b < |lens| && lens[a] == lens[b]
    requires Count(lens[..a], lens[a]) == Count(lens[..b], lens[b])
    ensures a == b
  {
    if a < b {
      assert lens[..b][..a] == lens[..a];
      CountPrefix(lens[..b], a, lens[a]);
    } else if b < a {
      assert lens[..a][..b] == lens[..b];
      CountPrefix(lens[..a], b, lens[b]);
    }
  }

  // ----- the line of windows, cut at the limits

  /** The codes of length L occupy the windows between two consecutive limits. */
  lemma LimitStep(lens: seq<nat>, L: nat)
    requires 1 <= L <= 16
    ensures Shl(FirstCode(lens, L), 16 - L) == Limit(lens, L - 1)
    ensures Limit(lens, L) == Limit(lens, L - 1) + Shl(Count(lens, L), 16 - L)
  {
    ShlAdd(FirstCode(lens, L), Count(lens, L), 16 - L);
    if L == 1 {
      ShlZero(15);
    } else {
      var e := EndCode(lens, L - 1);
      ShlAdd(e, e, 16 - L);
      assert FirstCode(lens, L) == e + e;
      assert Shl(e, 16 - (L - 1)) == 2 * Shl(e, 16 - L);
    }
  }

  lemma {:induction false} LimitMonotone(lens: seq<nat>, a: nat, b: nat)
    requires a <= b <= 16
    ensures Limit(lens, a) <= Limit(lens, b)
  {
    if a < b {
      LimitMonotone(lens, a, b - 1);
      LimitStep(lens, b);
    }
  }

  lemma LimitFits(lens: seq<nat>, L: nat)
    requires 1 <= L <= 16
    ensures EndCode(lens, L) <= Pow2(L) <==> Limit(lens, L) <= 65536
  {
    ShlMonotone(EndCode(lens, L), Pow2(L), 16 - L);
    ShlPow2(L, 16 - L);
    Pow2Values();
  }

  /** Adding one symbol moves every limit from its length on by the same amount. */
  lemma {:induction false} LimitSnoc(lens: seq<nat>, s: nat, L: nat)
    requires s <= MAX_LENGTH && L <= 16
    ensures Limit(lens + [s], L) == Limit(lens, L) + (if 1 <= s <= L then Pow2(16 - s) else 0)
    decreases L
  {
    if L != 0 {
      LimitSnoc(lens, s, L - 1);
      LimitStep(lens, L);
      LimitStep(lens + [s], L);
      assert (lens + [s])[..|lens|] == lens;
      if s == L {
        ShlAdd(Count(lens, L), 1, 16 - L);
        ShlOne(16 - L);
      }
    }
  }

  lemma {:induction false} LimitIsKraft(lens: seq<nat>)
    requires Lengths(lens)
    ensures Limit(lens, MAX_LENGTH) == 2 * Kraft(lens)
  {
    if lens == [] {
      LimitEmpty(MAX_LENGTH);
    } else {
      var init, s := lens[..|lens| - 1], lens[|lens| - 1];
      LimitIsKraft(init);
      LimitSnoc(init, s, MAX_LENGTH);
      assert lens == init + [s];
    }
  }

  lemma {:induction false} LimitEmpty(L: nat)
    requires L <= 16
    ensures Limit([], L) == 0
  {
    if L != 0 {
      LimitEmpty(L - 1);
      LimitStep([], L);
      ShlZero(16 - L);
    }
  }

  /** Where no code is longer than L, the limits no longer move. */
  lemma {:induction false} LimitConstant(lens: seq<nat>, L: nat, b: nat)
    requires L <= b <= MAX_LENGTH
    requires forall l :: L < l <= b ==> Count(lens, l) == 0
    ensures Limit(lens, b) == Limit(lens, L)
    decreases b
  {
    if L < b {
      LimitConstant(lens, L, b - 1);
      LimitStep(lens, b);
      ShlZero(16 - b);
    }
  }

  /** The longest code length in use up to b, or 0. */
  ghost function LongestUsed(lens: seq<nat>, b: nat): (L: nat)
    ensures L <= b
    ensures L > 0 ==> Count(lens, L) > 0
    ensures forall l :: L < l <= b ==> Count(lens, l) == 0
  {
    if b == 0 || Count(lens, b) > 0 then b else LongestUsed(lens, b - 1)
  }

  /** The per-length test of the code generator is the Kraft inequality. */
  lemma FitsIffKraft(lens: seq<nat>)
    requires Lengths(lens)
    ensures Fits(lens) <==> Kraft(lens) <= Pow2(MAX_LENGTH)
  {
    LimitIsKraft(lens);
    Pow2Values();
    if Fits(lens) {
      var L := LongestUsed(lens, MAX_LENGTH);
      LimitConstant(lens, L, MAX_LENGTH);
      if L > 0 {
        LimitFits(lens, L);
      }
    }
    if Kraft(lens) <= Pow2(MAX_LENGTH) {
      forall L | 1 <= L <= MAX_LENGTH && Count(lens, L) > 0
        ensures EndCode(lens, L) <= Pow2(L)
      {
        LimitMonotone(lens, L, MAX_LENGTH);
        LimitFits(lens, L);
      }
    }
  }

  lemma FitsLimit(lens: seq<nat>, L: nat)
    requires Lengths(lens) && Fits(lens) && 1 <= L <= MAX_LENGTH
    ensures Limit(lens, L) <= 65536
    ensures EndCode(lens, L) <= Pow2(L)
  {
    FitsIffKraft(lens);
    LimitIsKraft(lens);
    Pow2Values();
    LimitMonotone(lens, L, MAX_LENGTH);
    LimitFits(lens, L);
  }

  // ----- prefixes

  /** `w >> n == c` says that w lies in the block of windows that start with c. */
  lemma ShrBlock(w: nat, n: nat, c: nat)
    ensures Shr(w, n) == c <==> Shl(c, n) <= w < Shl(c + 1, n)
  {
    Split(w, n);
    ShlAdd(Shr(w, n), 1, n);
    ShlAdd(c, 1, n);
    ShlOne(n);
    if Shr(w, n) < c {
      ShlMonotone(Shr(w, n) + 1, c, n);
    } else if c < Shr(w, n) {
      ShlMonotone(c + 1, Shr(w, n), n);
    }
  }

  /** A window that starts with a code of length L lies between the limits of L - 1 and L. */
  lemma PrefixRange(lens: seq<nat>, sym: nat, w: nat)
    requires IsPrefix(lens, sym, w)
    ensures Limit(lens, lens[sym] - 1) <= w < Limit(lens, lens[sym])
  {
    var L, c := lens[sym], CodeOf(lens, sym);
    ShrBlock(w, 16 - L, c);
    CountPrefix(lens, sym, L);
    ShlMonotone(FirstCode(lens, L), c, 16 - L);
    ShlMonotone(c + 1, EndCode(lens, L), 16 - L);
    LimitStep(lens, L);
  }

  /** Between two limits there is always a code, at the rank the slow path computes. */
  lemma RangePrefix(lens: seq<nat>, L: nat, w: nat) returns (sym: nat)
    requires 1 <= L <= MAX_LENGTH
    requires Limit(lens, L - 1) <= w < Limit(lens, L)
    ensures IsPrefix(lens, sym, w) && lens[sym] == L
    ensures FirstCode(lens, L) <= Shr(w, 16 - L) < EndCode(lens, L)
    ensures Count(lens[..sym], L) == Shr(w, 16 - L) - FirstCode(lens, L)
  {
    var c := Shr(w, 16 - L);
    ShrBlock(w, 16 - L, c);
    LimitStep(lens, L);
    ShlMonotone(c + 1, FirstCode(lens, L), 16 - L);
    ShlMonotone(EndCode(lens, L), c, 16 - L);
    sym := NthSymbol(lens, L, c - FirstCode(lens, L));
  }

  /** No window starts with the codes of two symbols. */
  lemma PrefixUnique(lens: seq<nat>, a: nat, b: nat, w: nat)
    requires IsPrefix(lens, a, w) && IsPrefix(lens, b, w)
    ensures a == b
  {
    PrefixRange(lens, a, w);
    PrefixRange(lens, b, w);
    if lens[a] < lens[b] {
      LimitMonotone(lens, lens[a], lens[b] - 1);
    } else if lens[b] < lens[a] {
      LimitMonotone(lens, lens[b], lens[a] - 1);
    } else {
      RankInjective(lens, a, b);
    }
  }

  /** A window starts with a code of length at most L exactly when it lies below the limit of L. */
  lemma {:induction false} PrefixIffBelowLimit(lens: seq<nat>, L: nat, w: nat)
    requires L <= MAX_LENGTH
    ensures (exists sym: nat :: IsPrefix(lens, sym, w) && lens[sym] <= L) <==> w < Limit(lens, L)
    decreases L
  {
    if sym: nat :| IsPrefix(lens, sym, w) && lens[sym] <= L {
      PrefixRange(lens, sym, w);
      LimitMonotone(lens, lens[sym], L);
    }
    if w < Limit(lens, L) {
      if w < Limit(lens, L - 1) {
        PrefixIffBelowLimit(lens, L - 1, w);
        var sym: nat :| IsPrefix(lens, sym, w) && lens[sym] <= L - 1;
      } else {
        var sym := RangePrefix(lens, L, w);
      }
    }
  }
}
