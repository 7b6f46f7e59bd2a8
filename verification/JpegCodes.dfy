/** Huffman codes as Annex C of ITU-T T.81 derives them from the sizes of the codes. */
module JpegCodes {
  import opened Bits
  import opened Canonical

  /** HUFFSIZE: sizes in ascending order. */
  ghost predicate Sizes(s: seq<nat>) {
    && (forall k :: 0 <= k < |s| ==> 1 <= s[k] <= 16)
    && (forall a, b :: 0 <= a <= b < |s| ==> s[a] <= s[b])
  }

  /** HUFFCODE: count upwards, shifting whenever the size grows (Figure C.2). */
  function HuffCode(s: seq<nat>, k: nat): nat
    requires Sizes(s) && k < |s|
  {
    if k == 0 then 0 else Shl(HuffCode(s, k - 1) + 1, s[k] - s[k - 1])
  }

  /** The code of k begins the sixteen-bit window w. */
  ghost predicate Begins(s: seq<nat>, k: nat, w: nat)
    requires Sizes(s)
  {
    k < |s| && Shr(w, 16 - s[k]) == HuffCode(s, k)
  }

  /** Windows taken by the codes before k; every code takes an interval. */
  function Taken(s: seq<nat>, k: nat): nat
    requires Sizes(s) && k <= |s|
  {
    if k == 0 then 0 else Taken(s, k - 1) + Pow2(16 - s[k - 1])
  }

  lemma {:induction false} CodeStartsInterval(s: seq<nat>, k: nat)
    requires Sizes(s) && k < |s|
    ensures Shl(HuffCode(s, k), 16 - s[k]) == Taken(s, k)
    ensures Shl(HuffCode(s, k) + 1, 16 - s[k]) == Taken(s, k + 1)
  {
    hide Shl, Pow2;
    if k == 0 {
      ShlZero(16 - s[0]);
    } else {
      CodeStartsInterval(s, k - 1);
      ShlShl(HuffCode(s, k - 1) + 1, s[k] - s[k - 1], 16 - s[k]);
    }
    ShlAdd(HuffCode(s, k), 1, 16 - s[k]);
    ShlOne(16 - s[k]);
  }

  lemma BeginsIffInterval(s: seq<nat>, k: nat, w: nat)
    requires Sizes(s) && k < |s|
    ensures Begins(s, k, w) <==> Taken(s, k) <= w < Taken(s, k + 1)
  {
    CodeStartsInterval(s, k);
    ShrBlock(w, 16 - s[k], HuffCode(s, k));
  }

  lemma {:induction false} TakenMonotone(s: seq<nat>, a: nat, b: nat)
    requires Sizes(s) && a <= b <= |s|
    ensures Taken(s, a) <= Taken(s, b)
    ensures a < b ==> Taken(s, a) < Taken(s, b)
  {
    if a < b {
      TakenMonotone(s, a, b - 1);
    }
  }

  /** No window begins with two codes. */
  lemma BeginsUnique(s: seq<nat>, a: nat, b: nat, w: nat)
    requires Sizes(s) && Begins(s, a, w) && Begins(s, b, w)
    ensures a == b
  {
    BeginsIffInterval(s, a, w);
    BeginsIffInterval(s, b, w);
    if a < b {
      TakenMonotone(s, a + 1, b);
    } else if b < a {
      TakenMonotone(s, b + 1, a);
    }
  }

  /** The symbol number whose code begins the window. */
  ghost function Match(s: seq<nat>, w: nat, n: nat): (k: nat)
    requires Sizes(s) && n <= |s| && w < Taken(s, n)
    ensures k < n && Begins(s, k, w)
  {
    BeginsIffInterval(s, n - 1, w);
    if w < Taken(s, n - 1) then Match(s, w, n - 1) else n - 1
  }

  ghost predicate HasMatch(s: seq<nat>, w: nat)
    requires Sizes(s)
  {
    w < Taken(s, |s|)
  }

  lemma MatchIs(s: seq<nat>, w: nat, k: nat)
    requires Sizes(s) && Begins(s, k, w)
    ensures HasMatch(s, w) && Match(s, w, |s|) == k
  {
    BeginsIffInterval(s, k, w);
    TakenMonotone(s, k + 1, |s|);
    BeginsUnique(s, Match(s, w, |s|), k, w);
  }

  /** The sizes can be those of a code: no size needs more codes than there are bit strings. */
  ghost predicate Codable(s: seq<nat>)
    requires Sizes(s)
  {
    Taken(s, |s|) <= 65536
  }

  /** That is, exactly when every code fits its size. */
  lemma CodableIff(s: seq<nat>)
    requires Sizes(s)
    ensures Codable(s) <==> forall k :: 0 <= k < |s| ==> HuffCode(s, k) < Pow2(s[k])
  {
    hide HuffCode, Taken, Pow2, Shl;
    if Codable(s) {
      forall k | 0 <= k < |s|
        ensures HuffCode(s, k) < Pow2(s[k])
      {
        FitsInterval(s, k);
        TakenMonotone(s, k + 1, |s|);
      }
    } else {
      NoneTaken(s);
      FitsInterval(s, |s| - 1);
    }
  }

  lemma NoneTaken(s: seq<nat>)
    requires Sizes(s)
    ensures Taken(s, 0) == 0
  {
  }

  lemma FitsInterval(s: seq<nat>, k: nat)
    requires Sizes(s) && k < |s|
    ensures HuffCode(s, k) < Pow2(s[k]) <==> Taken(s, k + 1) <= 65536
  {
    hide HuffCode, Taken, Pow2, Shl;
    CodeStartsInterval(s, k);
    ShlMonotone(HuffCode(s, k) + 1, Pow2(s[k]), 16 - s[k]);
    ShlPow2(s[k], 16 - s[k]);
    Pow2Values();
  }

  // ----- runs of equal size

  /** How many codes have at most j bits. */
  function Upto(s: seq<nat>, j: nat): (n: nat)
    ensures n <= |s|
  {
    if s == [] || s[|s| - 1] <= j then |s| else Upto(s[..|s| - 1], j)
  }

  lemma {:induction false} UptoSplits(s: seq<nat>, j: nat)
    requires Sizes(s)
    ensures forall k :: 0 <= k < |s| ==> (k < Upto(s, j) <==> s[k] <= j)
  {
    if s != [] && s[|s| - 1] > j {
      UptoSplits(s[..|s| - 1], j);
      forall k | 0 <= k < |s|
        ensures k < Upto(s, j) <==> s[k] <= j
      {
        if k < |s| - 1 {
          assert s[..|s| - 1][k] == s[k];
        }
      }
    }
  }

  lemma UptoMonotone(s: seq<nat>, i: nat, j: nat)
    requires Sizes(s) && i <= j
    ensures Upto(s, i) <= Upto(s, j)
  {
    UptoSplits(s, i);
    UptoSplits(s, j);
    assert Upto(s, j) < |s| ==> s[Upto(s, j)] > j;
  }

  lemma UptoAll(s: seq<nat>)
    requires Sizes(s)
    ensures Upto(s, 0) == 0 && Upto(s, 16) == |s|
  {
    UptoSplits(s, 0);
    UptoSplits(s, 16);
    assert |s| > 0 ==> s[0] > 0 && s[|s| - 1] <= 16;
  }

  /** The next code of j bits once k codes are assigned, when all of them have at most j bits. */
  function Next(s: seq<nat>, k: nat, j: nat): nat
    requires Sizes(s) && k <= |s| && 1 <= j <= 16
  {
    Shr(Taken(s, k), 16 - j)
  }

  lemma {:induction false} TakenAligned(s: seq<nat>, k: nat, j: nat)
    requires Sizes(s) && k <= |s| && 1 <= j <= 16 && (k > 0 ==> s[k - 1] <= j)
    ensures Shl(Next(s, k, j), 16 - j) == Taken(s, k)
  {
    if k == 0 {
      ShlZero(16 - j);
      ShlSplit(0, 0, 16 - j);
    } else {
      CodeStartsInterval(s, k - 1);
      var c := HuffCode(s, k - 1) + 1;
      var i := s[k - 1];
      ShlShl(c, j - i, 16 - j);
      ShlSplit(Shl(c, j - i), 0, 16 - j);
    }
  }

  lemma NextIsCode(s: seq<nat>, k: nat)
    requires Sizes(s) && k < |s|
    ensures Next(s, k, s[k]) == HuffCode(s, k)
    ensures Next(s, k + 1, s[k]) == HuffCode(s, k) + 1
  {
    hide HuffCode, Taken, Shl, Shr, Low;
    CodeStartsInterval(s, k);
    ShlSplit(HuffCode(s, k), 0, 16 - s[k]);
    ShlSplit(HuffCode(s, k) + 1, 0, 16 - s[k]);
  }

  lemma NextDoubles(s: seq<nat>, k: nat, j: nat)
    requires Sizes(s) && k <= |s| && 1 <= j < 16 && (k > 0 ==> s[k - 1] <= j)
    ensures Next(s, k, j + 1) == 2 * Next(s, k, j)
  {
    TakenAligned(s, k, j);
    TakenAligned(s, k, j + 1);
    var a, b := Next(s, k, j), Next(s, k, j + 1);
    ShlShl(a, 1, 15 - j);
    assert Shl(a, 1) == 2 * a;
    ShlMonotone(2 * a, b, 15 - j);
    ShlMonotone(b, 2 * a, 15 - j);
  }

  /** Within a run of equal size, codes are consecutive. */
  lemma {:induction false} RunCodes(s: seq<nat>, a: nat, k: nat, j: nat)
    requires Sizes(s) && a <= k < |s| && s[k] == j && (a > 0 ==> s[a - 1] <= j) && s[a] == j
    ensures HuffCode(s, k) == Next(s, a, j) + (k - a)
  {
    NextIsCode(s, k);
    if a < k {
      RunCodes(s, a, k - 1, j);
      NextIsCode(s, k - 1);
    }
  }

  /** What the slow path computes: the symbol at the offset of the window in its run. */
  lemma RunMatch(s: seq<nat>, j: nat, w: nat) returns (k: nat)
    requires Sizes(s) && 1 <= j <= 16
    requires Taken(s, Upto(s, j - 1)) <= w < Taken(s, Upto(s, j))
    ensures Begins(s, k, w) && s[k] == j
    ensures k == Upto(s, j - 1) + Shr(w, 16 - j) - Next(s, Upto(s, j - 1), j)
  {
    hide HuffCode, Taken, Shr, Upto, Next;
    UptoSplits(s, j - 1);
    UptoSplits(s, j);
    UptoMonotone(s, j - 1, j);
    var a := Upto(s, j - 1);
    k := Match(s, w, Upto(s, j));
    BeginsIffInterval(s, k, w);
    if k < a {
      TakenMonotone(s, k + 1, a);
    }
    RunCodes(s, a, k, j);
  }
}
