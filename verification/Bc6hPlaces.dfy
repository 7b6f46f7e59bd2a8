/**
 * Where every bit of a BC6H header stands, as a number. Nearly all of it is one rule for all fourteen modes;
 * only the upper bits of three channels and the last channel are scattered.
 */
module Bc6hPlaces {
  import opened Bc6hLayout

  /** Bits of value k: the base endpoint, the other endpoints, the partition. Twelve channels, then 12. */
  function ValueWidth(i: nat, k: nat): nat {
    if k == 12 then (if OneSubset(i) then 0 else 5)
    else if k >= 6 && OneSubset(i) then 0
    else if k < 3 || i == 3 || i == 13 then BaseWidth(i)
    else DeltaWidth(i, k % 3)
  }

  predicate OneSubset(i: nat) { i == 3 || i == 5 || i == 7 || i == 9 }

  function BaseWidth(i: nat): nat {
    match i
    case 0 => 10 case 1 => 7 case 2 => 11 case 3 => 10 case 4 => 11 case 5 => 11 case 6 => 11
    case 7 => 12 case 8 => 9 case 9 => 16 case 13 => 6 case _ => 8
  }

  /** One channel of three may have a bit more than the other two. */
  function DeltaWidth(i: nat, c: nat): nat {
    if i == 0 || i == 8 then 5
    else if i == 1 then 6
    else if i == 5 then 9
    else if i == 7 then 8
    else if i == 9 then 4
    else if i == 2 || i == 4 || i == 6 then (if 2 * c == i - 2 then 5 else 4)
    else (if c == i - 10 then 6 else 5)
  }

  /** The position of bit b of value k in a block of mode index i. */
  function Place(i: nat, k: nat, b: nat): int {
    if k < 3 && b >= 10 then 35 + 10 * k + DeltaWidth(i, k) + (BaseWidth(i) - 1 - b)
    else if k < 6 then 5 + 10 * k + b
    else if k == 6 then 65 + b
    else if k == 7 && b < 4 then 41 + b
    else if k == 8 && b < 4 then 61 + b
    else if k == 9 then 71 + b
    else if k == 10 && b < 4 then 51 + b
    else if k == 12 then 77 + b
    else Stray(i, k, b)
  }

  /** Bits four and five of green and blue of endpoint 2 and of green of endpoint 3, and blue of endpoint 3. */
  function Stray(i: nat, k: nat, b: nat): int {
    if k == 7 then
      if b == 4 then (if i == 0 then 2 else if i == 4 then 75 else 24) else (if i == 1 then 2 else if i == 11 then 23 else 21)
    else if k == 8 then
      if b == 4 then (if i == 0 then 3 else if i == 6 then 40 else 14) else (if i == 12 then 23 else 22)
    else if k == 10 then
      if b == 4 then (if i == 1 then 3 else if i == 10 then 13 else if i == 13 then 11 else 40)
      else (if i == 1 then 4 else if i == 11 then 33 else 31)
    else if b == 0 then (if i == 1 || i == 13 then 12 else if i == 4 then 69 else if i == 11 then 13 else 50)
    else if b == 1 then (if i == 1 || i == 12 || i == 13 then 13 else if i == 6 then 69 else 60)
    else if b == 2 then (if i == 1 || i == 10 || i == 13 then 23 else 70)
    else if b == 3 then (if i == 1 || i == 13 then 32 else if i == 10 then 33 else 76)
    else if b == 4 then (if i == 0 then 4 else if i == 6 then 75 else 34)
    else 33
  }

  // ----- the layouts agree

  function ModeLength(i: nat): nat { if i < 2 then 2 else 5 }

  /** The widths are those of the mode table. */
  lemma WidthIs(i: nat, k: nat)
    requires i < 14 && k < 13
    ensures ValueWidth(i, k) == Size(Modes(i), TargetAt(k)) <= 16
  {
    match i { case 0 => case 1 => case 2 => case 3 => case 4 => case 5 => case 6 => case 7 => case 8 => case 9 => case 10 => case 11 => case 12 => case _ => }
  }

  /** Every bit of every header value is where the rule says. */
  lemma PlaceIs(i: nat, k: nat, b: nat)
    requires i < 14 && k < 13 && b < ValueWidth(i, k)
    ensures ModeLength(i) + Where(Fields(i), TargetAt(k), b) == Place(i, k, b)
  {
    hide Where, Place, ValueWidth, TargetAt, Fields0, Fields1, Fields2, Fields3, Fields4, Fields5, Fields6, Fields7, Fields8, Fields9, Fields10, Fields11, Fields12, Fields13;
    match i
    case 0 => Places0(k, b);
    case 1 => Places1(k, b);
    case 2 => Places2(k, b);
    case 3 => Places3(k, b);
    case 4 => Places4(k, b);
    case 5 => Places5(k, b);
    case 6 => Places6(k, b);
    case 7 => Places7(k, b);
    case 8 => Places8(k, b);
    case 9 => Places9(k, b);
    case 10 => Places10(k, b);
    case 11 => Places11(k, b);
    case 12 => Places12(k, b);
    case _ => Places13(k, b);
  }

  lemma Places0(k: nat, b: nat)
    requires k < 13 && b < ValueWidth(0, k)
    ensures 2 + Where(Fields0(), TargetAt(k), b) == Place(0, k, b)
  {
    hide EP, Rev, Where, HeaderBits, Fits, Sum, Mask, From41_0;
    if Place(0, k, b) >= 41 {
      Places41_0(k, b);
    }
  }

  lemma Places41_0(k: nat, b: nat)
    requires k < 13 && b < ValueWidth(0, k) && Place(0, k, b) >= 41
    ensures 41 + Where(From41_0(), TargetAt(k), b) == Place(0, k, b)
  {
    hide EP, Rev, Where, HeaderBits, Fits, Sum, Mask;
  }

  lemma Places1(k: nat, b: nat)
    requires k < 13 && b < ValueWidth(1, k)
    ensures 2 + Where(Fields1(), TargetAt(k), b) == Place(1, k, b)
  {
    hide EP, Rev, Where, HeaderBits, Fits, Sum, Mask, From25_1;
    if Place(1, k, b) >= 25 {
      Places25_1(k, b);
    }
  }

  lemma Places25_1(k: nat, b: nat)
    requires k < 13 && b < ValueWidth(1, k) && Place(1, k, b) >= 25
    ensures 25 + Where(From25_1(), TargetAt(k), b) == Place(1, k, b)
  {
    hide EP, Rev, Where, HeaderBits, Fits, Sum, Mask, From41_1;
    if Place(1, k, b) >= 41 {
      Places41_1(k, b);
    }
  }

  lemma Places41_1(k: nat, b: nat)
    requires k < 13 && b < ValueWidth(1, k) && Place(1, k, b) >= 41
    ensures 41 + Where(From41_1(), TargetAt(k), b) == Place(1, k, b)
  {
    hide EP, Rev, Where, HeaderBits, Fits, Sum, Mask;
  }

  lemma Places2(k: nat, b: nat)
    requires k < 13 && b < ValueWidth(2, k)
    ensures 5 + Where(Fields2(), TargetAt(k), b) == Place(2, k, b)
  {
    hide EP, Rev, Where, HeaderBits, Fits, Sum, Mask, From41_2;
    if Place(2, k, b) >= 41 {
      Places41_2(k, b);
    }
  }

  lemma Places41_2(k: nat, b: nat)
    requires k < 13 && b < ValueWidth(2, k) && Place(2, k, b) >= 41
    ensures 41 + Where(From41_2(), TargetAt(k), b) == Place(2, k, b)
  {
    hide EP, Rev, Where, HeaderBits, Fits, Sum, Mask, From61_2;
    if Place(2, k, b) >= 61 {
      Places61_2(k, b);
    }
  }

  lemma Places61_2(k: nat, b: nat)
    requires k < 13 && b < ValueWidth(2, k) && Place(2, k, b) >= 61
    ensures 61 + Where(From61_2(), TargetAt(k), b) == Place(2, k, b)
  {
    hide EP, Rev, Where, HeaderBits, Fits, Sum, Mask;
  }

  lemma Places3(k: nat, b: nat)
    requires k < 13 && b < ValueWidth(3, k)
    ensures 5 + Where(Fields3(), TargetAt(k), b) == Place(3, k, b)
  {
    hide EP, Rev, Where, HeaderBits, Fits, Sum, Mask;
  }

  lemma Places4(k: nat, b: nat)
    requires k < 13 && b < ValueWidth(4, k)
    ensures 5 + Where(Fields4(), TargetAt(k), b) == Place(4, k, b)
  {
    hide EP, Rev, Where, HeaderBits, Fits, Sum, Mask, From41_4;
    if Place(4, k, b) >= 41 {
      Places41_4(k, b);
    }
  }

  lemma Places41_4(k: nat, b: nat)
    requires k < 13 && b < ValueWidth(4, k) && Place(4, k, b) >= 41
    ensures 41 + Where(From41_4(), TargetAt(k), b) == Place(4, k, b)
  {
    hide EP, Rev, Where, HeaderBits, Fits, Sum, Mask, From61_4;
    if Place(4, k, b) >= 61 {
      Places61_4(k, b);
    }
  }

  lemma Places61_4(k: nat, b: nat)
    requires k < 13 && b < ValueWidth(4, k) && Place(4, k, b) >= 61
    ensures 61 + Where(From61_4(), TargetAt(k), b) == Place(4, k, b)
  {
    hide EP, Rev, Where, HeaderBits, Fits, Sum, Mask;
  }

  lemma Places5(k: nat, b: nat)
    requires k < 13 && b < ValueWidth(5, k)
    ensures 5 + Where(Fields5(), TargetAt(k), b) == Place(5, k, b)
  {
    hide EP, Rev, Where, HeaderBits, Fits, Sum, Mask;
  }

  lemma Places6(k: nat, b: nat)
    requires k < 13 && b < ValueWidth(6, k)
    ensures 5 + Where(Fields6(), TargetAt(k), b) == Place(6, k, b)
  {
    hide EP, Rev, Where, HeaderBits, Fits, Sum, Mask, From41_6;
    if Place(6, k, b) >= 41 {
      Places41_6(k, b);
    }
  }

  lemma Places41_6(k: nat, b: nat)
    requires k < 13 && b < ValueWidth(6, k) && Place(6, k, b) >= 41
    ensures 41 + Where(From41_6(), TargetAt(k), b) == Place(6, k, b)
  {
    hide EP, Rev, Where, HeaderBits, Fits, Sum, Mask, From61_6;
    if Place(6, k, b) >= 61 {
      Places61_6(k, b);
    }
  }

  lemma Places61_6(k: nat, b: nat)
    requires k < 13 && b < ValueWidth(6, k) && Place(6, k, b) >= 61
    ensures 61 + Where(From61_6(), TargetAt(k), b) == Place(6, k, b)
  {
    hide EP, Rev, Where, HeaderBits, Fits, Sum, Mask;
  }

  lemma Places7(k: nat, b: nat)
    requires k < 13 && b < ValueWidth(7, k)
    ensures 5 + Where(Fields7(), TargetAt(k), b) == Place(7, k, b)
  {
    hide EP, Rev, Where, HeaderBits, Fits, Sum, Mask;
  }

  lemma Places8(k: nat, b: nat)
    requires k < 13 && b < ValueWidth(8, k)
    ensures 5 + Where(Fields8(), TargetAt(k), b) == Place(8, k, b)
  {
    hide EP, Rev, Where, HeaderBits, Fits, Sum, Mask, From41_8;
    if Place(8, k, b) >= 41 {
      Places41_8(k, b);
    }
  }

  lemma Places41_8(k: nat, b: nat)
    requires k < 13 && b < ValueWidth(8, k) && Place(8, k, b) >= 41
    ensures 41 + Where(From41_8(), TargetAt(k), b) == Place(8, k, b)
  {
    hide EP, Rev, Where, HeaderBits, Fits, Sum, Mask;
  }

  lemma Places9(k: nat, b: nat)
    requires k < 13 && b < ValueWidth(9, k)
    ensures 5 + Where(Fields9(), TargetAt(k), b) == Place(9, k, b)
  {
    hide EP, Rev, Where, HeaderBits, Fits, Sum, Mask;
  }

  lemma Places10(k: nat, b: nat)
    requires k < 13 && b < ValueWidth(10, k)
    ensures 5 + Where(Fields10(), TargetAt(k), b) == Place(10, k, b)
  {
    hide EP, Rev, Where, HeaderBits, Fits, Sum, Mask, From41_10;
    if Place(10, k, b) >= 41 {
      Places41_10(k, b);
    }
  }

  lemma Places41_10(k: nat, b: nat)
    requires k < 13 && b < ValueWidth(10, k) && Place(10, k, b) >= 41
    ensures 41 + Where(From41_10(), TargetAt(k), b) == Place(10, k, b)
  {
    hide EP, Rev, Where, HeaderBits, Fits, Sum, Mask;
  }

  lemma Places11(k: nat, b: nat)
    requires k < 13 && b < ValueWidth(11, k)
    ensures 5 + Where(Fields11(), TargetAt(k), b) == Place(11, k, b)
  {
    hide EP, Rev, Where, HeaderBits, Fits, Sum, Mask, From41_11;
    if Place(11, k, b) >= 41 {
      Places41_11(k, b);
    }
  }

  lemma Places41_11(k: nat, b: nat)
    requires k < 13 && b < ValueWidth(11, k) && Place(11, k, b) >= 41
    ensures 41 + Where(From41_11(), TargetAt(k), b) == Place(11, k, b)
  {
    hide EP, Rev, Where, HeaderBits, Fits, Sum, Mask;
  }

  lemma Places12(k: nat, b: nat)
    requires k < 13 && b < ValueWidth(12, k)
    ensures 5 + Where(Fields12(), TargetAt(k), b) == Place(12, k, b)
  {
    hide EP, Rev, Where, HeaderBits, Fits, Sum, Mask, From41_12;
    if Place(12, k, b) >= 41 {
      Places41_12(k, b);
    }
  }

  lemma Places41_12(k: nat, b: nat)
    requires k < 13 && b < ValueWidth(12, k) && Place(12, k, b) >= 41
    ensures 41 + Where(From41_12(), TargetAt(k), b) == Place(12, k, b)
  {
    hide EP, Rev, Where, HeaderBits, Fits, Sum, Mask;
  }

  lemma Places13(k: nat, b: nat)
    requires k < 13 && b < ValueWidth(13, k)
    ensures 5 + Where(Fields13(), TargetAt(k), b) == Place(13, k, b)
  {
    hide EP, Rev, Where, HeaderBits, Fits, Sum, Mask, From25_13;
    if Place(13, k, b) >= 25 {
      Places25_13(k, b);
    }
  }

  lemma Places25_13(k: nat, b: nat)
    requires k < 13 && b < ValueWidth(13, k) && Place(13, k, b) >= 25
    ensures 25 + Where(From25_13(), TargetAt(k), b) == Place(13, k, b)
  {
    hide EP, Rev, Where, HeaderBits, Fits, Sum, Mask, From41_13;
    if Place(13, k, b) >= 41 {
      Places41_13(k, b);
    }
  }

  lemma Places41_13(k: nat, b: nat)
    requires k < 13 && b < ValueWidth(13, k) && Place(13, k, b) >= 41
    ensures 41 + Where(From41_13(), TargetAt(k), b) == Place(13, k, b)
  {
    hide EP, Rev, Where, HeaderBits, Fits, Sum, Mask;
  }
}
