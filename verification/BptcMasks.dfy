/**
 * The partition and anchor tables once more, in the compact form of the standard: a partition is a number
 * with one or two bits a texel, and eight anchor texels are a number with one hexadecimal digit each.
 */
module BptcMasks {
  import opened Bits
  import opened BptcTables

  /** Bit t is the subset of texel t of two. */
  function Mask2(p: nat): nat {
    if p < 16 then Mask2A(p) else if p < 32 then Mask2B(p) else if p < 48 then Mask2C(p) else Mask2D(p)
  }

  function Mask2A(p: nat): nat {
    match p
    case 0 => 0xcccc case 1 => 0x8888 case 2 => 0xeeee case 3 => 0xecc8 case 4 => 0xc880 case 5 => 0xfeec case 6 => 0xfec8 case 7 => 0xec80
    case 8 => 0xc800 case 9 => 0xffec case 10 => 0xfe80 case 11 => 0xe800 case 12 => 0xffe8 case 13 => 0xff00 case 14 => 0xfff0 case _ => 0xf000
  }

  function Mask2B(p: nat): nat {
    match p
    case 16 => 0xf710 case 17 => 0x008e case 18 => 0x7100 case 19 => 0x08ce case 20 => 0x008c case 21 => 0x7310 case 22 => 0x3100 case 23 => 0x8cce
    case 24 => 0x088c case 25 => 0x3110 case 26 => 0x6666 case 27 => 0x366c case 28 => 0x17e8 case 29 => 0x0ff0 case 30 => 0x718e case _ => 0x399c
  }

  function Mask2C(p: nat): nat {
    match p
    case 32 => 0xaaaa case 33 => 0xf0f0 case 34 => 0x5a5a case 35 => 0x33cc case 36 => 0x3c3c case 37 => 0x55aa case 38 => 0x9696 case 39 => 0xa55a
    case 40 => 0x73ce case 41 => 0x13c8 case 42 => 0x324c case 43 => 0x3bdc case 44 => 0x6996 case 45 => 0xc33c case 46 => 0x9966 case _ => 0x0660
  }

  function Mask2D(p: nat): nat {
    match p
    case 48 => 0x0272 case 49 => 0x04e4 case 50 => 0x4e40 case 51 => 0x2720 case 52 => 0xc936 case 53 => 0x936c case 54 => 0x39c6 case 55 => 0x639c
    case 56 => 0x9336 case 57 => 0x9cc6 case 58 => 0x817e case 59 => 0xe718 case 60 => 0xccf0 case 61 => 0x0fcc case 62 => 0x7744 case _ => 0xee22
  }

  /** Bits 2 t and 2 t + 1 are the subset of texel t of three. */
  function Mask3(p: nat): nat {
    if p < 16 then Mask3A(p) else if p < 32 then Mask3B(p) else if p < 48 then Mask3C(p) else Mask3D(p)
  }

  function Mask3A(p: nat): nat {
    match p
    case 0 => 0xaa68_5050 case 1 => 0x6a5a_5040 case 2 => 0x5a5a_4200 case 3 => 0x5450_a0a8
    case 4 => 0xa5a5_0000 case 5 => 0xa0a0_5050 case 6 => 0x5555_a0a0 case 7 => 0x5a5a_5050
    case 8 => 0xaa55_0000 case 9 => 0xaa55_5500 case 10 => 0xaaaa_5500 case 11 => 0x9090_9090
    case 12 => 0x9494_9494 case 13 => 0xa4a4_a4a4 case 14 => 0xa9a5_9450 case _ => 0x2a0a_4250
  }

  function Mask3B(p: nat): nat {
    match p
    case 16 => 0xa594_5040 case 17 => 0x0a42_5054 case 18 => 0xa5a5_a500 case 19 => 0x55a0_a0a0
    case 20 => 0xa8a8_5454 case 21 => 0x6a6a_4040 case 22 => 0xa4a4_5000 case 23 => 0x1a1a_0500
    case 24 => 0x0050_a4a4 case 25 => 0xaaa5_9090 case 26 => 0x1469_6914 case 27 => 0x6969_1400
    case 28 => 0xa085_85a0 case 29 => 0xaa82_1414 case 30 => 0x50a4_a450 case _ => 0x6a5a_0200
  }

  function Mask3C(p: nat): nat {
    match p
    case 32 => 0xa9a5_8000 case 33 => 0x5090_a0a8 case 34 => 0xa8a0_9050 case 35 => 0x2424_2424
    case 36 => 0x00aa_5500 case 37 => 0x2492_4924 case 38 => 0x2449_9224 case 39 => 0x50a5_0a50
    case 40 => 0x500a_a550 case 41 => 0xaaaa_4444 case 42 => 0x6666_0000 case 43 => 0xa5a0_a5a0
    case 44 => 0x50a0_50a0 case 45 => 0x6928_6928 case 46 => 0x44aa_aa44 case _ => 0x6666_6600
  }

  function Mask3D(p: nat): nat {
    match p
    case 48 => 0xaa44_4444 case 49 => 0x54a8_54a8 case 50 => 0x9580_9580 case 51 => 0x9696_9600
    case 52 => 0xa854_54a8 case 53 => 0x8095_9580 case 54 => 0xaa14_1414 case 55 => 0x9696_0000
    case 56 => 0xaaaa_1414 case 57 => 0xa050_50a0 case 58 => 0xa0a5_a5a0 case 59 => 0x9600_0000
    case 60 => 0x4080_4080 case 61 => 0xa9a8_a9a8 case 62 => 0xaaaa_aa44 case _ => 0x2a4a_5254
  }

  /** Anchor texels of subset 1 of two, partitions 8 k to 8 k + 7, the first in the last digit. */
  function Anchors2(k: nat): nat {
    match k
    case 0 => 0xffff_ffff case 1 => 0xffff_ffff case 2 => 0xf882_282f case 3 => 0x2288_2282
    case 4 => 0xff82_86ff case 5 => 0x6ff2_2282 case 6 => 0x22ff_8626 case _ => 0xf22f_ffff
  }

  /** The same for subset 1 of three, */
  function Anchors3a(k: nat): nat {
    match k
    case 0 => 0xff38_ff33 case 1 => 0x3356_6688 case 2 => 0xa633_f833 case 3 => 0xff58_6885
    case 4 => 0xf8a6_53f8 case 5 => 0xffff_5f3f case 6 => 0xa585_55f3 case _ => 0x33cf_d8a5
  }

  /** and for subset 2 of three. */
  function Anchors3b(k: nat): nat {
    match k
    case 0 => 0x83ff_388f case 1 => 0x8fff_ffff case 2 => 0x8f8f_3f8f case 3 => 0x8aff_a6f3
    case 4 => 0xa98a_af3f case 5 => 0x8663_f8f6 case 6 => 0xffff_ff3f case _ => 0x8ff3_ffff
  }

  // ----- digits of a number

  /** The number with the given digits of k bits, the first one lowest. */
  function Join(s: seq<nat>, k: nat): nat {
    if s == [] then 0 else s[0] + Shl(Join(s[1..], k), k)
  }

  lemma {:induction false} JoinDigit(s: seq<nat>, k: nat, t: nat)
    requires t < |s| && forall i :: 0 <= i < |s| ==> s[i] < Pow2(k)
    ensures Low(Shr(Join(s, k), t * k), k) == s[t]
    decreases t
  {
    hide Shl, Shr, Low, Pow2;
    ShlSplit(Join(s[1..], k), s[0], k);
    if t == 0 {
      ShrNone(Join(s, k));
    } else {
      JoinDigit(s[1..], k, t - 1);
      assert t * k == k + (t - 1) * k;
      ShrShr(Join(s, k), k, (t - 1) * k);
    }
  }

  lemma ShrNone(x: nat)
    ensures Shr(x, 0) == x
  {
  }

  function Sum4(s: seq<nat>, i: nat, b: nat): nat
    requires i + 4 <= |s|
  {
    s[i] + b * (s[i + 1] + b * (s[i + 2] + b * s[i + 3]))
  }

  lemma JoinShifted(s: seq<nat>, k: nat)
    requires 4 <= |s|
    ensures Join(s, k) == s[0] + Shl(s[1], k) + Shl(s[2], 2 * k) + Shl(s[3], 3 * k) + Shl(Join(s[4..], k), 4 * k)
  {
    hide Shl, Join;
    JoinOne(s, k);
    JoinOne(s[1..], k);
    JoinOne(s[2..], k);
    JoinOne(s[3..], k);
    assert s[1..][1..] == s[2..] && s[2..][1..] == s[3..] && s[3..][1..] == s[4..];
    var x := Join(s[4..], k);
    Shifted(s[3], x, k, k);
    Shifted(s[2], s[3] + Shl(x, k), k, k);
    Shifted(s[3], x, k, 2 * k);
    Shifted(s[1], s[2] + Shl(s[3] + Shl(x, k), k), k, k);
    Shifted(s[2], s[3] + Shl(x, k), k, 2 * k);
    Shifted(s[3], x, k, 3 * k);
  }

  lemma Shifted(d: nat, x: nat, k: nat, n: nat)
    ensures Shl(d + Shl(x, k), n) == Shl(d, n) + Shl(x, k + n)
  {
    hide Shl;
    ShlAdd(d, Shl(x, k), n);
    ShlShl(x, k, n);
  }

  lemma JoinFour(s: seq<nat>, k: nat, b: nat)
    requires 4 <= |s| && ((k == 1 && b == 2) || (k == 2 && b == 4) || (k == 4 && b == 16))
    ensures Join(s, k) == Sum4(s, 0, b) + Shl(Join(s[4..], k), 4 * k)
  {
    hide Shl, Join;
    JoinShifted(s, k);
    ShlValues(s[1]);
    ShlValues(s[2]);
    ShlValues(s[3]);
  }

  lemma ShlValues(x: nat)
    ensures Shl(x, 1) == 2 * x && Shl(x, 2) == 4 * x && Shl(x, 3) == 8 * x && Shl(x, 4) == 0x10 * x && Shl(x, 6) == 0x40 * x
    ensures Shl(x, 8) == 0x100 * x && Shl(x, 12) == 0x1000 * x && Shl(x, 16) == 0x1_0000 * x
  {
    ShlFour(x);
    ShlFour(Shl(x, 4));
    ShlFour(Shl(x, 8));
    ShlFour(Shl(x, 12));
    hide Shl;
    ShlShl(x, 4, 2);
    ShlShl(x, 4, 4);
    ShlShl(x, 8, 4);
    ShlShl(x, 12, 4);
  }

  lemma ShlFour(x: nat)
    ensures Shl(x, 1) == 2 * x && Shl(x, 2) == 4 * x && Shl(x, 3) == 8 * x && Shl(x, 4) == 0x10 * x
  {
    assert Shl(x, 0) == x && Shl(x, 1) == 2 * x;
    assert Shl(x, 2) == 4 * x && Shl(x, 3) == 8 * x;
  }

  lemma JoinOne(s: seq<nat>, k: nat)
    requires s != []
    ensures Join(s, k) == s[0] + Shl(Join(s[1..], k), k)
  {
  }

  // ----- the tables agree

  /** What the decoders rely on: rows of sixteen, and each anchor texel inside its own subset. */
  ghost predicate Sound2(row: seq<nat>, a: nat) {
    && |row| == 16 && 0 < a < 16 && row[0] == 0 && row[a] == 1
    && forall t :: 0 <= t < 16 ==> row[t] <= 1
  }

  ghost predicate Sound3(row: seq<nat>, a: nat, b: nat) {
    && |row| == 16 && 0 < a < 16 && 0 < b < 16 && row[0] == 0 && row[a] == 1 && row[b] == 2
    && forall t :: 0 <= t < 16 ==> row[t] <= 2
  }

  function Total2(s: seq<nat>): nat
    requires |s| == 16
  {
    Sum4(s, 0, 2) + 0x10 * Sum4(s, 4, 2) + 0x100 * Sum4(s, 8, 2) + 0x1000 * Sum4(s, 12, 2)
  }

  function Total3(s: seq<nat>): nat
    requires |s| == 16
  {
    Sum4(s, 0, 4) + 0x100 * Sum4(s, 4, 4) + 0x1_0000 * Sum4(s, 8, 4) + 0x100_0000 * Sum4(s, 12, 4)
  }

  function Total8(s: seq<nat>): nat
    requires |s| == 8
  {
    Sum4(s, 0, 16) + 0x1_0000 * Sum4(s, 4, 16)
  }

  lemma Join2(s: seq<nat>)
    requires |s| == 16
    ensures Join(s, 1) == Total2(s)
  {
    hide Join, Shl;
    JoinQuarters(s, 1, 2);
    ShlBy(Sum4(s, 4, 2), Sum4(s, 8, 2), Sum4(s, 12, 2), 4);
  }

  lemma Join3(s: seq<nat>)
    requires |s| == 16
    ensures Join(s, 2) == Total3(s)
  {
    hide Join, Shl;
    JoinQuarters(s, 2, 4);
    ShlBy(Sum4(s, 4, 4), Sum4(s, 8, 4), Sum4(s, 12, 4), 8);
  }

  lemma Join8(s: seq<nat>)
    requires |s| == 8
    ensures Join(s, 4) == Total8(s)
  {
    hide Shl;
    JoinFour(s, 4, 16);
    JoinFour(s[4..], 4, 16);
    assert s[4..][4..] == [];
    assert Sum4(s[4..], 0, 16) == Sum4(s, 4, 16);
    ShlZero(16);
    ShlValues(Sum4(s, 4, 16));
  }

  lemma JoinQuarters(s: seq<nat>, k: nat, b: nat)
    requires |s| == 16 && ((k == 1 && b == 2) || (k == 2 && b == 4))
    ensures Join(s, k) == Sum4(s, 0, b) + Shl(Sum4(s, 4, b) + Shl(Sum4(s, 8, b) + Shl(Sum4(s, 12, b), 4 * k), 4 * k), 4 * k)
  {
    hide Shl;
    JoinFour(s, k, b);
    JoinFour(s[4..], k, b);
    JoinFour(s[8..], k, b);
    JoinFour(s[12..], k, b);
    assert s[4..][4..] == s[8..] && s[8..][4..] == s[12..] && s[12..][4..] == [];
    assert Sum4(s[4..], 0, b) == Sum4(s, 4, b) && Sum4(s[8..], 0, b) == Sum4(s, 8, b) && Sum4(s[12..], 0, b) == Sum4(s, 12, b);
    ShlZero(4 * k);
  }

  lemma ShlBy(x: nat, y: nat, z: nat, n: nat)
    requires n == 4 || n == 8
    ensures n == 4 ==> Shl(x + Shl(y + Shl(z, n), n), n) == 0x10 * x + 0x100 * y + 0x1000 * z
    ensures n == 8 ==> Shl(x + Shl(y + Shl(z, n), n), n) == 0x100 * x + 0x1_0000 * y + 0x100_0000 * z
  {
    hide Shl;
    ShlValues(z);
    ShlValues(y + Shl(z, n));
    ShlValues(x + Shl(y + Shl(z, n), n));
  }

  /** Every row is sound, and its sixteen subsets are the digits of the partition's number. */
  lemma TableSound2(p: nat)
    requires p < 64
    ensures Sound2(PartitionTable2(p), AnchorTable2(p)) && Total2(PartitionTable2(p)) == Mask2(p)
  {
    hide Sound2, Total2, PartitionTable2A, PartitionTable2B, PartitionTable2C, PartitionTable2D,
         AnchorTable2A, AnchorTable2B, AnchorTable2C, AnchorTable2D, Mask2A, Mask2B, Mask2C, Mask2D;
    match p / 2
    case 0 => Rows2From0(p); case 1 => Rows2From2(p);
    case 2 => Rows2From4(p); case 3 => Rows2From6(p);
    case 4 => Rows2From8(p); case 5 => Rows2From10(p);
    case 6 => Rows2From12(p); case 7 => Rows2From14(p);
    case 8 => Rows2From16(p); case 9 => Rows2From18(p);
    case 10 => Rows2From20(p); case 11 => Rows2From22(p);
    case 12 => Rows2From24(p); case 13 => Rows2From26(p);
    case 14 => Rows2From28(p); case 15 => Rows2From30(p);
    case 16 => Rows2From32(p); case 17 => Rows2From34(p);
    case 18 => Rows2From36(p); case 19 => Rows2From38(p);
    case 20 => Rows2From40(p); case 21 => Rows2From42(p);
    case 22 => Rows2From44(p); case 23 => Rows2From46(p);
    case 24 => Rows2From48(p); case 25 => Rows2From50(p);
    case 26 => Rows2From52(p); case 27 => Rows2From54(p);
    case 28 => Rows2From56(p); case 29 => Rows2From58(p);
    case 30 => Rows2From60(p); case _ => Rows2From62(p);
  }

  lemma Rows2From0(p: nat)
    requires 0 <= p < 2
    ensures Sound2(PartitionTable2A(p), AnchorTable2A(p)) && Total2(PartitionTable2A(p)) == Mask2A(p)
  {
    match p { case 0 => case _ => }
  }

  lemma Rows2From2(p: nat)
    requires 2 <= p < 4
    ensures Sound2(PartitionTable2A(p), AnchorTable2A(p)) && Total2(PartitionTable2A(p)) == Mask2A(p)
  {
    match p { case 2 => case _ => }
  }

  lemma Rows2From4(p: nat)
    requires 4 <= p < 6
    ensures Sound2(PartitionTable2A(p), AnchorTable2A(p)) && Total2(PartitionTable2A(p)) == Mask2A(p)
  {
    match p { case 4 => case _ => }
  }

  lemma Rows2From6(p: nat)
    requires 6 <= p < 8
    ensures Sound2(PartitionTable2A(p), AnchorTable2A(p)) && Total2(PartitionTable2A(p)) == Mask2A(p)
  {
    match p { case 6 => case _ => }
  }

  lemma Rows2From8(p: nat)
    requires 8 <= p < 10
    ensures Sound2(PartitionTable2A(p), AnchorTable2A(p)) && Total2(PartitionTable2A(p)) == Mask2A(p)
  {
    match p { case 8 => case _ => }
  }

  lemma Rows2From10(p: nat)
    requires 10 <= p < 12
    ensures Sound2(PartitionTable2A(p), AnchorTable2A(p)) && Total2(PartitionTable2A(p)) == Mask2A(p)
  {
    match p { case 10 => case _ => }
  }

  lemma Rows2From12(p: nat)
    requires 12 <= p < 14
    ensures Sound2(PartitionTable2A(p), AnchorTable2A(p)) && Total2(PartitionTable2A(p)) == Mask2A(p)
  {
    match p { case 12 => case _ => }
  }

  lemma Rows2From14(p: nat)
    requires 14 <= p < 16
    ensures Sound2(PartitionTable2A(p), AnchorTable2A(p)) && Total2(PartitionTable2A(p)) == Mask2A(p)
  {
    match p { case 14 => case _ => }
  }

  lemma Rows2From16(p: nat)
    requires 16 <= p < 18
    ensures Sound2(PartitionTable2B(p), AnchorTable2B(p)) && Total2(PartitionTable2B(p)) == Mask2B(p)
  {
    match p { case 16 => case _ => }
  }

  lemma Rows2From18(p: nat)
    requires 18 <= p < 20
    ensures Sound2(PartitionTable2B(p), AnchorTable2B(p)) && Total2(PartitionTable2B(p)) == Mask2B(p)
  {
    match p { case 18 => case _ => }
  }

  lemma Rows2From20(p: nat)
    requires 20 <= p < 22
    ensures Sound2(PartitionTable2B(p), AnchorTable2B(p)) && Total2(PartitionTable2B(p)) == Mask2B(p)
  {
    match p { case 20 => case _ => }
  }

  lemma Rows2From22(p: nat)
    requires 22 <= p < 24
    ensures Sound2(PartitionTable2B(p), AnchorTable2B(p)) && Total2(PartitionTable2B(p)) == Mask2B(p)
  {
    match p { case 22 => case _ => }
  }

  lemma Rows2From24(p: nat)
    requires 24 <= p < 26
    ensures Sound2(PartitionTable2B(p), AnchorTable2B(p)) && Total2(PartitionTable2B(p)) == Mask2B(p)
  {
    match p { case 24 => case _ => }
  }

  lemma Rows2From26(p: nat)
    requires 26 <= p < 28
    ensures Sound2(PartitionTable2B(p), AnchorTable2B(p)) && Total2(PartitionTable2B(p)) == Mask2B(p)
  {
    match p { case 26 => case _ => }
  }

  lemma Rows2From28(p: nat)
    requires 28 <= p < 30
    ensures Sound2(PartitionTable2B(p), AnchorTable2B(p)) && Total2(PartitionTable2B(p)) == Mask2B(p)
  {
    match p { case 28 => case _ => }
  }

  lemma Rows2From30(p: nat)
    requires 30 <= p < 32
    ensures Sound2(PartitionTable2B(p), AnchorTable2B(p)) && Total2(PartitionTable2B(p)) == Mask2B(p)
  {
    match p { case 30 => case _ => }
  }

  lemma Rows2From32(p: nat)
    requires 32 <= p < 34
    ensures Sound2(PartitionTable2C(p), AnchorTable2C(p)) && Total2(PartitionTable2C(p)) == Mask2C(p)
  {
    match p { case 32 => case _ => }
  }

  lemma Rows2From34(p: nat)
    requires 34 <= p < 36
    ensures Sound2(PartitionTable2C(p), AnchorTable2C(p)) && Total2(PartitionTable2C(p)) == Mask2C(p)
  {
    match p { case 34 => case _ => }
  }

  lemma Rows2From36(p: nat)
    requires 36 <= p < 38
    ensures Sound2(PartitionTable2C(p), AnchorTable2C(p)) && Total2(PartitionTable2C(p)) == Mask2C(p)
  {
    match p { case 36 => case _ => }
  }

  lemma Rows2From38(p: nat)
    requires 38 <= p < 40
    ensures Sound2(PartitionTable2C(p), AnchorTable2C(p)) && Total2(PartitionTable2C(p)) == Mask2C(p)
  {
    match p { case 38 => case _ => }
  }

  lemma Rows2From40(p: nat)
    requires 40 <= p < 42
    ensures Sound2(PartitionTable2C(p), AnchorTable2C(p)) && Total2(PartitionTable2C(p)) == Mask2C(p)
  {
    match p { case 40 => case _ => }
  }

  lemma Rows2From42(p: nat)
    requires 42 <= p < 44
    ensures Sound2(PartitionTable2C(p), AnchorTable2C(p)) && Total2(PartitionTable2C(p)) == Mask2C(p)
  {
    match p { case 42 => case _ => }
  }

  lemma Rows2From44(p: nat)
    requires 44 <= p < 46
    ensures Sound2(PartitionTable2C(p), AnchorTable2C(p)) && Total2(PartitionTable2C(p)) == Mask2C(p)
  {
    match p { case 44 => case _ => }
  }

  lemma Rows2From46(p: nat)
    requires 46 <= p < 48
    ensures Sound2(PartitionTable2C(p), AnchorTable2C(p)) && Total2(PartitionTable2C(p)) == Mask2C(p)
  {
    match p { case 46 => case _ => }
  }

  lemma Rows2From48(p: nat)
    requires 48 <= p < 50
    ensures Sound2(PartitionTable2D(p), AnchorTable2D(p)) && Total2(PartitionTable2D(p)) == Mask2D(p)
  {
    match p { case 48 => case _ => }
  }

  lemma Rows2From50(p: nat)
    requires 50 <= p < 52
    ensures Sound2(PartitionTable2D(p), AnchorTable2D(p)) && Total2(PartitionTable2D(p)) == Mask2D(p)
  {
    match p { case 50 => case _ => }
  }

  lemma Rows2From52(p: nat)
    requires 52 <= p < 54
    ensures Sound2(PartitionTable2D(p), AnchorTable2D(p)) && Total2(PartitionTable2D(p)) == Mask2D(p)
  {
    match p { case 52 => case _ => }
  }

  lemma Rows2From54(p: nat)
    requires 54 <= p < 56
    ensures Sound2(PartitionTable2D(p), AnchorTable2D(p)) && Total2(PartitionTable2D(p)) == Mask2D(p)
  {
    match p { case 54 => case _ => }
  }

  lemma Rows2From56(p: nat)
    requires 56 <= p < 58
    ensures Sound2(PartitionTable2D(p), AnchorTable2D(p)) && Total2(PartitionTable2D(p)) == Mask2D(p)
  {
    match p { case 56 => case _ => }
  }

  lemma Rows2From58(p: nat)
    requires 58 <= p < 60
    ensures Sound2(PartitionTable2D(p), AnchorTable2D(p)) && Total2(PartitionTable2D(p)) == Mask2D(p)
  {
    match p { case 58 => case _ => }
  }

  lemma Rows2From60(p: nat)
    requires 60 <= p < 62
    ensures Sound2(PartitionTable2D(p), AnchorTable2D(p)) && Total2(PartitionTable2D(p)) == Mask2D(p)
  {
    match p { case 60 => case _ => }
  }

  lemma Rows2From62(p: nat)
    requires 62 <= p < 64
    ensures Sound2(PartitionTable2D(p), AnchorTable2D(p)) && Total2(PartitionTable2D(p)) == Mask2D(p)
  {
    match p { case 62 => case _ => }
  }

  lemma TableSound3(p: nat)
    requires p < 64
    ensures Sound3(PartitionTable3(p), AnchorTable3a(p), AnchorTable3b(p)) && Total3(PartitionTable3(p)) == Mask3(p)
  {
    hide Sound3, Total3, PartitionTable3A, PartitionTable3B, PartitionTable3C, PartitionTable3D,
         AnchorTable3aA, AnchorTable3aB, AnchorTable3aC, AnchorTable3aD, AnchorTable3bA, AnchorTable3bB, AnchorTable3bC, AnchorTable3bD, Mask3A, Mask3B, Mask3C, Mask3D;
    match p / 2
    case 0 => Rows3From0(p); case 1 => Rows3From2(p);
    case 2 => Rows3From4(p); case 3 => Rows3From6(p);
    case 4 => Rows3From8(p); case 5 => Rows3From10(p);
    case 6 => Rows3From12(p); case 7 => Rows3From14(p);
    case 8 => Rows3From16(p); case 9 => Rows3From18(p);
    case 10 => Rows3From20(p); case 11 => Rows3From22(p);
    case 12 => Rows3From24(p); case 13 => Rows3From26(p);
    case 14 => Rows3From28(p); case 15 => Rows3From30(p);
    case 16 => Rows3From32(p); case 17 => Rows3From34(p);
    case 18 => Rows3From36(p); case 19 => Rows3From38(p);
    case 20 => Rows3From40(p); case 21 => Rows3From42(p);
    case 22 => Rows3From44(p); case 23 => Rows3From46(p);
    case 24 => Rows3From48(p); case 25 => Rows3From50(p);
    case 26 => Rows3From52(p); case 27 => Rows3From54(p);
    case 28 => Rows3From56(p); case 29 => Rows3From58(p);
    case 30 => Rows3From60(p); case _ => Rows3From62(p);
  }

  lemma Rows3From0(p: nat)
    requires 0 <= p < 2
    ensures Sound3(PartitionTable3A(p), AnchorTable3aA(p), AnchorTable3bA(p)) && Total3(PartitionTable3A(p)) == Mask3A(p)
  {
    match p { case 0 => case _ => }
  }

  lemma Rows3From2(p: nat)
    requires 2 <= p < 4
    ensures Sound3(PartitionTable3A(p), AnchorTable3aA(p), AnchorTable3bA(p)) && Total3(PartitionTable3A(p)) == Mask3A(p)
  {
    match p { case 2 => case _ => }
  }

  lemma Rows3From4(p: nat)
    requires 4 <= p < 6
    ensures Sound3(PartitionTable3A(p), AnchorTable3aA(p), AnchorTable3bA(p)) && Total3(PartitionTable3A(p)) == Mask3A(p)
  {
    match p { case 4 => case _ => }
  }

  lemma Rows3From6(p: nat)
    requires 6 <= p < 8
    ensures Sound3(PartitionTable3A(p), AnchorTable3aA(p), AnchorTable3bA(p)) && Total3(PartitionTable3A(p)) == Mask3A(p)
  {
    match p { case 6 => case _ => }
  }

  lemma Rows3From8(p: nat)
    requires 8 <= p < 10
    ensures Sound3(PartitionTable3A(p), AnchorTable3aA(p), AnchorTable3bA(p)) && Total3(PartitionTable3A(p)) == Mask3A(p)
  {
    match p { case 8 => case _ => }
  }

  lemma Rows3From10(p: nat)
    requires 10 <= p < 12
    ensures Sound3(PartitionTable3A(p), AnchorTable3aA(p), AnchorTable3bA(p)) && Total3(PartitionTable3A(p)) == Mask3A(p)
  {
    match p { case 10 => case _ => }
  }

  lemma Rows3From12(p: nat)
    requires 12 <= p < 14
    ensures Sound3(PartitionTable3A(p), AnchorTable3aA(p), AnchorTable3bA(p)) && Total3(PartitionTable3A(p)) == Mask3A(p)
  {
    match p { case 12 => case _ => }
  }

  lemma Rows3From14(p: nat)
    requires 14 <= p < 16
    ensures Sound3(PartitionTable3A(p), AnchorTable3aA(p), AnchorTable3bA(p)) && Total3(PartitionTable3A(p)) == Mask3A(p)
  {
    match p { case 14 => case _ => }
  }

  lemma Rows3From16(p: nat)
    requires 16 <= p < 18
    ensures Sound3(PartitionTable3B(p), AnchorTable3aB(p), AnchorTable3bB(p)) && Total3(PartitionTable3B(p)) == Mask3B(p)
  {
    match p { case 16 => case _ => }
  }

  lemma Rows3From18(p: nat)
    requires 18 <= p < 20
    ensures Sound3(PartitionTable3B(p), AnchorTable3aB(p), AnchorTable3bB(p)) && Total3(PartitionTable3B(p)) == Mask3B(p)
  {
    match p { case 18 => case _ => }
  }

  lemma Rows3From20(p: nat)
    requires 20 <= p < 22
    ensures Sound3(PartitionTable3B(p), AnchorTable3aB(p), AnchorTable3bB(p)) && Total3(PartitionTable3B(p)) == Mask3B(p)
  {
    match p { case 20 => case _ => }
  }

  lemma Rows3From22(p: nat)
    requires 22 <= p < 24
    ensures Sound3(PartitionTable3B(p), AnchorTable3aB(p), AnchorTable3bB(p)) && Total3(PartitionTable3B(p)) == Mask3B(p)
  {
    match p { case 22 => case _ => }
  }

  lemma Rows3From24(p: nat)
    requires 24 <= p < 26
    ensures Sound3(PartitionTable3B(p), AnchorTable3aB(p), AnchorTable3bB(p)) && Total3(PartitionTable3B(p)) == Mask3B(p)
  {
    match p { case 24 => case _ => }
  }

  lemma Rows3From26(p: nat)
    requires 26 <= p < 28
    ensures Sound3(PartitionTable3B(p), AnchorTable3aB(p), AnchorTable3bB(p)) && Total3(PartitionTable3B(p)) == Mask3B(p)
  {
    match p { case 26 => case _ => }
  }

  lemma Rows3From28(p: nat)
    requires 28 <= p < 30
    ensures Sound3(PartitionTable3B(p), AnchorTable3aB(p), AnchorTable3bB(p)) && Total3(PartitionTable3B(p)) == Mask3B(p)
  {
    match p { case 28 => case _ => }
  }

  lemma Rows3From30(p: nat)
    requires 30 <= p < 32
    ensures Sound3(PartitionTable3B(p), AnchorTable3aB(p), AnchorTable3bB(p)) && Total3(PartitionTable3B(p)) == Mask3B(p)
  {
    match p { case 30 => case _ => }
  }

  lemma Rows3From32(p: nat)
    requires 32 <= p < 34
    ensures Sound3(PartitionTable3C(p), AnchorTable3aC(p), AnchorTable3bC(p)) && Total3(PartitionTable3C(p)) == Mask3C(p)
  {
    match p { case 32 => case _ => }
  }

  lemma Rows3From34(p: nat)
    requires 34 <= p < 36
    ensures Sound3(PartitionTable3C(p), AnchorTable3aC(p), AnchorTable3bC(p)) && Total3(PartitionTable3C(p)) == Mask3C(p)
  {
    match p { case 34 => case _ => }
  }

  lemma Rows3From36(p: nat)
    requires 36 <= p < 38
    ensures Sound3(PartitionTable3C(p), AnchorTable3aC(p), AnchorTable3bC(p)) && Total3(PartitionTable3C(p)) == Mask3C(p)
  {
    match p { case 36 => case _ => }
  }

  lemma Rows3From38(p: nat)
    requires 38 <= p < 40
    ensures Sound3(PartitionTable3C(p), AnchorTable3aC(p), AnchorTable3bC(p)) && Total3(PartitionTable3C(p)) == Mask3C(p)
  {
    match p { case 38 => case _ => }
  }

  lemma Rows3From40(p: nat)
    requires 40 <= p < 42
    ensures Sound3(PartitionTable3C(p), AnchorTable3aC(p), AnchorTable3bC(p)) && Total3(PartitionTable3C(p)) == Mask3C(p)
  {
    match p { case 40 => case _ => }
  }

  lemma Rows3From42(p: nat)
    requires 42 <= p < 44
    ensures Sound3(PartitionTable3C(p), AnchorTable3aC(p), AnchorTable3bC(p)) && Total3(PartitionTable3C(p)) == Mask3C(p)
  {
    match p { case 42 => case _ => }
  }

  lemma Rows3From44(p: nat)
    requires 44 <= p < 46
    ensures Sound3(PartitionTable3C(p), AnchorTable3aC(p), AnchorTable3bC(p)) && Total3(PartitionTable3C(p)) == Mask3C(p)
  {
    match p { case 44 => case _ => }
  }

  lemma Rows3From46(p: nat)
    requires 46 <= p < 48
    ensures Sound3(PartitionTable3C(p), AnchorTable3aC(p), AnchorTable3bC(p)) && Total3(PartitionTable3C(p)) == Mask3C(p)
  {
    match p { case 46 => case _ => }
  }

  lemma Rows3From48(p: nat)
    requires 48 <= p < 50
    ensures Sound3(PartitionTable3D(p), AnchorTable3aD(p), AnchorTable3bD(p)) && Total3(PartitionTable3D(p)) == Mask3D(p)
  {
    match p { case 48 => case _ => }
  }

  lemma Rows3From50(p: nat)
    requires 50 <= p < 52
    ensures Sound3(PartitionTable3D(p), AnchorTable3aD(p), AnchorTable3bD(p)) && Total3(PartitionTable3D(p)) == Mask3D(p)
  {
    match p { case 50 => case _ => }
  }

  lemma Rows3From52(p: nat)
    requires 52 <= p < 54
    ensures Sound3(PartitionTable3D(p), AnchorTable3aD(p), AnchorTable3bD(p)) && Total3(PartitionTable3D(p)) == Mask3D(p)
  {
    match p { case 52 => case _ => }
  }

  lemma Rows3From54(p: nat)
    requires 54 <= p < 56
    ensures Sound3(PartitionTable3D(p), AnchorTable3aD(p), AnchorTable3bD(p)) && Total3(PartitionTable3D(p)) == Mask3D(p)
  {
    match p { case 54 => case _ => }
  }

  lemma Rows3From56(p: nat)
    requires 56 <= p < 58
    ensures Sound3(PartitionTable3D(p), AnchorTable3aD(p), AnchorTable3bD(p)) && Total3(PartitionTable3D(p)) == Mask3D(p)
  {
    match p { case 56 => case _ => }
  }

  lemma Rows3From58(p: nat)
    requires 58 <= p < 60
    ensures Sound3(PartitionTable3D(p), AnchorTable3aD(p), AnchorTable3bD(p)) && Total3(PartitionTable3D(p)) == Mask3D(p)
  {
    match p { case 58 => case _ => }
  }

  lemma Rows3From60(p: nat)
    requires 60 <= p < 62
    ensures Sound3(PartitionTable3D(p), AnchorTable3aD(p), AnchorTable3bD(p)) && Total3(PartitionTable3D(p)) == Mask3D(p)
  {
    match p { case 60 => case _ => }
  }

  lemma Rows3From62(p: nat)
    requires 62 <= p < 64
    ensures Sound3(PartitionTable3D(p), AnchorTable3aD(p), AnchorTable3bD(p)) && Total3(PartitionTable3D(p)) == Mask3D(p)
  {
    match p { case 62 => case _ => }
  }

  lemma Anchors2Row(k: nat)
    requires k < 8
    ensures Total8([AnchorTable2(8 * k), AnchorTable2(8 * k + 1), AnchorTable2(8 * k + 2), AnchorTable2(8 * k + 3), AnchorTable2(8 * k + 4), AnchorTable2(8 * k + 5), AnchorTable2(8 * k + 6), AnchorTable2(8 * k + 7)]) == Anchors2(k)
  {
    match k
    case 0 => case 1 => case 2 => case 3 => case 4 => case 5 => case 6 => case _ =>
  }

  lemma Anchors3aRow(k: nat)
    requires k < 8
    ensures Total8([AnchorTable3a(8 * k), AnchorTable3a(8 * k + 1), AnchorTable3a(8 * k + 2), AnchorTable3a(8 * k + 3), AnchorTable3a(8 * k + 4), AnchorTable3a(8 * k + 5), AnchorTable3a(8 * k + 6), AnchorTable3a(8 * k + 7)]) == Anchors3a(k)
  {
    match k
    case 0 => case 1 => case 2 => case 3 => case 4 => case 5 => case 6 => case _ =>
  }

  lemma Anchors3bRow(k: nat)
    requires k < 8
    ensures Total8([AnchorTable3b(8 * k), AnchorTable3b(8 * k + 1), AnchorTable3b(8 * k + 2), AnchorTable3b(8 * k + 3), AnchorTable3b(8 * k + 4), AnchorTable3b(8 * k + 5), AnchorTable3b(8 * k + 6), AnchorTable3b(8 * k + 7)]) == Anchors3b(k)
  {
    match k
    case 0 => case 1 => case 2 => case 3 => case 4 => case 5 => case 6 => case _ =>
  }

  /** The subset of a texel is a digit of the partition's number. */
  lemma Subset2Is(p: nat, t: nat)
    requires p < 64 && t < 16
    ensures |PartitionTable2(p)| == 16 && PartitionTable2(p)[t] == Low(Shr(Mask2(p), t), 1)
  {
    hide PartitionTable2, AnchorTable2, Mask2, Low, Shr, Total2, Join;
    TableSound2(p);
    Join2(PartitionTable2(p));
    Pow2Values();
    JoinDigit(PartitionTable2(p), 1, t);
  }

  lemma Subset3Is(p: nat, t: nat)
    requires p < 64 && t < 16
    ensures |PartitionTable3(p)| == 16 && PartitionTable3(p)[t] == Low(Shr(Mask3(p), t * 2), 2)
  {
    hide PartitionTable3, AnchorTable3a, AnchorTable3b, Mask3, Low, Shr, Total3, Join;
    TableSound3(p);
    Join3(PartitionTable3(p));
    Pow2Values();
    JoinDigit(PartitionTable3(p), 2, t);
  }

  /** An anchor texel is a digit of its group. */
  lemma Anchors2Is(p: nat)
    requires p < 64
    ensures AnchorTable2(p) == Low(Shr(Anchors2(p / 8), p % 8 * 4), 4)
  {
    hide PartitionTable2, AnchorTable2, Anchors2, Low, Shr, Total8, Join;
    var k := p / 8;
    var s := [AnchorTable2(8 * k), AnchorTable2(8 * k + 1), AnchorTable2(8 * k + 2), AnchorTable2(8 * k + 3), AnchorTable2(8 * k + 4), AnchorTable2(8 * k + 5), AnchorTable2(8 * k + 6), AnchorTable2(8 * k + 7)];
    forall i | 0 <= i < 8
      ensures s[i] == AnchorTable2(8 * k + i) < 16
    {
      TableSound2(8 * k + i);
    }
    Anchors2Row(k);
    Join8(s);
    Pow2Values();
    JoinDigit(s, 4, p % 8);
  }

  lemma Anchors3aIs(p: nat)
    requires p < 64
    ensures AnchorTable3a(p) == Low(Shr(Anchors3a(p / 8), p % 8 * 4), 4)
  {
    hide PartitionTable3, AnchorTable3a, AnchorTable3b, Anchors3a, Low, Shr, Total8, Join;
    var k := p / 8;
    var s := [AnchorTable3a(8 * k), AnchorTable3a(8 * k + 1), AnchorTable3a(8 * k + 2), AnchorTable3a(8 * k + 3), AnchorTable3a(8 * k + 4), AnchorTable3a(8 * k + 5), AnchorTable3a(8 * k + 6), AnchorTable3a(8 * k + 7)];
    forall i | 0 <= i < 8
      ensures s[i] == AnchorTable3a(8 * k + i) < 16
    {
      TableSound3(8 * k + i);
    }
    Anchors3aRow(k);
    Join8(s);
    Pow2Values();
    JoinDigit(s, 4, p % 8);
  }

  lemma Anchors3bIs(p: nat)
    requires p < 64
    ensures AnchorTable3b(p) == Low(Shr(Anchors3b(p / 8), p % 8 * 4), 4)
  {
    hide PartitionTable3, AnchorTable3a, AnchorTable3b, Anchors3b, Low, Shr, Total8, Join;
    var k := p / 8;
    var s := [AnchorTable3b(8 * k), AnchorTable3b(8 * k + 1), AnchorTable3b(8 * k + 2), AnchorTable3b(8 * k + 3), AnchorTable3b(8 * k + 4), AnchorTable3b(8 * k + 5), AnchorTable3b(8 * k + 6), AnchorTable3b(8 * k + 7)];
    forall i | 0 <= i < 8
      ensures s[i] == AnchorTable3b(8 * k + i) < 16
    {
      TableSound3(8 * k + i);
    }
    Anchors3bRow(k);
    Join8(s);
    Pow2Values();
    JoinDigit(s, 4, p % 8);
  }
}
