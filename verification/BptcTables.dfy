/** The partition and anchor tables of ARB_texture_compression_bptc, as the decoders hold them. */
module BptcTables {

  /** The subset of each texel when there are two subsets. */
  function PartitionTable2(p: nat): seq<nat> {
    if p < 16 then PartitionTable2A(p) else if p < 32 then PartitionTable2B(p) else if p < 48 then PartitionTable2C(p) else PartitionTable2D(p)
  }

  function PartitionTable2A(p: nat): seq<nat> {
    match p
    case 0 => [0, 0, 1, 1, 0, 0, 1, 1, 0, 0, 1, 1, 0, 0, 1, 1]
    case 1 => [0, 0, 0, 1, 0, 0, 0, 1, 0, 0, 0, 1, 0, 0, 0, 1]
    case 2 => [0, 1, 1, 1, 0, 1, 1, 1, 0, 1, 1, 1, 0, 1, 1, 1]
    case 3 => [0, 0, 0, 1, 0, 0, 1, 1, 0, 0, 1, 1, 0, 1, 1, 1]
    case 4 => [0, 0, 0, 0, 0, 0, 0, 1, 0, 0, 0, 1, 0, 0, 1, 1]
    case 5 => [0, 0, 1, 1, 0, 1, 1, 1, 0, 1, 1, 1, 1, 1, 1, 1]
    case 6 => [0, 0, 0, 1, 0, 0, 1, 1, 0, 1, 1, 1, 1, 1, 1, 1]
    case 7 => [0, 0, 0, 0, 0, 0, 0, 1, 0, 0, 1, 1, 0, 1, 1, 1]
    case 8 => [0, 0, 0, 0, 0, 0, 0, 0, 0, 0, 0, 1, 0, 0, 1, 1]
    case 9 => [0, 0, 1, 1, 0, 1, 1, 1, 1, 1, 1, 1, 1, 1, 1, 1]
    case 10 => [0, 0, 0, 0, 0, 0, 0, 1, 0, 1, 1, 1, 1, 1, 1, 1]
    case 11 => [0, 0, 0, 0, 0, 0, 0, 0, 0, 0, 0, 1, 0, 1, 1, 1]
    case 12 => [0, 0, 0, 1, 0, 1, 1, 1, 1, 1, 1, 1, 1, 1, 1, 1]
    case 13 => [0, 0, 0, 0, 0, 0, 0, 0, 1, 1, 1, 1, 1, 1, 1, 1]
    case 14 => [0, 0, 0, 0, 1, 1, 1, 1, 1, 1, 1, 1, 1, 1, 1, 1]
    case _ => [0, 0, 0, 0, 0, 0, 0, 0, 0, 0, 0, 0, 1, 1, 1, 1]
  }

  function PartitionTable2B(p: nat): seq<nat> {
    match p
    case 16 => [0, 0, 0, 0, 1, 0, 0, 0, 1, 1, 1, 0, 1, 1, 1, 1]
    case 17 => [0, 1, 1, 1, 0, 0, 0, 1, 0, 0, 0, 0, 0, 0, 0, 0]
    case 18 => [0, 0, 0, 0, 0, 0, 0, 0, 1, 0, 0, 0, 1, 1, 1, 0]
    case 19 => [0, 1, 1, 1, 0, 0, 1, 1, 0, 0, 0, 1, 0, 0, 0, 0]
    case 20 => [0, 0, 1, 1, 0, 0, 0, 1, 0, 0, 0, 0, 0, 0, 0, 0]
    case 21 => [0, 0, 0, 0, 1, 0, 0, 0, 1, 1, 0, 0, 1, 1, 1, 0]
    case 22 => [0, 0, 0, 0, 0, 0, 0, 0, 1, 0, 0, 0, 1, 1, 0, 0]
    case 23 => [0, 1, 1, 1, 0, 0, 1, 1, 0, 0, 1, 1, 0, 0, 0, 1]
    case 24 => [0, 0, 1, 1, 0, 0, 0, 1, 0, 0, 0, 1, 0, 0, 0, 0]
    case 25 => [0, 0, 0, 0, 1, 0, 0, 0, 1, 0, 0, 0, 1, 1, 0, 0]
    case 26 => [0, 1, 1, 0, 0, 1, 1, 0, 0, 1, 1, 0, 0, 1, 1, 0]
    case 27 => [0, 0, 1, 1, 0, 1, 1, 0, 0, 1, 1, 0, 1, 1, 0, 0]
    case 28 => [0, 0, 0, 1, 0, 1, 1, 1, 1, 1, 1, 0, 1, 0, 0, 0]
    case 29 => [0, 0, 0, 0, 1, 1, 1, 1, 1, 1, 1, 1, 0, 0, 0, 0]
    case 30 => [0, 1, 1, 1, 0, 0, 0, 1, 1, 0, 0, 0, 1, 1, 1, 0]
    case _ => [0, 0, 1, 1, 1, 0, 0, 1, 1, 0, 0, 1, 1, 1, 0, 0]
  }

  function PartitionTable2C(p: nat): seq<nat> {
    match p
    case 32 => [0, 1, 0, 1, 0, 1, 0, 1, 0, 1, 0, 1, 0, 1, 0, 1]
    case 33 => [0, 0, 0, 0, 1, 1, 1, 1, 0, 0, 0, 0, 1, 1, 1, 1]
    case 34 => [0, 1, 0, 1, 1, 0, 1, 0, 0, 1, 0, 1, 1, 0, 1, 0]
    case 35 => [0, 0, 1, 1, 0, 0, 1, 1, 1, 1, 0, 0, 1, 1, 0, 0]
    case 36 => [0, 0, 1, 1, 1, 1, 0, 0, 0, 0, 1, 1, 1, 1, 0, 0]
    case 37 => [0, 1, 0, 1, 0, 1, 0, 1, 1, 0, 1, 0, 1, 0, 1, 0]
    case 38 => [0, 1, 1, 0, 1, 0, 0, 1, 0, 1, 1, 0, 1, 0, 0, 1]
    case 39 => [0, 1, 0, 1, 1, 0, 1, 0, 1, 0, 1, 0, 0, 1, 0, 1]
    case 40 => [0, 1, 1, 1, 0, 0, 1, 1, 1, 1, 0, 0, 1, 1, 1, 0]
    case 41 => [0, 0, 0, 1, 0, 0, 1, 1, 1, 1, 0, 0, 1, 0, 0, 0]
    case 42 => [0, 0, 1, 1, 0, 0, 1, 0, 0, 1, 0, 0, 1, 1, 0, 0]
    case 43 => [0, 0, 1, 1, 1, 0, 1, 1, 1, 1, 0, 1, 1, 1, 0, 0]
    case 44 => [0, 1, 1, 0, 1, 0, 0, 1, 1, 0, 0, 1, 0, 1, 1, 0]
    case 45 => [0, 0, 1, 1, 1, 1, 0, 0, 1, 1, 0, 0, 0, 0, 1, 1]
    case 46 => [0, 1, 1, 0, 0, 1, 1, 0, 1, 0, 0, 1, 1, 0, 0, 1]
    case _ => [0, 0, 0, 0, 0, 1, 1, 0, 0, 1, 1, 0, 0, 0, 0, 0]
  }

  function PartitionTable2D(p: nat): seq<nat> {
    match p
    case 48 => [0, 1, 0, 0, 1, 1, 1, 0, 0, 1, 0, 0, 0, 0, 0, 0]
    case 49 => [0, 0, 1, 0, 0, 1, 1, 1, 0, 0, 1, 0, 0, 0, 0, 0]
    case 50 => [0, 0, 0, 0, 0, 0, 1, 0, 0, 1, 1, 1, 0, 0, 1, 0]
    case 51 => [0, 0, 0, 0, 0, 1, 0, 0, 1, 1, 1, 0, 0, 1, 0, 0]
    case 52 => [0, 1, 1, 0, 1, 1, 0, 0, 1, 0, 0, 1, 0, 0, 1, 1]
    case 53 => [0, 0, 1, 1, 0, 1, 1, 0, 1, 1, 0, 0, 1, 0, 0, 1]
    case 54 => [0, 1, 1, 0, 0, 0, 1, 1, 1, 0, 0, 1, 1, 1, 0, 0]
    case 55 => [0, 0, 1, 1, 1, 0, 0, 1, 1, 1, 0, 0, 0, 1, 1, 0]
    case 56 => [0, 1, 1, 0, 1, 1, 0, 0, 1, 1, 0, 0, 1, 0, 0, 1]
    case 57 => [0, 1, 1, 0, 0, 0, 1, 1, 0, 0, 1, 1, 1, 0, 0, 1]
    case 58 => [0, 1, 1, 1, 1, 1, 1, 0, 1, 0, 0, 0, 0, 0, 0, 1]
    case 59 => [0, 0, 0, 1, 1, 0, 0, 0, 1, 1, 1, 0, 0, 1, 1, 1]
    case 60 => [0, 0, 0, 0, 1, 1, 1, 1, 0, 0, 1, 1, 0, 0, 1, 1]
    case 61 => [0, 0, 1, 1, 0, 0, 1, 1, 1, 1, 1, 1, 0, 0, 0, 0]
    case 62 => [0, 0, 1, 0, 0, 0, 1, 0, 1, 1, 1, 0, 1, 1, 1, 0]
    case _ => [0, 1, 0, 0, 0, 1, 0, 0, 0, 1, 1, 1, 0, 1, 1, 1]
  }

  /** The subset of each texel when there are three subsets. */
  function PartitionTable3(p: nat): seq<nat> {
    if p < 16 then PartitionTable3A(p) else if p < 32 then PartitionTable3B(p) else if p < 48 then PartitionTable3C(p) else PartitionTable3D(p)
  }

  function PartitionTable3A(p: nat): seq<nat> {
    match p
    case 0 => [0, 0, 1, 1, 0, 0, 1, 1, 0, 2, 2, 1, 2, 2, 2, 2]
    case 1 => [0, 0, 0, 1, 0, 0, 1, 1, 2, 2, 1, 1, 2, 2, 2, 1]
    case 2 => [0, 0, 0, 0, 2, 0, 0, 1, 2, 2, 1, 1, 2, 2, 1, 1]
    case 3 => [0, 2, 2, 2, 0, 0, 2, 2, 0, 0, 1, 1, 0, 1, 1, 1]
    case 4 => [0, 0, 0, 0, 0, 0, 0, 0, 1, 1, 2, 2, 1, 1, 2, 2]
    case 5 => [0, 0, 1, 1, 0, 0, 1, 1, 0, 0, 2, 2, 0, 0, 2, 2]
    case 6 => [0, 0, 2, 2, 0, 0, 2, 2, 1, 1, 1, 1, 1, 1, 1, 1]
    case 7 => [0, 0, 1, 1, 0, 0, 1, 1, 2, 2, 1, 1, 2, 2, 1, 1]
    case 8 => [0, 0, 0, 0, 0, 0, 0, 0, 1, 1, 1, 1, 2, 2, 2, 2]
    case 9 => [0, 0, 0, 0, 1, 1, 1, 1, 1, 1, 1, 1, 2, 2, 2, 2]
    case 10 => [0, 0, 0, 0, 1, 1, 1, 1, 2, 2, 2, 2, 2, 2, 2, 2]
    case 11 => [0, 0, 1, 2, 0, 0, 1, 2, 0, 0, 1, 2, 0, 0, 1, 2]
    case 12 => [0, 1, 1, 2, 0, 1, 1, 2, 0, 1, 1, 2, 0, 1, 1, 2]
    case 13 => [0, 1, 2, 2, 0, 1, 2, 2, 0, 1, 2, 2, 0, 1, 2, 2]
    case 14 => [0, 0, 1, 1, 0, 1, 1, 2, 1, 1, 2, 2, 1, 2, 2, 2]
    case _ => [0, 0, 1, 1, 2, 0, 0, 1, 2, 2, 0, 0, 2, 2, 2, 0]
  }

  function PartitionTable3B(p: nat): seq<nat> {
    match p
    case 16 => [0, 0, 0, 1, 0, 0, 1, 1, 0, 1, 1, 2, 1, 1, 2, 2]
    case 17 => [0, 1, 1, 1, 0, 0, 1, 1, 2, 0, 0, 1, 2, 2, 0, 0]
    case 18 => [0, 0, 0, 0, 1, 1, 2, 2, 1, 1, 2, 2, 1, 1, 2, 2]
    case 19 => [0, 0, 2, 2, 0, 0, 2, 2, 0, 0, 2, 2, 1, 1, 1, 1]
    case 20 => [0, 1, 1, 1, 0, 1, 1, 1, 0, 2, 2, 2, 0, 2, 2, 2]
    case 21 => [0, 0, 0, 1, 0, 0, 0, 1, 2, 2, 2, 1, 2, 2, 2, 1]
    case 22 => [0, 0, 0, 0, 0, 0, 1, 1, 0, 1, 2, 2, 0, 1, 2, 2]
    case 23 => [0, 0, 0, 0, 1, 1, 0, 0, 2, 2, 1, 0, 2, 2, 1, 0]
    case 24 => [0, 1, 2, 2, 0, 1, 2, 2, 0, 0, 1, 1, 0, 0, 0, 0]
    case 25 => [0, 0, 1, 2, 0, 0, 1, 2, 1, 1, 2, 2, 2, 2, 2, 2]
    case 26 => [0, 1, 1, 0, 1, 2, 2, 1, 1, 2, 2, 1, 0, 1, 1, 0]
    case 27 => [0, 0, 0, 0, 0, 1, 1, 0, 1, 2, 2, 1, 1, 2, 2, 1]
    case 28 => [0, 0, 2, 2, 1, 1, 0, 2, 1, 1, 0, 2, 0, 0, 2, 2]
    case 29 => [0, 1, 1, 0, 0, 1, 1, 0, 2, 0, 0, 2, 2, 2, 2, 2]
    case 30 => [0, 0, 1, 1, 0, 1, 2, 2, 0, 1, 2, 2, 0, 0, 1, 1]
    case _ => [0, 0, 0, 0, 2, 0, 0, 0, 2, 2, 1, 1, 2, 2, 2, 1]
  }

  function PartitionTable3C(p: nat): seq<nat> {
    match p
    case 32 => [0, 0, 0, 0, 0, 0, 0, 2, 1, 1, 2, 2, 1, 2, 2, 2]
    case 33 => [0, 2, 2, 2, 0, 0, 2, 2, 0, 0, 1, 2, 0, 0, 1, 1]
    case 34 => [0, 0, 1, 1, 0, 0, 1, 2, 0, 0, 2, 2, 0, 2, 2, 2]
    case 35 => [0, 1, 2, 0, 0, 1, 2, 0, 0, 1, 2, 0, 0, 1, 2, 0]
    case 36 => [0, 0, 0, 0, 1, 1, 1, 1, 2, 2, 2, 2, 0, 0, 0, 0]
    case 37 => [0, 1, 2, 0, 1, 2, 0, 1, 2, 0, 1, 2, 0, 1, 2, 0]
    case 38 => [0, 1, 2, 0, 2, 0, 1, 2, 1, 2, 0, 1, 0, 1, 2, 0]
    case 39 => [0, 0, 1, 1, 2, 2, 0, 0, 1, 1, 2, 2, 0, 0, 1, 1]
    case 40 => [0, 0, 1, 1, 1, 1, 2, 2, 2, 2, 0, 0, 0, 0, 1, 1]
    case 41 => [0, 1, 0, 1, 0, 1, 0, 1, 2, 2, 2, 2, 2, 2, 2, 2]
    case 42 => [0, 0, 0, 0, 0, 0, 0, 0, 2, 1, 2, 1, 2, 1, 2, 1]
    case 43 => [0, 0, 2, 2, 1, 1, 2, 2, 0, 0, 2, 2, 1, 1, 2, 2]
    case 44 => [0, 0, 2, 2, 0, 0, 1, 1, 0, 0, 2, 2, 0, 0, 1, 1]
    case 45 => [0, 2, 2, 0, 1, 2, 2, 1, 0, 2, 2, 0, 1, 2, 2, 1]
    case 46 => [0, 1, 0, 1, 2, 2, 2, 2, 2, 2, 2, 2, 0, 1, 0, 1]
    case _ => [0, 0, 0, 0, 2, 1, 2, 1, 2, 1, 2, 1, 2, 1, 2, 1]
  }

  function PartitionTable3D(p: nat): seq<nat> {
    match p
    case 48 => [0, 1, 0, 1, 0, 1, 0, 1, 0, 1, 0, 1, 2, 2, 2, 2]
    case 49 => [0, 2, 2, 2, 0, 1, 1, 1, 0, 2, 2, 2, 0, 1, 1, 1]
    case 50 => [0, 0, 0, 2, 1, 1, 1, 2, 0, 0, 0, 2, 1, 1, 1, 2]
    case 51 => [0, 0, 0, 0, 2, 1, 1, 2, 2, 1, 1, 2, 2, 1, 1, 2]
    case 52 => [0, 2, 2, 2, 0, 1, 1, 1, 0, 1, 1, 1, 0, 2, 2, 2]
    case 53 => [0, 0, 0, 2, 1, 1, 1, 2, 1, 1, 1, 2, 0, 0, 0, 2]
    case 54 => [0, 1, 1, 0, 0, 1, 1, 0, 0, 1, 1, 0, 2, 2, 2, 2]
    case 55 => [0, 0, 0, 0, 0, 0, 0, 0, 2, 1, 1, 2, 2, 1, 1, 2]
    case 56 => [0, 1, 1, 0, 0, 1, 1, 0, 2, 2, 2, 2, 2, 2, 2, 2]
    case 57 => [0, 0, 2, 2, 0, 0, 1, 1, 0, 0, 1, 1, 0, 0, 2, 2]
    case 58 => [0, 0, 2, 2, 1, 1, 2, 2, 1, 1, 2, 2, 0, 0, 2, 2]
    case 59 => [0, 0, 0, 0, 0, 0, 0, 0, 0, 0, 0, 0, 2, 1, 1, 2]
    case 60 => [0, 0, 0, 2, 0, 0, 0, 1, 0, 0, 0, 2, 0, 0, 0, 1]
    case 61 => [0, 2, 2, 2, 1, 2, 2, 2, 0, 2, 2, 2, 1, 2, 2, 2]
    case 62 => [0, 1, 0, 1, 2, 2, 2, 2, 2, 2, 2, 2, 2, 2, 2, 2]
    case _ => [0, 1, 1, 1, 2, 0, 1, 1, 2, 2, 0, 1, 2, 2, 2, 0]
  }

  /** The anchor texel of subset 1 of two. */
  function AnchorTable2(p: nat): nat {
    if p < 16 then AnchorTable2A(p) else if p < 32 then AnchorTable2B(p) else if p < 48 then AnchorTable2C(p) else AnchorTable2D(p)
  }

  function AnchorTable2A(p: nat): nat {
    match p
    case 0 => 15 case 1 => 15 case 2 => 15 case 3 => 15 case 4 => 15 case 5 => 15 case 6 => 15 case 7 => 15
    case 8 => 15 case 9 => 15 case 10 => 15 case 11 => 15 case 12 => 15 case 13 => 15 case 14 => 15 case _ => 15
  }

  function AnchorTable2B(p: nat): nat {
    match p
    case 16 => 15 case 17 => 2 case 18 => 8 case 19 => 2 case 20 => 2 case 21 => 8 case 22 => 8 case 23 => 15
    case 24 => 2 case 25 => 8 case 26 => 2 case 27 => 2 case 28 => 8 case 29 => 8 case 30 => 2 case _ => 2
  }

  function AnchorTable2C(p: nat): nat {
    match p
    case 32 => 15 case 33 => 15 case 34 => 6 case 35 => 8 case 36 => 2 case 37 => 8 case 38 => 15 case 39 => 15
    case 40 => 2 case 41 => 8 case 42 => 2 case 43 => 2 case 44 => 2 case 45 => 15 case 46 => 15 case _ => 6
  }

  function AnchorTable2D(p: nat): nat {
    match p
    case 48 => 6 case 49 => 2 case 50 => 6 case 51 => 8 case 52 => 15 case 53 => 15 case 54 => 2 case 55 => 2
    case 56 => 15 case 57 => 15 case 58 => 15 case 59 => 15 case 60 => 15 case 61 => 2 case 62 => 2 case _ => 15
  }

  /** The anchor texel of subset 1 of three. */
  function AnchorTable3a(p: nat): nat {
    if p < 16 then AnchorTable3aA(p) else if p < 32 then AnchorTable3aB(p) else if p < 48 then AnchorTable3aC(p) else AnchorTable3aD(p)
  }

  function AnchorTable3aA(p: nat): nat {
    match p
    case 0 => 3 case 1 => 3 case 2 => 15 case 3 => 15 case 4 => 8 case 5 => 3 case 6 => 15 case 7 => 15
    case 8 => 8 case 9 => 8 case 10 => 6 case 11 => 6 case 12 => 6 case 13 => 5 case 14 => 3 case _ => 3
  }

  function AnchorTable3aB(p: nat): nat {
    match p
    case 16 => 3 case 17 => 3 case 18 => 8 case 19 => 15 case 20 => 3 case 21 => 3 case 22 => 6 case 23 => 10
    case 24 => 5 case 25 => 8 case 26 => 8 case 27 => 6 case 28 => 8 case 29 => 5 case 30 => 15 case _ => 15
  }

  function AnchorTable3aC(p: nat): nat {
    match p
    case 32 => 8 case 33 => 15 case 34 => 3 case 35 => 5 case 36 => 6 case 37 => 10 case 38 => 8 case 39 => 15
    case 40 => 15 case 41 => 3 case 42 => 15 case 43 => 5 case 44 => 15 case 45 => 15 case 46 => 15 case _ => 15
  }

  function AnchorTable3aD(p: nat): nat {
    match p
    case 48 => 3 case 49 => 15 case 50 => 5 case 51 => 5 case 52 => 5 case 53 => 8 case 54 => 5 case 55 => 10
    case 56 => 5 case 57 => 10 case 58 => 8 case 59 => 13 case 60 => 15 case 61 => 12 case 62 => 3 case _ => 3
  }

  /** The anchor texel of subset 2 of three. */
  function AnchorTable3b(p: nat): nat {
    if p < 16 then AnchorTable3bA(p) else if p < 32 then AnchorTable3bB(p) else if p < 48 then AnchorTable3bC(p) else AnchorTable3bD(p)
  }

  function AnchorTable3bA(p: nat): nat {
    match p
    case 0 => 15 case 1 => 8 case 2 => 8 case 3 => 3 case 4 => 15 case 5 => 15 case 6 => 3 case 7 => 8
    case 8 => 15 case 9 => 15 case 10 => 15 case 11 => 15 case 12 => 15 case 13 => 15 case 14 => 15 case _ => 8
  }

  function AnchorTable3bB(p: nat): nat {
    match p
    case 16 => 15 case 17 => 8 case 18 => 15 case 19 => 3 case 20 => 15 case 21 => 8 case 22 => 15 case 23 => 8
    case 24 => 3 case 25 => 15 case 26 => 6 case 27 => 10 case 28 => 15 case 29 => 15 case 30 => 10 case _ => 8
  }

  function AnchorTable3bC(p: nat): nat {
    match p
    case 32 => 15 case 33 => 3 case 34 => 15 case 35 => 10 case 36 => 10 case 37 => 8 case 38 => 9 case 39 => 10
    case 40 => 6 case 41 => 15 case 42 => 8 case 43 => 15 case 44 => 3 case 45 => 6 case 46 => 6 case _ => 8
  }

  function AnchorTable3bD(p: nat): nat {
    match p
    case 48 => 15 case 49 => 3 case 50 => 15 case 51 => 15 case 52 => 15 case 53 => 15 case 54 => 15 case 55 => 15
    case 56 => 15 case 57 => 15 case 58 => 15 case 59 => 15 case 60 => 3 case 61 => 15 case 62 => 15 case _ => 8
  }
}
