/** Streams of stored blocks: any bytes can be wrapped in them, and inflating unwraps them. */
module StoredStreams {
  import opened Collections
  import opened Bits
  import opened BitStream
  import opened Deflate
  import opened Inflate

  function Low8(n: int): byte {
    n % 256
  }

  /** A stored block that starts at a byte: header byte, LEN, NLEN and the bytes. */
  function Wrap(final: bool, bytes: seq<byte>): (r: seq<byte>)
    requires |bytes| <= 65535
    ensures |r| == 5 + |bytes|
  {
    var n := |bytes|;
    [if final then 1 else 0, Low8(n), Low8(n / 256), Low8(65535 - n), Low8((65535 - n) / 256)] + bytes
  }

  ghost predicate Chunks(cs: seq<seq<byte>>) {
    forall i :: 0 <= i < |cs| ==> |cs[i]| <= 65535
  }

  function WrapAll(cs: seq<seq<byte>>): seq<byte>
    requires Chunks(cs)
  {
    if cs == [] then [] else WrapAll(cs[..|cs| - 1]) + Wrap(false, cs[|cs| - 1])
  }

  function Concat(cs: seq<seq<byte>>): seq<byte> {
    if cs == [] then [] else Concat(cs[..|cs| - 1]) + cs[|cs| - 1]
  }

  ghost function Blocks(cs: seq<seq<byte>>): seq<Block> {
    seq(|cs|, i requires 0 <= i < |cs| => Stored(cs[i]))
  }

  lemma HeaderFields(data: seq<byte>, s: nat, final: bool)
    requires s < |data| && data[s] == if final then 1 else 0
    ensures Field(data, 8 * s, 1) == (if final then 1 else 0) && Field(data, 8 * s + 1, 2) == 0
  {
    var v: nat := data[s];
    assert BitAt(data, 8 * s) == Bit(v, 0) && BitAt(data, 8 * s + 1) == Bit(v, 1) && BitAt(data, 8 * s + 2) == Bit(v, 2) by {
      assert (8 * s + 1) / 8 == s && (8 * s + 1) % 8 == 1 && (8 * s + 2) / 8 == s && (8 * s + 2) % 8 == 2;
    }
    hide BitAt;
    assert Bit(v, 0) == v && Bit(v, 1) == 0 && Bit(v, 2) == 0;
    assert Field(data, 8 * s, 1) == BitAt(data, 8 * s) + 2 * Field(data, 8 * s + 1, 0);
    assert Field(data, 8 * s + 1, 2) == BitAt(data, 8 * s + 1) + 2 * Field(data, 8 * s + 2, 1);
    assert Field(data, 8 * s + 2, 1) == BitAt(data, 8 * s + 2) + 2 * Field(data, 8 * s + 3, 0);
  }

  lemma LengthBytes(n: nat)
    requires n <= 65535
    ensures Low8(n) + 256 * Low8(n / 256) == n
  {
  }

  /** A wrapped block stands where its bytes do. */
  lemma WrapAt(data: seq<byte>, s: nat, final: bool, bytes: seq<byte>)
    requires |bytes| <= 65535 && s + 5 + |bytes| <= |data| && data[s..s + 5 + |bytes|] == Wrap(final, bytes)
    ensures Stored(bytes).At(data, 8 * s, final) && Stored(bytes).End(data, 8 * s) == 8 * (s + 5 + |bytes|)
  {
    hide Field;
    var n := |bytes|;
    var w := data[s..s + 5 + n];
    assert data[s] == w[0] && data[s + 1] == w[1] && data[s + 2] == w[2] && data[s + 3] == w[3] && data[s + 4] == w[4];
    HeaderFields(data, s, final);
    LengthBytes(n);
    LengthBytes(65535 - n);
    assert (8 * s + 10) / 8 == s + 1;
    assert data[s + 5..s + 5 + n] == w[5..5 + n] == bytes;
  }

  /** Wrapped chunks are blocks one after the other, and denote the chunks' concatenation. */
  lemma {:induction false} WrapAllAt(data: seq<byte>, s: nat, cs: seq<seq<byte>>)
    requires Chunks(cs) && s + |WrapAll(cs)| <= |data| && data[s..s + |WrapAll(cs)|] == WrapAll(cs)
    ensures BlocksAt(data, 8 * s, Blocks(cs)) && BlocksEnd(data, 8 * s, Blocks(cs)) == 8 * (s + |WrapAll(cs)|)
    ensures Denotes(Blocks(cs)) == Some(Concat(cs))
  {
    hide Block.At, Block.End, Wrap;
    if cs != [] {
      var n := |cs| - 1;
      var before, last := WrapAll(cs[..n]), Wrap(false, cs[n]);
      assert WrapAll(cs) == before + last;
      var all := data[s..s + |WrapAll(cs)|];
      assert data[s..s + |before|] == all[..|before|] == before;
      assert data[s + |before|..s + |before| + |last|] == all[|before|..] == last;
      WrapAllAt(data, s, cs[..n]);
      WrapAt(data, s + |before|, false, cs[n]);
      assert Blocks(cs)[..n] == Blocks(cs[..n]);
    }
  }

  /** Any bytes, cut anywhere, wrapped and placed anywhere, inflate to themselves. */
  lemma WrappedInflates(pre: seq<byte>, cs: seq<seq<byte>>, last: seq<byte>, post: seq<byte>)
    requires Chunks(cs) && |last| <= 65535
    ensures var coded := WrapAll(cs) + Wrap(true, last);
            Inflates(pre + coded + post, 8 * |pre|, Concat(cs) + last, 8 * (|pre| + |coded|))
  {
    hide Block.At, Block.End, Wrap, WrapAll;
    var a, b := WrapAll(cs), Wrap(true, last);
    var data := pre + (a + b) + post;
    var s := |pre|;
    assert data[s..s + |a|] == a;
    assert data[s + |a|..s + |a| + |b|] == b;
    WrapAllAt(data, s, cs);
    WrapAt(data, s + |a|, true, last);
    var bs := Blocks(cs) + [Stored(last)];
    assert bs[..|bs| - 1] == Blocks(cs);
    assert StreamAt(data, 8 * s, bs) && Denotes(bs) == Some(Concat(cs) + last);
    assert BlocksEnd(data, 8 * s, bs) == 8 * (s + |a + b|);
  }

  lemma ZlibHeader(rest: seq<byte>)
    requires rest != []
    ensures HeaderOk([0x78, 0x01] + rest)
  {
    var data := [0x78, 0x01] + rest;
    assert data[0] == 0x78 && data[1] == 0x01;
    assert Low(0x78, 4) == 8 && Bit(0x01, 5) == 0;
  }

  /** The decoder gives back any bytes wrapped in a zlib stream of stored blocks, whatever the checksum says. */
  method Unwrap(cs: seq<seq<byte>>, last: seq<byte>, checksum: seq<byte>, initial_size: nat) returns (r: Option<seq<byte>>)
    requires Chunks(cs) && |last| <= 65535 && |checksum| == 4 && 0 < initial_size <= INT_MAX
    requires |Concat(cs) + last| <= 0x8000_0000
    ensures r == Some(Concat(cs) + last)
  {
    hide HeaderOk, Inflates, Wrap, WrapAll;
    var coded := WrapAll(cs) + Wrap(true, last);
    var input := [0x78, 0x01] + coded + checksum;
    ZlibHeader(coded + checksum);
    assert input == [0x78, 0x01] + (coded + checksum);
    WrappedInflates([0x78, 0x01], cs, last, checksum);
    assert Inflates(input, Start(true), Concat(cs) + last, 8 * (2 + |coded|));
    r := DecodeMalloc(input, initial_size, true);
    if r.Some? {
      ghost var end: nat :| Inflates(input, 16, r.value, end);
      InflatesUnique(input, 16, r.value, Concat(cs) + last, end, 8 * (2 + |coded|));
    }
  }
}
