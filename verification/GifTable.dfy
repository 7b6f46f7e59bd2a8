/** The string table of stbi__process_gif_raster: linked prefixes, and the dictionary they stand for. */
module GifTable {
  import opened Bits
  import opened GifSpec

  /** stbi__gif_lzw */
  datatype Lzw = Lzw(prefix: int, first: byte, suffix: byte)

  /** The string of code c: its prefix chain read from the far end, then its own suffix. */
  ghost function Expansion(codes: seq<Lzw>, c: nat): (s: seq<byte>)
    requires c < |codes|
    ensures s != []
  {
    var e := codes[c];
    if 0 <= e.prefix < c then Expansion(codes, e.prefix) + [e.suffix] else [e.suffix]
  }

  predicate Special(cs: nat, c: int) { c == Pow2(cs) || c == Pow2(cs) + 1 }

  /** A live entry: its prefix is older and no control code, and it spells its dictionary string. */
  ghost predicate Entry(cs: nat, codes: seq<Lzw>, c: nat, s: seq<byte>)
    requires c < |codes|
  {
    && -1 <= codes[c].prefix < c && !Special(cs, codes[c].prefix)
    && Expansion(codes, c) == s
    && codes[c].first == Expansion(codes, c)[0]
  }

  /** The first |dict| codes are live, the two control codes aside. */
  ghost predicate TableOf(cs: nat, codes: seq<Lzw>, dict: seq<seq<byte>>) {
    && |dict| <= |codes| == TABLE_SIZE
    && forall c :: 0 <= c < |dict| && !Special(cs, c) ==> Entry(cs, codes, c, dict[c])
  }

  lemma {:induction false} ExpansionFrame(a: seq<Lzw>, b: seq<Lzw>, c: nat)
    requires c < |a| && c < |b|
    requires forall i :: 0 <= i <= c ==> a[i] == b[i]
    ensures Expansion(a, c) == Expansion(b, c)
  {
    if 0 <= a[c].prefix < c {
      ExpansionFrame(a, b, a[c].prefix);
    }
  }

  /** Writing an entry behind the live ones changes none of them. */
  lemma TableFrame(cs: nat, a: seq<Lzw>, b: seq<Lzw>, dict: seq<seq<byte>>)
    requires TableOf(cs, a, dict) && |b| == TABLE_SIZE
    requires forall i :: 0 <= i < |dict| ==> a[i] == b[i]
    ensures TableOf(cs, b, dict)
  {
    forall c | 0 <= c < |dict| && !Special(cs, c)
      ensures Entry(cs, b, c, dict[c])
    {
      assert Entry(cs, a, c, dict[c]);
      ExpansionFrame(a, b, c);
    }
  }

  /** The initial table spells the initial dictionary. */
  lemma InitialTable(cs: nat, codes: seq<Lzw>, started: bool)
    requires |codes| == TABLE_SIZE && Pow2(cs) + 2 <= TABLE_SIZE
    requires forall c :: 0 <= c < Pow2(cs) ==> codes[c] == Lzw(-1, c % 256, c % 256)
    ensures TableOf(cs, codes, Initial(cs, started).dict)
  {
    var dict := Initial(cs, started).dict;
    forall c | 0 <= c < |dict| && !Special(cs, c)
      ensures Entry(cs, codes, c, dict[c])
    {
      NotSpecialMinusOne(cs);
      assert Expansion(codes, c) == [codes[c].suffix];
    }
  }

  lemma NotSpecialMinusOne(cs: nat)
    ensures !Special(cs, -1)
  {
  }

  /**
   * The entry for `prev` and `code`: the string of `prev` and the first byte of the string of `code`,
   * also when `code` is the entry being made.
   */
  lemma NewEntry(cs: nat, codes: seq<Lzw>, dict: seq<seq<byte>>, prev: nat, code: nat, b: seq<Lzw>)
    requires TableOf(cs, codes, dict) && |dict| < TABLE_SIZE
    requires prev < |dict| && !Special(cs, prev) && !Special(cs, |dict|)
    requires code <= |dict| && !Special(cs, code)
    requires var first := codes[prev].first;
             b == codes[|dict| := Lzw(prev, first, if code == |dict| then first else codes[code].first)]
    ensures dict[prev] != [] && (code < |dict| ==> dict[code] != [])
    ensures var s := dict[prev] + [if code == |dict| then dict[prev][0] else dict[code][0]];
            TableOf(cs, b, dict + [s])
  {
    var n := |dict|;
    TableFrame(cs, codes, b, dict);
    assert Entry(cs, codes, prev, dict[prev]) && Entry(cs, b, prev, dict[prev]);
    if code < n {
      assert Entry(cs, codes, code, dict[code]);
    }
    var s := dict[prev] + [if code == n then dict[prev][0] else dict[code][0]];
    assert Expansion(b, n) == Expansion(b, prev) + [b[n].suffix] == s;
    forall c | 0 <= c < |dict + [s]| && !Special(cs, c)
      ensures Entry(cs, b, c, (dict + [s])[c])
    {
      if c < n {
        assert Entry(cs, b, c, dict[c]);
      }
    }
  }
}
