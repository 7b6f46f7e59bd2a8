/**
 * The DEFLATE format of RFC 1951 as a grammar over bit positions: what it means for a list of blocks
 * to stand at a position of the stream, and which bytes those blocks denote. Nothing here decodes;
 * the grammar is shown to be unambiguous, so that a stream denotes at most one output.
 */
module Deflate {
  import opened Collections
  import opened Bits
  import opened BitStream
  import opened Canonical

  // ----- symbols

  /** The code of `sym` under the code lengths `lens` stands at position p. */
  ghost predicate SymbolAt(data: seq<byte>, lens: seq<nat>, p: nat, sym: nat) {
    && sym < |lens|
    && 0 < lens[sym] <= MAX_LENGTH
    && CodeBits(data, p, lens[sym]) == CodeOf(lens, sym)
  }

  lemma SymbolIsPrefix(data: seq<byte>, lens: seq<nat>, p: nat, sym: nat)
    ensures SymbolAt(data, lens, p, sym) <==> IsPrefix(lens, sym, CodeBits(data, p, 16))
  {
    if sym < |lens| && 0 < lens[sym] <= MAX_LENGTH {
      CodeBitsPrefix(data, p, lens[sym], 16 - lens[sym]);
    }
  }

  lemma SymbolUnique(data: seq<byte>, lens: seq<nat>, p: nat, a: nat, b: nat)
    requires SymbolAt(data, lens, p, a) && SymbolAt(data, lens, p, b)
    ensures a == b
  {
    SymbolIsPrefix(data, lens, p, a);
    SymbolIsPrefix(data, lens, p, b);
    PrefixUnique(lens, a, b, CodeBits(data, p, 16));
  }

  ghost function Symbol(data: seq<byte>, lens: seq<nat>, p: nat): (r: Option<nat>)
    ensures r.Some? ==> SymbolAt(data, lens, p, r.value)
    ensures r.None? ==> forall sym: nat :: !SymbolAt(data, lens, p, sym)
  {
    if sym: nat :| SymbolAt(data, lens, p, sym) then Some(sym) else None
  }

  // ----- literals and copies

  const END_OF_BLOCK: nat := 256

  /** The table of section 3.2.5 for length symbols 257 + i: groups of four with one more extra bit each. */
  function LengthExtra(i: nat): nat {
    if i < 8 || i == 28 then 0 else (i - 4) / 4
  }

  function LengthBase(i: nat): nat {
    if i < 8 then 3 + i else if i == 28 then 258 else 3 + Shl(4 + i % 4, (i - 4) / 4)
  }

  /** The table for distance symbols: pairs with one more extra bit each. */
  function DistExtra(i: nat): nat {
    if i < 4 then 0 else (i - 2) / 2
  }

  function DistBase(i: nat): nat {
    if i < 4 then 1 + i else 1 + Shl(2 + i % 2, (i - 2) / 2)
  }

  /** A copy keeps its symbols and extra bits, so that its encoding is determined. */
  datatype Token =
    | Literal(b: byte)
    | Copy(lsym: nat, lextra: nat, dsym: nat, dextra: nat)
  {
    ghost predicate Valid() {
      Copy? ==> 257 <= lsym <= 285 && dsym < 30
    }

    function Length(): nat
      requires Copy? && Valid()
    {
      LengthBase(lsym - 257) + lextra
    }

    function Distance(): nat
      requires Copy? && Valid()
    {
      DistBase(dsym) + dextra
    }

    /** The number of bits the token takes under the two codes. */
    ghost function Size(L: seq<nat>, D: seq<nat>): nat {
      match this
      case Literal(b) => if b < |L| then L[b] else 0
      case Copy(lsym, _, dsym, _) =>
        if Valid() && lsym < |L| && dsym < |D|
        then L[lsym] + LengthExtra(lsym - 257) + D[dsym] + DistExtra(dsym) else 0
    }

    /** The token stands at p. */
    ghost predicate At(data: seq<byte>, L: seq<nat>, D: seq<nat>, p: nat) {
      match this
      case Literal(b) => SymbolAt(data, L, p, b)
      case Copy(lsym, lextra, dsym, dextra) =>
        && Valid()
        && SymbolAt(data, L, p, lsym)
        && var p1 := p + L[lsym];
        && lextra == Field(data, p1, LengthExtra(lsym - 257))
        && var p2 := p1 + LengthExtra(lsym - 257);
        && SymbolAt(data, D, p2, dsym)
        && dextra == Field(data, p2 + D[dsym], DistExtra(dsym))
    }
  }

  ghost function TokensEnd(L: seq<nat>, D: seq<nat>, p: nat, ts: seq<Token>): (q: nat)
    ensures q >= p
  {
    if ts == [] then p else TokensEnd(L, D, p, ts[..|ts| - 1]) + ts[|ts| - 1].Size(L, D)
  }

  /** The tokens stand one after the other from p on. */
  ghost predicate TokensAt(data: seq<byte>, L: seq<nat>, D: seq<nat>, p: nat, ts: seq<Token>) {
    ts == []
    || (TokensAt(data, L, D, p, ts[..|ts| - 1])
        && ts[|ts| - 1].At(data, L, D, TokensEnd(L, D, p, ts[..|ts| - 1])))
  }

  /** The tokens stand at p and the end-of-block symbol follows. */
  ghost predicate BodyAt(data: seq<byte>, L: seq<nat>, D: seq<nat>, p: nat, ts: seq<Token>) {
    TokensAt(data, L, D, p, ts) && SymbolAt(data, L, TokensEnd(L, D, p, ts), END_OF_BLOCK)
  }

  ghost function BodyEnd(L: seq<nat>, D: seq<nat>, p: nat, ts: seq<Token>): (q: nat)
    ensures q >= p
  {
    TokensEnd(L, D, p, ts) + (if END_OF_BLOCK < |L| then L[END_OF_BLOCK] else 0)
  }

  lemma TokenUnique(data: seq<byte>, L: seq<nat>, D: seq<nat>, p: nat, t: Token, u: Token)
    requires t.At(data, L, D, p) && u.At(data, L, D, p)
    ensures t == u
  {
    hide CodeOf, CodeBits, Field, LengthExtra, DistExtra;
    var a := if t.Literal? then t.b else t.lsym;
    var b := if u.Literal? then u.b else u.lsym;
    SymbolUnique(data, L, p, a, b);
    if t.Copy? {
      var p2 := p + L[a] + LengthExtra(a - 257);
      SymbolUnique(data, D, p2, t.dsym, u.dsym);
    }
  }

  lemma {:induction false} TokensPrefix(data: seq<byte>, L: seq<nat>, D: seq<nat>, p: nat, ts: seq<Token>, k: nat)
    requires TokensAt(data, L, D, p, ts) && k <= |ts|
    ensures TokensAt(data, L, D, p, ts[..k])
    ensures k < |ts| ==> ts[k].At(data, L, D, TokensEnd(L, D, p, ts[..k]))
    ensures TokensEnd(L, D, p, ts[..k]) <= TokensEnd(L, D, p, ts)
    decreases |ts|
  {
    if k == |ts| {
      assert ts[..k] == ts;
    } else {
      var init := ts[..|ts| - 1];
      assert init[..k] == ts[..k];
      TokensPrefix(data, L, D, p, init, k);
    }
  }

  /** Tokens already read are a prefix of every complete body at the same position. */
  lemma {:induction false} TokensAgree(data: seq<byte>, L: seq<nat>, D: seq<nat>, p: nat,
                                       ts: seq<Token>, full: seq<Token>)
    requires TokensAt(data, L, D, p, ts) && BodyAt(data, L, D, p, full)
    ensures |ts| <= |full| && full[..|ts|] == ts
    decreases |ts|
  {
    hide SymbolAt, Field, Token.Size, LengthExtra, DistExtra;
    if ts == [] {
    } else {
      var k := |ts| - 1;
      TokensAgree(data, L, D, p, ts[..k], full);
      var q := TokensEnd(L, D, p, ts[..k]);
      TokensPrefix(data, L, D, p, full, k);
      if k == |full| {
        assert full[..k] == full;
        SymbolUnique(data, L, q, if ts[k].Literal? then ts[k].b else ts[k].lsym, END_OF_BLOCK);
      } else {
        TokenUnique(data, L, D, q, ts[k], full[k]);
        assert full[..|ts|] == full[..k] + [full[k]];
      }
    }
  }

  lemma BodyUnique(data: seq<byte>, L: seq<nat>, D: seq<nat>, p: nat, ts: seq<Token>, us: seq<Token>)
    requires BodyAt(data, L, D, p, ts) && BodyAt(data, L, D, p, us)
    ensures ts == us
  {
    TokensAgree(data, L, D, p, ts, us);
    TokensAgree(data, L, D, p, us, ts);
  }

  // ----- what tokens denote

  /** Append `len` bytes, each the one `dist` back; the source may overlap what is being written. */
  function CopyRun(out: seq<byte>, dist: nat, len: nat): (r: seq<byte>)
    requires 0 < dist <= |out|
    ensures |r| == |out| + len && r[..|out|] == out
    decreases len
  {
    if len == 0 then out else
      var r := CopyRun(out, dist, len - 1);
      r + [r[|r| - dist]]
  }

  ghost function Apply(out: seq<byte>, t: Token): (r: Option<seq<byte>>)
    ensures r.Some? ==> |out| <= |r.value|
  {
    match t
    case Literal(b) => Some(out + [b])
    case Copy(_, _, _, _) =>
      if t.Valid() && 0 < t.Distance() <= |out| then Some(CopyRun(out, t.Distance(), t.Length())) else None
  }

  ghost function Expand(out: seq<byte>, ts: seq<Token>): (r: Option<seq<byte>>)
    ensures r.Some? ==> |out| <= |r.value|
  {
    if ts == [] then Some(out) else
      match Expand(out, ts[..|ts| - 1])
      case None => None
      case Some(o) => Apply(o, ts[|ts| - 1])
  }

  lemma {:induction false} ExpandPrefix(out: seq<byte>, ts: seq<Token>, k: nat)
    requires k <= |ts| && Expand(out, ts).Some?
    ensures Expand(out, ts[..k]).Some?
    ensures |Expand(out, ts[..k]).value| <= |Expand(out, ts).value|
    ensures k < |ts| ==> var r := Apply(Expand(out, ts[..k]).value, ts[k]);
                         r.Some? && |r.value| <= |Expand(out, ts).value|
    decreases |ts|
  {
    if k == |ts| {
      assert ts[..k] == ts;
    } else {
      var init := ts[..|ts| - 1];
      assert init[..k] == ts[..k];
      if k < |ts| - 1 {
        ExpandPrefix(out, init, k);
      }
    }
  }

  // ----- code lengths of a dynamic block

  const CODE_LENGTH_ORDER: seq<nat> := [16, 17, 18, 0, 8, 7, 9, 6, 10, 5, 11, 4, 12, 3, 13, 2, 14, 1, 15]

  /** The lengths of the code length code after n three-bit fields from p. */
  ghost function CodeLengthLengths(data: seq<byte>, p: nat, n: nat): (r: seq<nat>)
    requires n <= 19
    ensures |r| == 19 && Lengths(r)
  {
    if n == 0 then Repeat(0, 19) else
      FieldBound(data, p + 3 * (n - 1), 3);
      Pow2Values();
      CodeLengthLengths(data, p, n - 1)[CODE_LENGTH_ORDER[n - 1] := Field(data, p + 3 * (n - 1), 3)]
  }

  /** Which field gives the length of symbol s: the run symbols first, then 0, then 8 and outwards from it. */
  function Turn(s: nat): nat {
    if s >= 16 then s - 16 else if s == 0 then 3 else if s <= 7 then 3 + 2 * (8 - s) else 4 + 2 * (s - 8)
  }

  lemma OrderIsTurn(k: nat, s: nat)
    requires k < 19 && s < 19
    ensures CODE_LENGTH_ORDER[k] == s <==> Turn(s) == k
  {
  }

  /** Section 3.2.7: each symbol's length stands in its own field, and is zero when the fields stop before it. */
  lemma {:induction false} CodeLengthAt(data: seq<byte>, p: nat, n: nat, s: nat)
    requires n <= 19 && s < 19
    ensures CodeLengthLengths(data, p, n)[s] == if Turn(s) < n then Field(data, p + 3 * Turn(s), 3) else 0
  {
    hide Field, Turn;
    if n > 0 {
      CodeLengthAt(data, p, n - 1, s);
      OrderIsTurn(n - 1, s);
    }
  }

  /** One symbol of the code length code: the lengths it appends and the bits it takes. */
  ghost function LengthsStep(data: seq<byte>, cl: seq<nat>, p: nat, total: nat, acc: seq<nat>)
    : (r: Option<(seq<nat>, nat)>)
    requires |cl| == 19
    ensures r.Some? && |acc| < total ==> |acc| < |r.value.0| <= total && r.value.1 >= p
    ensures r.Some? && Lengths(acc) ==> Lengths(r.value.0)
  {
    match Symbol(data, cl, p)
    case None => None
    case Some(c) =>
      var p1 := p + cl[c];
      if c < 16 then Some((acc + [c], p1))
      else if c == 16 then
        var n := Field(data, p1, 2) + 3;
        if acc == [] || total - |acc| < n then None else Some((acc + Repeat(acc[|acc| - 1], n), p1 + 2))
      else if c == 17 then
        var n := Field(data, p1, 3) + 3;
        if total - |acc| < n then None else Some((acc + Repeat(0, n), p1 + 3))
      else
        var n := Field(data, p1, 7) + 11;
        if total - |acc| < n then None else Some((acc + Repeat(0, n), p1 + 7))
  }

  /** All code lengths: the completed list and the position after it. */
  ghost function ReadLengths(data: seq<byte>, cl: seq<nat>, p: nat, total: nat, acc: seq<nat>)
    : (r: Option<(seq<nat>, nat)>)
    requires |cl| == 19 && |acc| <= total && Lengths(acc)
    ensures r.Some? ==> |r.value.0| == total && Lengths(r.value.0) && r.value.1 >= p
    decreases total - |acc|
  {
    if |acc| == total then Some((acc, p)) else
      match LengthsStep(data, cl, p, total, acc)
      case None => None
      case Some((acc', p')) => ReadLengths(data, cl, p', total, acc')
  }

  ghost predicate NotOversubscribed(lens: seq<nat>)
  {
    Lengths(lens) && Kraft(lens) <= Pow2(MAX_LENGTH)
  }

  datatype Codes = Codes(L: seq<nat>, D: seq<nat>, end: nat)

  /** The two codes of a dynamic block whose header stands at p. */
  ghost function DynamicCodes(data: seq<byte>, p: nat): (r: Option<Codes>)
    ensures r.Some? ==> NotOversubscribed(r.value.L) && NotOversubscribed(r.value.D) && r.value.end >= p
  {
    var hlit := Field(data, p, 5) + 257;
    var hdist := Field(data, p + 5, 5) + 1;
    var hclen := Field(data, p + 10, 4) + 4;
    FieldBound(data, p + 10, 4);
    Pow2Values();
    var cl := CodeLengthLengths(data, p + 14, hclen);
    if !NotOversubscribed(cl) then None else
      match ReadLengths(data, cl, p + 14 + 3 * hclen, hlit + hdist, [])
      case None => None
      case Some((lens, end)) =>
        if NotOversubscribed(lens[..hlit]) && NotOversubscribed(lens[hlit..])
        then Some(Codes(lens[..hlit], lens[hlit..], end)) else None
  }

  const FIXED_LENGTHS: seq<nat> := Repeat(8, 144) + Repeat(9, 112) + Repeat(7, 24) + Repeat(8, 8)
  const FIXED_DISTANCES: seq<nat> := Repeat(5, 32)

  // ----- blocks

  datatype Block =
    | Stored(bytes: seq<byte>)
    | Fixed(tokens: seq<Token>)
    | Dynamic(tokens: seq<Token>)
  {
    /** The block, header included, stands at p; stored bytes must be real input. */
    ghost predicate At(data: seq<byte>, p: nat, final: bool) {
      && Field(data, p, 1) == (if final then 1 else 0)
      && match this
         case Stored(bytes) =>
           && Field(data, p + 1, 2) == 0
           && StoredAt(data, (p + 10) / 8, bytes)
         case Fixed(ts) =>
           && Field(data, p + 1, 2) == 1
           && BodyAt(data, FIXED_LENGTHS, FIXED_DISTANCES, p + 3, ts)
         case Dynamic(ts) =>
           && Field(data, p + 1, 2) == 2
           && var c := DynamicCodes(data, p + 3);
           && c.Some?
           && BodyAt(data, c.value.L, c.value.D, c.value.end, ts)
    }

    ghost function End(data: seq<byte>, p: nat): (q: nat)
      ensures q >= p
    {
      match this
      case Stored(bytes) => 8 * ((p + 10) / 8 + 4 + |bytes|)
      case Fixed(ts) => BodyEnd(FIXED_LENGTHS, FIXED_DISTANCES, p + 3, ts)
      case Dynamic(ts) =>
        var c := DynamicCodes(data, p + 3);
        if c.Some? then BodyEnd(c.value.L, c.value.D, c.value.end, ts) else p
    }

    ghost function Output(out: seq<byte>): (r: Option<seq<byte>>)
      ensures r.Some? ==> |out| <= |r.value|
    {
      match this
      case Stored(bytes) => Some(out + bytes)
      case Fixed(ts) => Expand(out, ts)
      case Dynamic(ts) => Expand(out, ts)
    }
  }

  function LittleEndian(data: seq<byte>, s: nat): nat
    requires s + 1 < |data|
  {
    var low: int, high: int := data[s], data[s + 1];
    low + 256 * high
  }

  /** LEN, NLEN and the bytes, from byte s of the input on. */
  ghost predicate StoredAt(data: seq<byte>, s: nat, bytes: seq<byte>) {
    && s + 4 + |bytes| <= |data|
    && |bytes| == LittleEndian(data, s)
    && 65535 - |bytes| == LittleEndian(data, s + 2)
    && bytes == data[s + 4..s + 4 + |bytes|]
  }

  ghost function BlocksEnd(data: seq<byte>, p: nat, bs: seq<Block>): (q: nat)
    ensures q >= p
  {
    if bs == [] then p else bs[|bs| - 1].End(data, BlocksEnd(data, p, bs[..|bs| - 1]))
  }

  /** Blocks without the final bit, one after the other from p on. */
  ghost predicate BlocksAt(data: seq<byte>, p: nat, bs: seq<Block>) {
    bs == []
    || (BlocksAt(data, p, bs[..|bs| - 1])
        && bs[|bs| - 1].At(data, BlocksEnd(data, p, bs[..|bs| - 1]), false))
  }

  /** A complete stream: any number of blocks, the last one and only it final. */
  ghost predicate StreamAt(data: seq<byte>, p: nat, bs: seq<Block>) {
    && bs != []
    && BlocksAt(data, p, bs[..|bs| - 1])
    && bs[|bs| - 1].At(data, BlocksEnd(data, p, bs[..|bs| - 1]), true)
  }

  ghost function Denotes(bs: seq<Block>): (r: Option<seq<byte>>) {
    if bs == [] then Some([]) else
      match Denotes(bs[..|bs| - 1])
      case None => None
      case Some(o) => bs[|bs| - 1].Output(o)
  }

  lemma BlockUnique(data: seq<byte>, p: nat, a: Block, b: Block, fa: bool, fb: bool)
    requires a.At(data, p, fa) && b.At(data, p, fb)
    ensures a == b && fa == fb
  {
    hide DynamicCodes, BodyAt, Field;
    match a
    case Stored(_) =>
    case Fixed(ts) =>
      BodyUnique(data, FIXED_LENGTHS, FIXED_DISTANCES, p + 3, ts, b.tokens);
    case Dynamic(ts) =>
      var c := DynamicCodes(data, p + 3).value;
      BodyUnique(data, c.L, c.D, c.end, ts, b.tokens);
  }

  lemma {:induction false} BlocksPrefix(data: seq<byte>, p: nat, bs: seq<Block>, k: nat)
    requires BlocksAt(data, p, bs) && k <= |bs|
    ensures BlocksAt(data, p, bs[..k])
    ensures k < |bs| ==> bs[k].At(data, BlocksEnd(data, p, bs[..k]), false)
    ensures BlocksEnd(data, p, bs[..k]) <= BlocksEnd(data, p, bs)
    decreases |bs|
  {
    hide Block.At, Block.End;
    if k == |bs| {
      assert bs[..k] == bs;
    } else {
      var init := bs[..|bs| - 1];
      assert init[..k] == bs[..k];
      BlocksPrefix(data, p, init, k);
    }
  }

  /** Blocks already read are a proper prefix of every complete stream at the same position. */
  lemma {:induction false} BlocksAgree(data: seq<byte>, p: nat, bs: seq<Block>, full: seq<Block>)
    requires BlocksAt(data, p, bs) && StreamAt(data, p, full)
    ensures |bs| < |full| && full[..|bs|] == bs
    decreases |bs|
  {
    hide Block.At, Block.End;
    if bs != [] {
      var k := |bs| - 1;
      BlocksAgree(data, p, bs[..k], full);
      var init := full[..|full| - 1];
      var q := BlocksEnd(data, p, bs[..k]);
      if k == |init| {
        assert init == full[..k] == bs[..k];
        BlockUnique(data, q, bs[k], full[k], false, true);
      } else {
        assert init[..k] == full[..k];
        BlocksPrefix(data, p, init, k);
        BlockUnique(data, q, bs[k], full[k], false, false);
        assert full[..|bs|] == full[..k] + [full[k]];
      }
    }
  }

  /** A position of the input starts at most one DEFLATE stream. */
  lemma StreamUnique(data: seq<byte>, p: nat, a: seq<Block>, b: seq<Block>)
    requires StreamAt(data, p, a) && StreamAt(data, p, b)
    ensures a == b
  {
    hide Block.At, Block.End;
    var a', b' := a[..|a| - 1], b[..|b| - 1];
    BlocksAgree(data, p, a', b);
    BlocksAgree(data, p, b', a);
    assert a' == b';
    BlockUnique(data, BlocksEnd(data, p, a'), a[|a| - 1], b[|b| - 1], true, true);
    assert a == a' + [a[|a| - 1]] && b == b' + [b[|b| - 1]];
  }

  lemma {:induction false} DenotesPrefix(bs: seq<Block>, k: nat)
    requires k <= |bs| && Denotes(bs).Some?
    ensures Denotes(bs[..k]).Some?
    ensures |Denotes(bs[..k]).value| <= |Denotes(bs).value|
    ensures k < |bs| ==> var r := bs[k].Output(Denotes(bs[..k]).value);
                         r.Some? && |r.value| <= |Denotes(bs).value|
    decreases |bs|
  {
    if k == |bs| {
      assert bs[..k] == bs;
    } else {
      var init := bs[..|bs| - 1];
      assert init[..k] == bs[..k];
      if k < |bs| - 1 {
        DenotesPrefix(init, k);
      }
    }
  }

  // ----- the fixed codes are complete

  lemma MulStep(n: nat, p: nat)
    requires n > 0
    ensures n * p == (n - 1) * p + p
  {
  }

  lemma {:induction false} KraftRepeat(lens: seq<nat>, s: nat, n: nat)
    requires Lengths(lens) && 0 < s <= MAX_LENGTH
    ensures Lengths(lens + Repeat(s, n))
    ensures Kraft(lens + Repeat(s, n)) == Kraft(lens) + n * Pow2(MAX_LENGTH - s)
    decreases n
  {
    hide Pow2, Kraft;
    if n == 0 {
      assert lens + Repeat(s, 0) == lens;
    } else {
      KraftRepeat(lens, s, n - 1);
      assert lens + Repeat(s, n) == lens + Repeat(s, n - 1) + [s];
      KraftSnoc(lens + Repeat(s, n - 1), s);
      MulStep(n, Pow2(MAX_LENGTH - s));
    }
  }

  lemma KraftSnoc(lens: seq<nat>, s: nat)
    requires Lengths(lens) && 0 < s <= MAX_LENGTH
    ensures Lengths(lens + [s]) && Kraft(lens + [s]) == Kraft(lens) + Pow2(MAX_LENGTH - s)
  {
    hide Pow2;
    assert (lens + [s])[..|lens|] == lens;
  }

  lemma {:induction false} KraftZeros(lens: seq<nat>, n: nat)
    requires Lengths(lens)
    ensures Lengths(lens + Repeat(0, n)) && Kraft(lens + Repeat(0, n)) == Kraft(lens)
  {
    if n == 0 {
      assert lens + Repeat(0, 0) == lens;
    } else {
      KraftZeros(lens, n - 1);
      var all := lens + Repeat(0, n);
      assert all[..|all| - 1] == lens + Repeat(0, n - 1);
    }
  }

  lemma FixedCodesComplete()
    ensures Lengths(FIXED_LENGTHS) && Kraft(FIXED_LENGTHS) == Pow2(MAX_LENGTH)
    ensures Lengths(FIXED_DISTANCES) && Kraft(FIXED_DISTANCES) == Pow2(MAX_LENGTH)
  {
    var a := [] + Repeat(8, 144);
    var b := a + Repeat(9, 112);
    var c := b + Repeat(7, 24);
    KraftRepeat([], 8, 144);
    KraftRepeat(a, 9, 112);
    KraftRepeat(b, 7, 24);
    KraftRepeat(c, 8, 8);
    KraftRepeat([], 5, 32);
    Pow2Values();
    assert Pow2(6) == 64 && Pow2(10) == 1024;
    assert FIXED_LENGTHS == c + Repeat(8, 8);
    assert FIXED_DISTANCES == [] + Repeat(5, 32);
  }

  // ----- the fixed codes, code by code

  lemma NothingCounted(L: nat)
    ensures Count([], L) == 0
  {
  }

  lemma {:induction false} CountRepeat(lens: seq<nat>, s: nat, n: nat, L: nat)
    ensures Count(lens + Repeat(s, n), L) == Count(lens, L) + (if s == L then n else 0)
    decreases n
  {
    var all := lens + Repeat(s, n);
    if n == 0 {
      assert all == lens;
    } else {
      CountRepeat(lens, s, n - 1, L);
      assert all[..|all| - 1] == lens + Repeat(s, n - 1);
    }
  }

  /** How many of the first n symbols of the fixed code have length L. */
  function FixedUpto(n: nat, L: nat): int {
    if L == 8 then (if n <= 144 then n else if n <= 280 then 144 else n - 136)
    else if L == 9 then (if n <= 144 then 0 else if n <= 256 then n - 144 else 112)
    else if L == 7 then (if n <= 256 then 0 else if n <= 280 then n - 256 else 24)
    else 0
  }

  lemma {:induction false} FixedCount(n: nat, L: nat)
    requires n <= 288
    ensures |FIXED_LENGTHS| == 288 && Count(FIXED_LENGTHS[..n], L) == FixedUpto(n, L)
  {
    hide Count;
    if n == 0 {
      NothingCounted(L);
      assert FIXED_LENGTHS[..0] == [];
    } else {
      FixedCount(n - 1, L);
      CountSnoc(FIXED_LENGTHS, n - 1, L);
    }
  }

  lemma {:induction false} FixedFirst(L: nat)
    requires L <= 9
    ensures FirstCode(FIXED_LENGTHS, L) == if L <= 7 then 0 else if L == 8 then 48 else 400
  {
    hide Count;
    if L > 1 {
      FixedFirst(L - 1);
      FixedCount(288, L - 1);
      assert FIXED_LENGTHS[..288] == FIXED_LENGTHS;
    }
  }

  /** The table of section 3.2.6: literals from 48 in eight and from 400 in nine bits, the others from 0 in seven and 192 in eight. */
  lemma FixedCodeOf(s: nat)
    requires s < 288
    ensures |FIXED_LENGTHS| == 288
    ensures s < 144 ==> FIXED_LENGTHS[s] == 8 && CodeOf(FIXED_LENGTHS, s) == 48 + s
    ensures 144 <= s < 256 ==> FIXED_LENGTHS[s] == 9 && CodeOf(FIXED_LENGTHS, s) == 400 + (s - 144)
    ensures 256 <= s < 280 ==> FIXED_LENGTHS[s] == 7 && CodeOf(FIXED_LENGTHS, s) == s - 256
    ensures 280 <= s ==> FIXED_LENGTHS[s] == 8 && CodeOf(FIXED_LENGTHS, s) == 192 + (s - 280)
  {
    hide Count, FirstCode;
    FixedFirst(7);
    FixedFirst(8);
    FixedFirst(9);
    FixedCount(s, FIXED_LENGTHS[s]);
  }

  /** Distances are plain numbers of five bits. */
  lemma FixedDistanceOf(s: nat)
    requires s < 32
    ensures |FIXED_DISTANCES| == 32 && FIXED_DISTANCES[s] == 5 && CodeOf(FIXED_DISTANCES, s) == s
  {
    hide Count;
    EqualFirst(5, 32, 5);
    NothingCounted(5);
    CountRepeat([], 5, s, 5);
    assert FIXED_DISTANCES[..s] == [] + Repeat(5, s);
  }

  /** No code is shorter than the only length in use. */
  lemma {:induction false} EqualFirst(s: nat, n: nat, L: nat)
    requires L <= s
    ensures FirstCode(Repeat(s, n), L) == 0
  {
    hide Count;
    if L > 1 {
      EqualFirst(s, n, L - 1);
      NothingCounted(L - 1);
      CountRepeat([], s, n, L - 1);
      assert [] + Repeat(s, n) == Repeat(s, n);
    }
  }
}
