/**
 * How far the inflater reads ahead. It loads whole bytes into a bit buffer, never fewer than 25 bits
 * at a time, and asks for sixteen bits before it looks up a code. With the position p of the next
 * unread bit and the number k of bytes loaded, a run over a stream is determined; it starves when a
 * lookup finds fewer than sixteen bits and no input left to load.
 */
module LookAhead {
  import opened Collections
  import opened Bits
  import opened BitStream
  import opened Canonical
  import opened Deflate

  /** Bytes loaded once the buffer is refilled at position p: 25 to 32 bits beyond p. */
  function Refilled(p: nat): nat {
    (p + 32) / 8
  }

  /** Bytes loaded after asking for n bits at p. */
  function AfterBits(p: nat, k: nat, n: nat): nat {
    if 8 * k - p < n then Refilled(p) else k
  }

  /** Bytes loaded after looking up a code at p. */
  function AfterLookup(p: nat, k: nat): nat {
    AfterBits(p, k, 16)
  }

  /** A lookup at p fails for want of bits: the input of `size` bytes is used up. */
  predicate Starved(size: nat, p: nat, k: nat) {
    8 * k - p < 16 && size <= k
  }

  /** Less than the sixteen bits of look-ahead remain at p. */
  ghost predicate NearEnd(data: seq<byte>, p: nat) {
    p + 16 > 8 * |data|
  }

  // ----- tokens

  /** The copy's symbols have codes. */
  ghost predicate Coded(L: seq<nat>, D: seq<nat>, t: Token) {
    t.Copy? && t.Valid() && t.lsym < |L| && t.dsym < |D|
  }

  /** Where the distance code of a copy at p stands, and the bytes loaded by then. */
  ghost function DistanceAt(L: seq<nat>, D: seq<nat>, p: nat, t: Token): nat
    requires Coded(L, D, t)
  {
    p + L[t.lsym] + LengthExtra(t.lsym - 257)
  }

  ghost function BeforeDistance(L: seq<nat>, D: seq<nat>, p: nat, k: nat, t: Token): nat
    requires Coded(L, D, t)
  {
    AfterBits(p + L[t.lsym], AfterLookup(p, k), LengthExtra(t.lsym - 257))
  }

  ghost function AfterToken(L: seq<nat>, D: seq<nat>, p: nat, k: nat, t: Token): nat {
    if Coded(L, D, t) then
      var p2, k2 := DistanceAt(L, D, p, t), BeforeDistance(L, D, p, k, t);
      AfterBits(p2 + D[t.dsym], AfterLookup(p2, k2), DistExtra(t.dsym))
    else AfterLookup(p, k)
  }

  /** No lookup of the token starves. */
  ghost predicate TokenFed(size: nat, L: seq<nat>, D: seq<nat>, p: nat, k: nat, t: Token) {
    && !Starved(size, p, k)
    && (Coded(L, D, t) ==> !Starved(size, DistanceAt(L, D, p, t), BeforeDistance(L, D, p, k, t)))
  }

  ghost function AfterTokens(L: seq<nat>, D: seq<nat>, p: nat, k: nat, ts: seq<Token>): nat {
    if ts == [] then k
    else
      var init := ts[..|ts| - 1];
      AfterToken(L, D, TokensEnd(L, D, p, init), AfterTokens(L, D, p, k, init), ts[|ts| - 1])
  }

  ghost predicate TokensFed(size: nat, L: seq<nat>, D: seq<nat>, p: nat, k: nat, ts: seq<Token>) {
    ts == []
    || var init := ts[..|ts| - 1];
       && TokensFed(size, L, D, p, k, init)
       && TokenFed(size, L, D, TokensEnd(L, D, p, init), AfterTokens(L, D, p, k, init), ts[|ts| - 1])
  }

  /** The tokens and the end-of-block symbol behind them. */
  ghost predicate BodyFed(size: nat, L: seq<nat>, D: seq<nat>, p: nat, k: nat, ts: seq<Token>) {
    TokensFed(size, L, D, p, k, ts) && !Starved(size, TokensEnd(L, D, p, ts), AfterTokens(L, D, p, k, ts))
  }

  ghost function AfterBody(L: seq<nat>, D: seq<nat>, p: nat, k: nat, ts: seq<Token>): nat {
    AfterLookup(TokensEnd(L, D, p, ts), AfterTokens(L, D, p, k, ts))
  }

  lemma {:induction false} TokensFedPrefix(size: nat, L: seq<nat>, D: seq<nat>, p: nat, k: nat, ts: seq<Token>, n: nat)
    requires TokensFed(size, L, D, p, k, ts) && n < |ts|
    ensures TokenFed(size, L, D, TokensEnd(L, D, p, ts[..n]), AfterTokens(L, D, p, k, ts[..n]), ts[n])
    decreases |ts|
  {
    hide TokenFed, AfterToken, Token.Size;
    if n < |ts| - 1 {
      var init := ts[..|ts| - 1];
      assert init[..n] == ts[..n];
      TokensFedPrefix(size, L, D, p, k, init, n);
    }
  }

  lemma TokensSnoc(size: nat, L: seq<nat>, D: seq<nat>, p: nat, k: nat, ts: seq<Token>, t: Token)
    ensures AfterTokens(L, D, p, k, ts + [t]) == AfterToken(L, D, TokensEnd(L, D, p, ts), AfterTokens(L, D, p, k, ts), t)
    ensures TokensFed(size, L, D, p, k, ts + [t])
            <==> TokensFed(size, L, D, p, k, ts) && TokenFed(size, L, D, TokensEnd(L, D, p, ts), AfterTokens(L, D, p, k, ts), t)
  {
    hide TokenFed, AfterToken, Token.Size;
    assert (ts + [t])[..|ts|] == ts;
  }

  // ----- code lengths

  /** Extra bits of the run symbols 16 to 18. */
  function RunBits(c: nat): (n: nat)
    ensures n <= 7
  {
    if c == 16 then 2 else if c == 17 then 3 else 7
  }

  ghost function AfterLengthsStep(data: seq<byte>, cl: seq<nat>, p: nat, k: nat): nat
    requires |cl| == 19
  {
    match Symbol(data, cl, p)
    case None => k
    case Some(c) =>
      var p1, k1 := p + cl[c], AfterLookup(p, k);
      if c < 16 then k1 else AfterBits(p1, k1, RunBits(c))
  }

  /** Bytes loaded after all code lengths; None if a lookup starves or the lengths are malformed. */
  ghost function AfterLengths(data: seq<byte>, cl: seq<nat>, p: nat, k: nat, total: nat, acc: seq<nat>): Option<nat>
    requires |cl| == 19 && |acc| <= total && Lengths(acc)
    decreases total - |acc|
  {
    if |acc| == total then Some(k)
    else if Starved(|data|, p, k) then None
    else
      match LengthsStep(data, cl, p, total, acc)
      case None => None
      case Some((acc', p')) => AfterLengths(data, cl, p', AfterLengthsStep(data, cl, p, k), total, acc')
  }

  ghost function AfterCounts(p: nat, k: nat): nat {
    AfterBits(p + 10, AfterBits(p + 5, AfterBits(p, k, 5), 5), 4)
  }

  ghost function AfterSizes(p: nat, k: nat, n: nat): nat {
    if n == 0 then k else AfterBits(p + 3 * (n - 1), AfterSizes(p, k, n - 1), 3)
  }

  /** Bytes loaded after the header of a dynamic block at p. */
  ghost function AfterCodes(data: seq<byte>, p: nat, k: nat): Option<nat> {
    var hlit := Field(data, p, 5) + 257;
    var hdist := Field(data, p + 5, 5) + 1;
    var hclen := Field(data, p + 10, 4) + 4;
    FieldBound(data, p + 10, 4);
    Pow2Values();
    AfterLengths(data, CodeLengthLengths(data, p + 14, hclen), p + 14 + 3 * hclen,
                 AfterSizes(p + 14, AfterCounts(p, k), hclen), hlit + hdist, [])
  }

  // ----- blocks

  ghost function AfterHeader(q: nat, k: nat): nat {
    AfterBits(q + 1, AfterBits(q, k, 1), 2)
  }

  ghost predicate BlockFed(data: seq<byte>, q: nat, k: nat, b: Block) {
    match b
    case Stored(_) => true
    case Fixed(ts) => BodyFed(|data|, FIXED_LENGTHS, FIXED_DISTANCES, q + 3, AfterHeader(q, k), ts)
    case Dynamic(ts) =>
      var c, k' := DynamicCodes(data, q + 3), AfterCodes(data, q + 3, AfterHeader(q, k));
      c.Some? && k'.Some? && BodyFed(|data|, c.value.L, c.value.D, c.value.end, k'.value, ts)
  }

  ghost function AfterBlock(data: seq<byte>, q: nat, k: nat, b: Block): nat {
    match b
    case Stored(bytes) => (q + 10) / 8 + 4 + |bytes|
    case Fixed(ts) => AfterBody(FIXED_LENGTHS, FIXED_DISTANCES, q + 3, AfterHeader(q, k), ts)
    case Dynamic(ts) =>
      var c, k' := DynamicCodes(data, q + 3), AfterCodes(data, q + 3, AfterHeader(q, k));
      if c.Some? && k'.Some? then AfterBody(c.value.L, c.value.D, c.value.end, k'.value, ts) else k
  }

  ghost function AfterBlocks(data: seq<byte>, p: nat, k: nat, bs: seq<Block>): nat {
    if bs == [] then k
    else
      var init := bs[..|bs| - 1];
      AfterBlock(data, BlocksEnd(data, p, init), AfterBlocks(data, p, k, init), bs[|bs| - 1])
  }

  /** No lookup in any of the blocks starves. */
  ghost predicate BlocksFed(data: seq<byte>, p: nat, k: nat, bs: seq<Block>) {
    bs == []
    || var init := bs[..|bs| - 1];
       && BlocksFed(data, p, k, init)
       && BlockFed(data, BlocksEnd(data, p, init), AfterBlocks(data, p, k, init), bs[|bs| - 1])
  }

  lemma {:induction false} BlocksFedPrefix(data: seq<byte>, p: nat, k: nat, bs: seq<Block>, n: nat)
    requires BlocksFed(data, p, k, bs) && n < |bs|
    ensures BlockFed(data, BlocksEnd(data, p, bs[..n]), AfterBlocks(data, p, k, bs[..n]), bs[n])
    decreases |bs|
  {
    hide BlockFed, AfterBlock, Block.End;
    if n < |bs| - 1 {
      var init := bs[..|bs| - 1];
      assert init[..n] == bs[..n];
      BlocksFedPrefix(data, p, k, init, n);
    }
  }

  lemma BlocksFedSnoc(data: seq<byte>, p: nat, k: nat, bs: seq<Block>, b: Block)
    ensures AfterBlocks(data, p, k, bs + [b]) == AfterBlock(data, BlocksEnd(data, p, bs), AfterBlocks(data, p, k, bs), b)
    ensures BlocksFed(data, p, k, bs + [b])
            <==> BlocksFed(data, p, k, bs) && BlockFed(data, BlocksEnd(data, p, bs), AfterBlocks(data, p, k, bs), b)
  {
    hide BlockFed, AfterBlock, Block.End;
    assert (bs + [b])[..|bs|] == bs;
  }

  // ----- streams that end in time never starve

  lemma TokenInTime(data: seq<byte>, L: seq<nat>, D: seq<nat>, p: nat, k: nat, t: Token)
    requires !NearEnd(data, p + t.Size(L, D))
    ensures TokenFed(|data|, L, D, p, k, t)
  {
    hide LengthExtra, DistExtra, AfterBits;
  }

  lemma {:induction false} TokensInTime(data: seq<byte>, L: seq<nat>, D: seq<nat>, p: nat, k: nat, ts: seq<Token>)
    requires !NearEnd(data, TokensEnd(L, D, p, ts))
    ensures TokensFed(|data|, L, D, p, k, ts)
    decreases |ts|
  {
    hide TokenFed, AfterToken, Token.Size;
    if ts != [] {
      var init := ts[..|ts| - 1];
      TokensInTime(data, L, D, p, k, init);
      TokenInTime(data, L, D, TokensEnd(L, D, p, init), AfterTokens(L, D, p, k, init), ts[|ts| - 1]);
    }
  }

  lemma BodyInTime(data: seq<byte>, L: seq<nat>, D: seq<nat>, p: nat, k: nat, ts: seq<Token>)
    requires !NearEnd(data, BodyEnd(L, D, p, ts))
    ensures BodyFed(|data|, L, D, p, k, ts)
  {
    TokensInTime(data, L, D, p, k, ts);
  }

  lemma {:induction false} LengthsInTime(data: seq<byte>, cl: seq<nat>, p: nat, k: nat, total: nat, acc: seq<nat>)
    requires |cl| == 19 && |acc| <= total && Lengths(acc)
    requires var r := ReadLengths(data, cl, p, total, acc); r.Some? && !NearEnd(data, r.value.1)
    ensures AfterLengths(data, cl, p, k, total, acc).Some?
    decreases total - |acc|
  {
    hide LengthsStep, AfterLengthsStep;
    if |acc| < total {
      var (acc', p') := LengthsStep(data, cl, p, total, acc).value;
      LengthsInTime(data, cl, p', AfterLengthsStep(data, cl, p, k), total, acc');
    }
  }

  lemma CodesInTime(data: seq<byte>, p: nat, k: nat)
    requires var c := DynamicCodes(data, p); c.Some? && !NearEnd(data, c.value.end)
    ensures AfterCodes(data, p, k).Some?
  {
    hide Field, CodeLengthLengths, NotOversubscribed, AfterCounts, AfterSizes, ReadLengths, AfterLengths;
    var hlit := Field(data, p, 5) + 257;
    var hdist := Field(data, p + 5, 5) + 1;
    var hclen := Field(data, p + 10, 4) + 4;
    FieldBound(data, p + 10, 4);
    Pow2Values();
    LengthsInTime(data, CodeLengthLengths(data, p + 14, hclen), p + 14 + 3 * hclen,
                  AfterSizes(p + 14, AfterCounts(p, k), hclen), hlit + hdist, []);
  }

  lemma BlockInTime(data: seq<byte>, q: nat, k: nat, b: Block, final: bool)
    requires b.At(data, q, final) && !NearEnd(data, b.End(data, q))
    ensures BlockFed(data, q, k, b)
  {
    hide DynamicCodes, AfterCodes, BodyAt, BodyEnd, BodyFed, Field, AfterHeader, StoredAt;
    match b
    case Stored(_) =>
    case Fixed(ts) => BodyInTime(data, FIXED_LENGTHS, FIXED_DISTANCES, q + 3, AfterHeader(q, k), ts);
    case Dynamic(ts) =>
      var c := DynamicCodes(data, q + 3).value;
      BodyGrows(c.L, c.D, c.end, ts);
      CodesInTime(data, q + 3, AfterHeader(q, k));
      BodyInTime(data, c.L, c.D, c.end, AfterCodes(data, q + 3, AfterHeader(q, k)).value, ts);
  }

  lemma BodyGrows(L: seq<nat>, D: seq<nat>, p: nat, ts: seq<Token>)
    ensures BodyEnd(L, D, p, ts) >= p
  {
  }

  lemma {:induction false} BlocksInTime(data: seq<byte>, p: nat, k: nat, bs: seq<Block>)
    requires BlocksAt(data, p, bs) && !NearEnd(data, BlocksEnd(data, p, bs))
    ensures BlocksFed(data, p, k, bs)
    decreases |bs|
  {
    hide Block.At, Block.End, BlockFed, AfterBlock;
    if bs != [] {
      var init := bs[..|bs| - 1];
      BlocksInTime(data, p, k, init);
      BlockInTime(data, BlocksEnd(data, p, init), AfterBlocks(data, p, k, init), bs[|bs| - 1], false);
    }
  }

  /** A stream that ends sixteen bits before the input does is never starved. */
  lemma StreamInTime(data: seq<byte>, p: nat, k: nat, bs: seq<Block>)
    requires StreamAt(data, p, bs) && !NearEnd(data, BlocksEnd(data, p, bs))
    ensures BlocksFed(data, p, k, bs)
  {
    hide Block.At, Block.End, BlockFed, AfterBlock;
    var init := bs[..|bs| - 1];
    BlocksInTime(data, p, k, init);
    BlockInTime(data, BlocksEnd(data, p, init), AfterBlocks(data, p, k, init), bs[|bs| - 1], true);
  }
}
