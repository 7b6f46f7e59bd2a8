/** Steps of the inflater related to the grammar: bit-buffer arithmetic and what a refusal rules out. */
module InflateLemmas {
  import opened Collections
  import opened Bits
  import opened BitStream
  import opened Canonical
  import opened Deflate
  import opened LookAhead

  function ByteAt(data: seq<byte>, k: nat): byte {
    if k < |data| then data[k] else 0
  }

  // ----- the bit buffer

  /** One byte shifted in on top of a buffer that holds n bits. */
  lemma FillByte(data: seq<byte>, p: nat, n: nat, k: nat)
    requires p + n == 8 * k
    ensures Field(data, p, n) < Pow2(n)
    ensures Or(Field(data, p, n), Shl(ByteAt(data, k), n)) == Field(data, p, n + 8)
  {
    hide Field, Or, Shl, Pow2;
    FieldBound(data, p, n);
    FieldAppend(data, p, n, 8);
    FieldByte(data, k);
    OrDisjoint(Field(data, p, n), ByteAt(data, k), n);
  }

  /** The reversed buffer is the window of the next sixteen bits, first bit on top. */
  lemma BufferWindow(data: seq<byte>, p: nat, n: nat, cb: nat, w: nat)
    requires cb == Field(data, p, n) && w <= n
    ensures Reverse(cb, w) == CodeBits(data, p, w)
  {
    FieldSplit(data, p, w, n - w);
    ReverseLow(cb, w);
    ReverseField(data, p, w);
  }

  // ----- refusals

  /** Every body that starts at p, with k bytes loaded, starves or runs past the room for output. */
  ghost predicate NoBody(data: seq<byte>, L: seq<nat>, D: seq<nat>, p: nat, k: nat, out: seq<byte>, room: nat) {
    forall ts: seq<Token> :: BodyAt(data, L, D, p, ts) && Expand(out, ts).Some? ==>
      !BodyFed(|data|, L, D, p, k, ts) || |Expand(out, ts).value| > room
  }

  /** The token cannot be the next one of a body that is fed and fits the room. */
  ghost predicate Blocked(data: seq<byte>, L: seq<nat>, D: seq<nat>, q: nat, kq: nat, o: seq<byte>, room: nat, t: Token) {
    t.At(data, L, D, q) && Apply(o, t).Some? ==>
      !TokenFed(|data|, L, D, q, kq, t) || |Apply(o, t).value| > room
  }

  /** The tokens read so far: they stand at p, end at q with kq bytes loaded, and make o of `out`. */
  ghost predicate Read(data: seq<byte>, L: seq<nat>, D: seq<nat>, p: nat, k: nat, out: seq<byte>,
                       ts: seq<Token>, q: nat, kq: nat, o: seq<byte>)
  {
    && TokensAt(data, L, D, p, ts) && q == TokensEnd(L, D, p, ts) && Expand(out, ts) == Some(o)
    && kq == AfterTokens(L, D, p, k, ts)
  }

  lemma Refused(data: seq<byte>, L: seq<nat>, D: seq<nat>, p: nat, k: nat, out: seq<byte>, room: nat,
                ts: seq<Token>, q: nat, kq: nat, o: seq<byte>)
    requires Read(data, L, D, p, k, out, ts, q, kq, o)
    requires SymbolAt(data, L, q, END_OF_BLOCK) ==> Starved(|data|, q, kq)
    requires forall t: Token :: Blocked(data, L, D, q, kq, o, room, t)
    ensures NoBody(data, L, D, p, k, out, room)
  {
    hide Read, BodyAt, BodyFed, Expand, Blocked, SymbolAt, Starved;
    forall full: seq<Token> | BodyAt(data, L, D, p, full) && Expand(out, full).Some?
      ensures !BodyFed(|data|, L, D, p, k, full) || |Expand(out, full).value| > room
    {
      if BodyFed(|data|, L, D, p, k, full) {
        RefusedOne(data, L, D, p, k, out, room, ts, q, kq, o, full);
      }
    }
  }

  lemma RefusedOne(data: seq<byte>, L: seq<nat>, D: seq<nat>, p: nat, k: nat, out: seq<byte>, room: nat,
                   ts: seq<Token>, q: nat, kq: nat, o: seq<byte>, full: seq<Token>)
    requires Read(data, L, D, p, k, out, ts, q, kq, o)
    requires SymbolAt(data, L, q, END_OF_BLOCK) ==> Starved(|data|, q, kq)
    requires forall t: Token :: Blocked(data, L, D, q, kq, o, room, t)
    requires BodyAt(data, L, D, p, full) && BodyFed(|data|, L, D, p, k, full) && Expand(out, full).Some?
    ensures |Expand(out, full).value| > room
  {
    hide SymbolAt, Token.At, Token.Size, Apply, TokenFed, AfterToken, Starved;
    TokensAgree(data, L, D, p, ts, full);
    var n := |ts|;
    assert full[..|full|] == full;
    if n < |full| {
      TokensPrefix(data, L, D, p, full, n);
      TokensFedPrefix(|data|, L, D, p, k, full, n);
      ExpandPrefix(out, full, n);
      assert Blocked(data, L, D, q, kq, o, room, full[n]);
    }
  }

  /** No literal or length symbol at q, or no bits to look for one. */
  lemma RefusedSymbol(data: seq<byte>, L: seq<nat>, D: seq<nat>, p: nat, k: nat, out: seq<byte>, room: nat,
                      ts: seq<Token>, q: nat, kq: nat, o: seq<byte>)
    requires Read(data, L, D, p, k, out, ts, q, kq, o)
    requires Starved(|data|, q, kq) || Symbol(data, L, q).None? || Symbol(data, L, q).value > 285
    ensures NoBody(data, L, D, p, k, out, room)
  {
    hide CodeOf, CodeBits, Field, LengthExtra, DistExtra, Read, Apply, DistanceAt, BeforeDistance, Starved, NoBody;
    if !Starved(|data|, q, kq) {
      forall sym: nat | SymbolAt(data, L, q, sym)
        ensures sym > 285
      {
        SymbolUnique(data, L, q, sym, Symbol(data, L, q).value);
      }
    }
    assert forall t: Token :: t.At(data, L, D, q) ==> Starved(|data|, q, kq);
    Refused(data, L, D, p, k, out, room, ts, q, kq, o);
  }

  /** A symbol stands at q that the output cannot take: a literal or a copy without room. */
  lemma RefusedToken(data: seq<byte>, L: seq<nat>, D: seq<nat>, p: nat, k: nat, out: seq<byte>, room: nat,
                     ts: seq<Token>, q: nat, kq: nat, o: seq<byte>, t: Token)
    requires Read(data, L, D, p, k, out, ts, q, kq, o)
    requires t.At(data, L, D, q)
    requires Apply(o, t).None? || |Apply(o, t).value| > room
    ensures NoBody(data, L, D, p, k, out, room)
  {
    hide CodeOf, CodeBits, Field, LengthExtra, DistExtra, Read, Apply, TokenFed, NoBody;
    forall u: Token
      ensures Blocked(data, L, D, q, kq, o, room, u)
    {
      if u.At(data, L, D, q) {
        TokenUnique(data, L, D, q, t, u);
      }
    }
    if SymbolAt(data, L, q, END_OF_BLOCK) {
      SymbolUnique(data, L, q, END_OF_BLOCK, if t.Literal? then t.b else t.lsym);
    }
    Refused(data, L, D, p, k, out, room, ts, q, kq, o);
  }

  /** A length symbol stands at q, but no usable distance symbol follows. */
  lemma RefusedDistance(data: seq<byte>, L: seq<nat>, D: seq<nat>, p: nat, k: nat, out: seq<byte>, room: nat,
                        ts: seq<Token>, q: nat, kq: nat, o: seq<byte>, z: nat, p2: nat, k2: nat)
    requires Read(data, L, D, p, k, out, ts, q, kq, o)
    requires 257 <= z <= 285 && SymbolAt(data, L, q, z) && p2 == q + L[z] + LengthExtra(z - 257)
    requires k2 == AfterBits(q + L[z], AfterLookup(q, kq), LengthExtra(z - 257))
    requires Starved(|data|, p2, k2) || Symbol(data, D, p2).None? || Symbol(data, D, p2).value >= 30
    ensures NoBody(data, L, D, p, k, out, room)
  {
    hide CodeOf, CodeBits, Field, LengthExtra, DistExtra, Read, Apply, AfterBits, AfterLookup, Starved, NoBody;
    forall t: Token
      ensures Blocked(data, L, D, q, kq, o, room, t)
    {
      if t.At(data, L, D, q) {
        SymbolUnique(data, L, q, z, if t.Literal? then t.b else t.lsym);
        if !Starved(|data|, p2, k2) {
          SymbolUnique(data, D, p2, t.dsym, Symbol(data, D, p2).value);
        }
      }
    }
    if SymbolAt(data, L, q, END_OF_BLOCK) {
      SymbolUnique(data, L, q, END_OF_BLOCK, z);
    }
    Refused(data, L, D, p, k, out, room, ts, q, kq, o);
  }

  // ----- the source's tables and the RFC's progressions

  const LENGTH_BASE: seq<nat> := [
    3, 4, 5, 6, 7, 8, 9, 10, 11, 13, 15, 17, 19, 23, 27, 31, 35, 43, 51, 59,
    67, 83, 99, 115, 131, 163, 195, 227, 258, 0, 0]
  const LENGTH_EXTRA: seq<nat> := [
    0, 0, 0, 0, 0, 0, 0, 0, 1, 1, 1, 1, 2, 2, 2, 2, 3, 3, 3, 3, 4, 4, 4, 4, 5, 5, 5, 5, 0, 0, 0]
  const DIST_BASE: seq<nat> := [
    1, 2, 3, 4, 5, 7, 9, 13, 17, 25, 33, 49, 65, 97, 129, 193, 257, 385, 513, 769, 1025, 1537, 2049,
    3073, 4097, 6145, 8193, 12289, 16385, 24577, 0, 0]
  const DIST_EXTRA: seq<nat> := [
    0, 0, 0, 0, 1, 1, 2, 2, 3, 3, 4, 4, 5, 5, 6, 6, 7, 7, 8, 8, 9, 9, 10, 10, 11, 11, 12, 12, 13, 13, 0, 0]

  method LengthRow(i: nat) returns (base: nat, extra: nat)
    requires i < 29
    ensures base == LengthBase(i) && extra == LengthExtra(i)
    ensures base >= 3 && extra <= 5
  {
    base, extra := LENGTH_BASE[i], LENGTH_EXTRA[i];
    LengthTable(i);
  }

  method DistRow(i: nat) returns (base: nat, extra: nat)
    requires i < 30
    ensures base == DistBase(i) && extra == DistExtra(i)
    ensures base >= 1 && extra <= 13
  {
    base, extra := DIST_BASE[i], DIST_EXTRA[i];
    DistTable(i);
  }

  lemma LengthTable(i: nat)
    requires i < 29
    ensures LENGTH_BASE[i] == LengthBase(i) && LENGTH_EXTRA[i] == LengthExtra(i)
  {
    hide LengthBase, LengthExtra;
    if i < 8 || i == 28 {
      LengthEdge(i);
    } else {
      LengthGroup(i, (i - 4) / 4);
    }
  }

  lemma LengthEdge(i: nat)
    requires i < 8 || i == 28
    ensures LengthExtra(i) == 0 && LengthBase(i) == if i == 28 then 258 else 3 + i
  {
  }

  lemma LengthGroup(i: nat, g: nat)
    requires 1 <= g <= 5 && 4 * g + 4 <= i < 4 * g + 8
    ensures LengthExtra(i) == g && LengthBase(i) == 3 + Shl(i - 4 * g, g)
    ensures g == 1 ==> LengthBase(i) == 3 + 2 * (i - 4)
    ensures g == 2 ==> LengthBase(i) == 3 + 4 * (i - 8)
    ensures g == 3 ==> LengthBase(i) == 3 + 8 * (i - 12)
    ensures g == 4 ==> LengthBase(i) == 3 + 16 * (i - 16)
    ensures g == 5 ==> LengthBase(i) == 3 + 32 * (i - 20)
  {
    ShlSmall(i - 4 * g);
  }

  lemma DistTable(i: nat)
    requires i < 30
    ensures DIST_BASE[i] == DistBase(i) && DIST_EXTRA[i] == DistExtra(i)
  {
    hide DistBase, DistExtra, Shl;
    if i < 4 {
      DistEdge(i);
    } else {
      DistGroup(i, (i - 2) / 2);
      ShlSmall(2);
      ShlSmall(3);
    }
  }

  lemma DistEdge(i: nat)
    requires i < 4
    ensures DistExtra(i) == 0 && DistBase(i) == 1 + i
  {
  }

  lemma DistGroup(i: nat, g: nat)
    requires 1 <= g <= 13 && 2 * g + 2 <= i < 2 * g + 4
    ensures DistExtra(i) == g && DistBase(i) == 1 + Shl(i - 2 * g, g)
  {
  }

  lemma ShlSmall(x: nat)
    ensures Shl(x, 1) == 2 * x && Shl(x, 2) == 4 * x && Shl(x, 3) == 8 * x && Shl(x, 4) == 16 * x
    ensures Shl(x, 5) == 32 * x && Shl(x, 6) == 64 * x && Shl(x, 7) == 128 * x && Shl(x, 8) == 256 * x
    ensures Shl(x, 9) == 512 * x && Shl(x, 10) == 1024 * x && Shl(x, 11) == 2048 * x
    ensures Shl(x, 12) == 4096 * x && Shl(x, 13) == 8192 * x
  {
    ShlShl(x, 4, 4);
    ShlShl(x, 8, 4);
  }
}
