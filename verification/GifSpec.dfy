/**
 * What a GIF image block means: the LZW code stream of Appendix F of GIF89a over a dictionary of
 * strings, and the order in which the decoded indices fill the image rectangle (Appendix E).
 */
module GifSpec {
  import opened Collections
  import opened Bits
  import opened BitStream

  const TABLE_SIZE: nat := 8192

  // ----- data sub-blocks

  /** The n bytes from p on; zeros past the end of the input, as stbi__get8 supplies them. */
  function Bytes(data: seq<byte>, p: nat, n: nat): (r: seq<byte>)
    ensures |r| == n
  {
    seq(n, i requires 0 <= i => if p + i < |data| then data[p + i] else 0)
  }

  function ByteOr0(data: seq<byte>, p: nat): byte { if p < |data| then data[p] else 0 }

  /** The bytes of all sub-blocks from p up to the empty one that ends them. */
  function Payload(data: seq<byte>, p: nat): seq<byte>
    decreases |data| - p
  {
    var n := ByteOr0(data, p);
    if n == 0 then [] else Bytes(data, p + 1, n) + Payload(data, p + 1 + n)
  }

  // ----- the dictionary of strings

  /** Codes have at most twelve bits, so the dictionary stops at 4096 strings; not for thirteen-bit codes. */
  function DictionaryLimit(cs: nat): nat { if cs < 12 then 4096 else TABLE_SIZE }

  /**
   * `dict` maps codes to strings (the clear and end codes to the empty string), `prev` is the previous
   * code or -1, `width` the current code size and `started` says whether a clear code was seen.
   * `entries` counts what a table without the dictionary limit would hold.
   */
  datatype State = State(dict: seq<seq<byte>>, prev: int, width: nat, started: bool, entries: nat)

  function Initial(cs: nat, started: bool): State {
    State(seq(Pow2(cs) + 2, c requires 0 <= c => if c < Pow2(cs) then [c % 256] else []),
          -1, cs + 1, started, Pow2(cs) + 2)
  }

  datatype Outcome = Output(state: State, emit: seq<byte>) | Stop | Illegal

  ghost predicate Usable(cs: nat, st: State) {
    && Pow2(cs) + 2 <= |st.dict|
    && -1 <= st.prev < |st.dict|
    && st.prev != Pow2(cs) && st.prev != Pow2(cs) + 1
    && st.width > 0
    && forall c :: 0 <= c < |st.dict| && c != Pow2(cs) && c != Pow2(cs) + 1 ==> st.dict[c] != []
  }

  /** The code size grows when the dictionary has filled the codes of the current one. */
  function Grow(size: nat, width: nat): nat {
    if Low(size, width) == 0 && size < 4096 then width + 1 else width
  }

  /** It grows by one bit exactly when every code of the current size is taken, up to twelve bits. */
  lemma GrowIs(size: nat, width: nat)
    requires 0 < width <= 12 && 0 < size <= Pow2(width)
    ensures Grow(size, width) == if size == Pow2(width) && width < 12 then width + 1 else width
  {
    hide Low, Pow2, Shl, Shr;
    Pow2Monotone(width, 12);
    Twelve();
    if width < 12 {
      Pow2Monotone(width, 11);
    }
    if size == Pow2(width) {
      ShlOne(width);
      ShlSplit(1, 0, width);
    } else {
      LowSmall(size, width);
    }
  }

  lemma Twelve()
    ensures Pow2(11) == 2048 && Pow2(12) == 4096
  {
    Pow2Values();
    assert Pow2(10) == 1024;
  }

  /** The code size is the least that can name the next entry, as long as there is one. */
  ghost predicate WidthFits(st: State) {
    && 0 < st.width <= 12
    && if st.entries < 4096 then Pow2(st.width - 1) <= st.entries < Pow2(st.width) else st.width == 12
  }

  function Extend(cs: nat, st: State, s: seq<byte>): seq<seq<byte>> {
    if |st.dict| < DictionaryLimit(cs) then st.dict + [s] else st.dict
  }

  /** One code; a decoder with a table of `table` entries gives up when it would need one more. */
  ghost function Step(cs: nat, st: State, code: nat, table: nat): (r: Outcome)
    requires Usable(cs, st)
    ensures r.Output? ==> Usable(cs, r.state)
  {
    var clear := Pow2(cs);
    if code == clear then Output(Initial(cs, true), [])
    else if code == clear + 1 then Stop
    else if !st.started then Illegal
    else if st.prev < 0 then
      if code < |st.dict| then Output(State(st.dict, code, Grow(st.entries, st.width), true, st.entries), st.dict[code])
      else Illegal
    else if st.entries >= table then Illegal
    else if code < |st.dict| then
      var dict := Extend(cs, st, st.dict[st.prev] + [st.dict[code][0]]);
      Output(State(dict, code, Grow(st.entries + 1, st.width), true, st.entries + 1), st.dict[code])
    else if code == |st.dict| < DictionaryLimit(cs) then
      var s := st.dict[st.prev] + [st.dict[st.prev][0]];
      Output(State(st.dict + [s], code, Grow(st.entries + 1, st.width), true, st.entries + 1), s)
    else Illegal
  }

  lemma InitialWidth(cs: nat, started: bool)
    requires 2 <= cs <= 11
    ensures WidthFits(Initial(cs, started))
  {
    hide Pow2;
    Pow2Monotone(2, cs);
    Pow2Monotone(cs + 1, 12);
    Pow2Values();
    Twelve();
    Pow2Step(cs);
  }

  /** Every code keeps it so, for the minimum code sizes that GIF89a allows. */
  lemma StepWidth(cs: nat, st: State, code: nat, table: nat)
    requires 2 <= cs <= 11 && Usable(cs, st) && WidthFits(st)
    requires Step(cs, st, code, table).Output?
    ensures WidthFits(Step(cs, st, code, table).state)
  {
    hide Pow2, Grow, Initial, Extend, Usable;
    InitialWidth(cs, true);
    Twelve();
    if st.width < 12 {
      Pow2Monotone(st.width, 11);
    }
    GrowKeeps(st.entries, st.width);
    GrowKeeps(st.entries + 1, st.width);
  }

  lemma GrowKeeps(size: nat, width: nat)
    requires 0 < width <= 12
    ensures (if size < 4096 then Pow2(width - 1) <= size <= Pow2(width) else width == 12) ==>
              var w := Grow(size, width);
              0 < w <= 12 && if size < 4096 then Pow2(w - 1) <= size < Pow2(w) else w == 12
  {
    hide Pow2, Low;
    Twelve();
    Pow2Step(width - 1);
    Pow2Step(width);
    if size < 4096 && Pow2(width - 1) <= size <= Pow2(width) {
      GrowIs(size, width);
    }
  }

  /** The indices decoded from bit p on, after `out`; None if the code stream is illegal. */
  ghost function Decode(cs: nat, payload: seq<byte>, p: nat, st: State, out: seq<byte>, table: nat): Option<seq<byte>>
    requires Usable(cs, st)
    decreases 8 * |payload| - p
  {
    if p + st.width > 8 * |payload| then Some(out)
    else
      match Step(cs, st, Field(payload, p, st.width), table)
      case Stop => Some(out)
      case Illegal => None
      case Output(st', s) => Decode(cs, payload, p + st.width, st', out + s, table)
  }

  lemma InitialUsable(cs: nat, started: bool)
    ensures Usable(cs, Initial(cs, started))
  {
  }

  /** The indices that the sub-blocks at p denote for minimum code size cs. */
  ghost function Indices(cs: nat, data: seq<byte>, p: nat, table: nat): Option<seq<byte>> {
    InitialUsable(cs, false);
    Decode(cs, Payload(data, p), 0, Initial(cs, false), [], table)
  }

  /** A larger table never changes what a code stream denotes; it only accepts more streams. */
  lemma {:induction false} LargerTable(cs: nat, payload: seq<byte>, p: nat, st: State, out: seq<byte>, table: nat, larger: nat)
    requires Usable(cs, st) && table <= larger
    requires Decode(cs, payload, p, st, out, table).Some?
    ensures Decode(cs, payload, p, st, out, larger) == Decode(cs, payload, p, st, out, table)
    decreases 8 * |payload| - p
  {
    hide Field, Pow2, Initial, Grow;
    if p + st.width <= 8 * |payload| {
      var r := Step(cs, st, Field(payload, p, st.width), table);
      if r.Output? {
        LargerTable(cs, payload, p + st.width, r.state, out + r.emit, table, larger);
      }
    }
  }

  /** A table with room for every code of the payload behaves like one without bound. */
  lemma {:induction false} TableEnough(cs: nat, payload: seq<byte>, p: nat, st: State, out: seq<byte>, table: nat, larger: nat)
    requires Usable(cs, st) && table <= larger
    requires Pow2(cs) + 2 <= table && st.entries <= table
    requires st.entries + (8 * |payload| - p) <= table && Pow2(cs) + 2 + (8 * |payload| - p) <= table
    ensures Decode(cs, payload, p, st, out, larger) == Decode(cs, payload, p, st, out, table)
    decreases 8 * |payload| - p
  {
    hide Field, Pow2, Grow;
    if p + st.width <= 8 * |payload| {
      var r := Step(cs, st, Field(payload, p, st.width), table);
      if r.Output? {
        TableEnough(cs, payload, p + st.width, r.state, out + r.emit, table, larger);
      }
    }
  }
}
