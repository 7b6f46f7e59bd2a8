/** Undoing scanline filters inside the output buffer. */
module PngRow {
  import opened Arith
  import opened Bits
  import opened PngSpec

  /**
   * Where a row's bytes go: `width` groups of `fb` bytes, one group every `ob` bytes, starting
   * `off` bytes into a row of `stride` bytes.
   */
  datatype Layout = Layout(width: nat, fb: nat, ob: nat, off: nat, stride: nat) {
    ghost predicate Valid() {
      0 < width && 0 < fb <= ob && off + width * ob <= stride
    }

    ghost function RowBytes(): nat {
      width * fb
    }
  }

  // ----- positions

  ghost function Place(l: Layout, base: int, i: int, d: int): int {
    base + i * l.ob + d
  }

  /** The position of byte t of the row. */
  ghost function Slot(l: Layout, base: int, t: nat): int
    requires 0 < l.fb
  {
    Place(l, base, t / l.fb, t % l.fb)
  }

  lemma PlaceBefore(l: Layout, base: int, i: int, d: int, i': int, d': int)
    requires 0 <= d < l.ob && 0 <= d' && (i < i' || (i == i' && d < d'))
    ensures Place(l, base, i, d) < Place(l, base, i', d')
  {
    if i < i' {
      MulLe(i + 1, i', l.ob);
    }
  }

  lemma SlotIsPlace(l: Layout, base: int, i: nat, d: nat)
    requires 0 < l.fb && d < l.fb
    ensures Slot(l, base, i * l.fb + d) == Place(l, base, i, d)
  {
    DivModUnique(i * l.fb + d, l.fb, i, d);
  }

  lemma SlotMonotone(l: Layout, base: int, t: nat, t': nat)
    requires 0 < l.fb <= l.ob && t < t'
    ensures Slot(l, base, t) < Slot(l, base, t')
  {
    hide Place;
    var i, i' := t / l.fb, t' / l.fb;
    if i' < i {
      MulLe(i' + 1, i, l.fb);
    }
    PlaceBefore(l, base, i, t % l.fb, i', t' % l.fb);
  }

  lemma SlotBound(l: Layout, base: int, t: nat)
    requires l.Valid() && t < l.RowBytes()
    ensures base <= Slot(l, base, t) < base + l.width * l.ob
  {
    GroupBound(t, l.fb, l.width);
    PlaceBound(l, base, t / l.fb, t % l.fb);
  }

  lemma GroupBound(t: nat, fb: nat, width: nat)
    requires 0 < fb && t < width * fb
    ensures 0 <= t / fb < width && 0 <= t % fb < fb
  {
    if t / fb >= width {
      MulLe(width, t / fb, fb);
    }
  }

  lemma PlaceBound(l: Layout, base: int, i: nat, d: nat)
    requires i < l.width && d < l.ob
    ensures base <= Place(l, base, i, d) < base + l.width * l.ob
  {
    MulLe(0, i, l.ob);
    MulLe(i + 1, l.width, l.ob);
  }

  lemma SlotBack(l: Layout, base: int, t: nat)
    requires 0 < l.fb <= l.ob && l.fb <= t
    ensures Slot(l, base, t - l.fb) == Slot(l, base, t) - l.ob
  {
    var i, d := t / l.fb, t % l.fb;
    assert t - l.fb == (i - 1) * l.fb + d;
    DivModUnique(t - l.fb, l.fb, i - 1, d);
  }

  lemma SlotShift(l: Layout, base: int, t: nat, rows: int)
    requires 0 < l.fb
    ensures Slot(l, base - rows, t) == Slot(l, base, t) - rows
  {
  }

  lemma SlotPlain(l: Layout, base: int, t: nat)
    requires 0 < l.fb == l.ob
    ensures Slot(l, base, t) == base + t
  {
  }

  lemma SlotFirst(l: Layout, base: int, t: nat)
    requires t < l.fb
    ensures Slot(l, base, t) == base + t
  {
    SlotIsPlace(l, base, 0, t);
  }

  /** The first n bytes of the row are in place. */
  ghost predicate Filled(s: seq<byte>, l: Layout, base: int, row: seq<byte>, n: nat) {
    && 0 < l.fb && n <= |row|
    && forall t :: 0 <= t < n ==> 0 <= Slot(l, base, t) < |s| && s[Slot(l, base, t)] == row[t]
  }

  ghost function AlphaPlace(l: Layout, base: int, c: nat, i: nat): int {
    Place(l, base, i, l.fb + c)
  }

  /** Alpha byte c of the first n pixels is 255. */
  ghost predicate Opaque(s: seq<byte>, l: Layout, base: int, c: nat, n: nat) {
    forall i :: 0 <= i < n ==> 0 <= AlphaPlace(l, base, c, i) < |s| && s[AlphaPlace(l, base, c, i)] == 255
  }

  /** Only positions from lo up to hi differ. */
  ghost predicate SameOutside(s: seq<byte>, s': seq<byte>, lo: int, hi: int) {
    |s| == |s'| && forall q :: 0 <= q < |s| && !(lo <= q < hi) ==> s'[q] == s[q]
  }

  lemma FilledKept(s: seq<byte>, s': seq<byte>, l: Layout, base: int, row: seq<byte>, n: nat, lo: int, hi: int)
    requires Filled(s, l, base, row, n) && l.Valid() && n <= l.RowBytes()
    requires base + l.width * l.ob <= lo || hi <= base
    requires SameOutside(s, s', lo, hi)
    ensures Filled(s', l, base, row, n)
  {
    hide Slot;
    forall t | 0 <= t < n
      ensures 0 <= Slot(l, base, t) < |s'| && s'[Slot(l, base, t)] == row[t]
    {
      SlotBound(l, base, t);
    }
  }

  // ----- the switch statements

  const AVG_FIRST := 5
  const PAETH_FIRST := 6

  /** The filter used on the first row, so that no row above it is read. */
  function FirstRowFilter(filter: nat): nat
    requires filter <= 4
  {
    [0, 1, 0, AVG_FIRST, PAETH_FIRST][filter]
  }

  predicate UsesPrior(filter: nat) {
    filter == 2 || filter == 3 || filter == 4
  }

  /** The bytes of a row's first pixel have no left neighbour. */
  function FirstByte(filter: nat, v: byte, up: byte): byte {
    if filter == 2 then Plus(v, up)
    else if filter == 3 then Plus(v, up / 2)
    else if filter == 4 then Plus(v, Paeth(0, up, 0))
    else v
  }

  function NextByte(filter: nat, v: byte, left: byte, up: byte, corner: byte): byte {
    if filter == 0 then v
    else if filter == 1 then Plus(v, left)
    else if filter == 2 then Plus(v, up)
    else if filter == 3 then Plus(v, Average(up, left))
    else if filter == 4 then Plus(v, Paeth(left, up, corner))
    else if filter == AVG_FIRST then Plus(v, left / 2)
    else Plus(v, Paeth(left, 0, 0))
  }

  /** Every filter, on a first pixel, is the ordinary one with nothing to the left. */
  lemma FirstByteIsOrdinary(filter: nat, v: byte, up: byte)
    requires filter <= 4
    ensures FirstByte(filter, v, up) == Plus(v, Predict(filter, 0, up, 0))
    ensures FirstByte(FirstRowFilter(filter), v, up) == Plus(v, Predict(filter, 0, 0, 0))
  {
  }

  /** The synthetic first-row filters are the ordinary ones below a row of zeros. */
  lemma FirstRowIsOrdinary(filter: nat, v: byte, left: byte, up: byte, corner: byte)
    requires filter <= 4
    ensures NextByte(filter, v, left, up, corner) == Plus(v, Predict(filter, left, up, corner))
    ensures NextByte(FirstRowFilter(filter), v, left, up, corner) == Plus(v, Predict(filter, left, 0, 0))
  {
    hide Paeth;
  }

  // ----- one row

  /** The row being decoded: its filter, the row above (none for the first), and its encoded bytes. */
  datatype Job = Job(filter: nat, prior: seq<byte>, enc: seq<byte>) {
    ghost function Row(l: Layout): seq<byte> {
      UnfilterRow(filter, l.fb, prior, enc)
    }

    function Switch(): nat
      requires filter <= 4
    {
      if prior == [] then FirstRowFilter(filter) else filter
    }

    ghost predicate Ready(l: Layout, out: seq<byte>, base: int) {
      && l.Valid() && filter <= 4 && |enc| == l.RowBytes()
      && 0 <= base && base + l.width * l.ob <= |out|
      && (prior != [] ==> |prior| == l.RowBytes() && Filled(out, l, base - l.stride, prior, l.RowBytes()))
    }
  }

  /** The byte that the row above contributes at position t. */
  lemma PriorByte(l: Layout, out: seq<byte>, base: int, job: Job, t: nat)
    requires job.Ready(l, out, base) && job.prior != [] && t < l.RowBytes()
    ensures 0 <= Slot(l, base, t) - l.stride < |out|
    ensures out[Slot(l, base, t) - l.stride] == At(job.prior, t)
  {
    SlotShift(l, base, t, l.stride);
  }

  lemma ReadyKept(l: Layout, out: seq<byte>, out': seq<byte>, base: int, job: Job)
    requires job.Ready(l, out, base) && SameOutside(out, out', base, |out|)
    ensures job.Ready(l, out', base)
  {
    if job.prior != [] {
      FilledKept(out, out', l, base - l.stride, job.prior, l.RowBytes(), base, |out|);
    }
  }

  /** The first pixel of a row. */
  method FirstPixel(raw: seq<byte>, r: nat, out: array<byte>, l: Layout, cur: nat, filter: nat, ghost job: Job)
    requires job.Ready(l, out[..], cur) && filter == job.Switch()
    requires r + |job.enc| <= |raw| && raw[r..r + |job.enc|] == job.enc
    modifies out
    ensures job.Ready(l, out[..], cur) && Filled(out[..], l, cur, job.Row(l), l.fb)
    ensures SameOutside(old(out[..]), out[..], cur, cur + l.fb)
  {
    hide Slot, UnfilterRow, FirstByte, Plus, Predict, FirstRowFilter, Filled;
    MulLe(1, l.width, l.fb);
    MulLe(1, l.width, l.ob);
    FilledNone(out[..], l, cur, job.Row(l));
    var k := 0;
    while k < l.fb
      invariant 0 <= k <= l.fb
      invariant job.Ready(l, out[..], cur)
      invariant Filled(out[..], l, cur, job.Row(l), k)
      invariant SameOutside(old(out[..]), out[..], cur, cur + l.fb)
    {
      FirstValue(l, out[..], cur, job, k);
      SlotFirst(l, cur, k);
      assert raw[r + k] == raw[r..r + |job.enc|][k] == job.enc[k];
      ghost var before := out[..];
      var up: byte := if UsesPrior(filter) then out[cur + k - l.stride] else 0;
      out[cur + k] := FirstByte(filter, raw[r + k], up);
      assert out[..] == before[cur + k := job.Row(l)[k]];
      Extend(l, before, out[..], cur, job, k);
      k := k + 1;
    }
  }

  lemma FilledNone(s: seq<byte>, l: Layout, base: int, row: seq<byte>)
    requires 0 < l.fb
    ensures Filled(s, l, base, row, 0)
  {
  }

  /** What the switch for a first pixel computes. */
  lemma FirstValue(l: Layout, out: seq<byte>, base: int, job: Job, k: nat)
    requires job.Ready(l, out, base) && k < l.fb && l.fb <= l.RowBytes()
    ensures job.prior != [] ==> 0 <= base + k - l.stride < |out|
    ensures UsesPrior(job.Switch()) ==> job.prior != []
    ensures var up: byte := if UsesPrior(job.Switch()) then out[base + k - l.stride] else 0;
            job.Row(l)[k] == FirstByte(job.Switch(), job.enc[k], up)
  {
    hide Slot, UnfilterRow, Plus, Predict;
    UnfilterAt(job.filter, l.fb, job.prior, job.enc, k);
    SlotFirst(l, base, k);
    if job.prior != [] {
      PriorByte(l, out, base, job, k);
    }
    FirstByteIsOrdinary(job.filter, job.enc[k], At(job.prior, k));
  }

  /** One more byte of the row is in place. */
  lemma Extend(l: Layout, out: seq<byte>, out': seq<byte>, base: int, job: Job, t: nat)
    requires job.Ready(l, out, base) && t < l.RowBytes()
    requires Filled(out, l, base, job.Row(l), t)
    requires 0 <= Slot(l, base, t) < |out|
    requires out' == out[Slot(l, base, t) := job.Row(l)[t]]
    ensures job.Ready(l, out', base) && Filled(out', l, base, job.Row(l), t + 1)
  {
    hide Slot, UnfilterRow;
    SlotBound(l, base, t);
    ReadyKept(l, out, out', base, job);
    forall s | 0 <= s < t
      ensures out'[Slot(l, base, s)] == job.Row(l)[s]
    {
      SlotMonotone(l, base, s, t);
    }
  }

  /** What the per-byte switch computes after the first pixel. */
  lemma NextValue(l: Layout, out: seq<byte>, base: int, job: Job, t: nat)
    requires job.Ready(l, out, base) && l.fb <= t < l.RowBytes()
    requires Filled(out, l, base, job.Row(l), t)
    ensures base <= Slot(l, base, t) - l.ob && Slot(l, base, t) < |out|
    ensures UsesPrior(job.Switch()) ==> 0 <= Slot(l, base, t) - l.stride - l.ob && Slot(l, base, t) - l.stride < |out|
    ensures var p := Slot(l, base, t);
            var prior := UsesPrior(job.Switch());
            var up: byte := if prior then out[p - l.stride] else 0;
            var corner: byte := if prior then out[p - l.stride - l.ob] else 0;
            job.Row(l)[t] == NextByte(job.Switch(), job.enc[t], out[p - l.ob], up, corner)
  {
    hide Slot, UnfilterRow, Plus, Predict;
    UnfilterAt(job.filter, l.fb, job.prior, job.enc, t);
    SlotBound(l, base, t);
    SlotBound(l, base, t - l.fb);
    SlotBack(l, base, t);
    var left := At(job.Row(l), t - l.fb);
    if job.prior != [] {
      PriorByte(l, out, base, job, t);
      PriorByte(l, out, base, job, t - l.fb);
    }
    FirstRowIsOrdinary(job.filter, job.enc[t], left, At(job.prior, t), At(job.prior, t - l.fb));
    FirstRowIsOrdinary(job.filter, job.enc[t], left, 0, 0);
  }

  /** One step of either inner loop: byte t of the row, at position `pos`. */
  method PutNext(v: byte, out: array<byte>, l: Layout, pos: nat, filter: nat, ghost base: int, ghost job: Job, ghost t: nat)
    requires job.Ready(l, out[..], base) && filter == job.Switch()
    requires l.fb <= t < l.RowBytes() && v == job.enc[t] && pos == Slot(l, base, t)
    requires Filled(out[..], l, base, job.Row(l), t)
    modifies out
    ensures job.Ready(l, out[..], base) && Filled(out[..], l, base, job.Row(l), t + 1)
    ensures pos < out.Length && out[..] == old(out[..])[pos := job.Row(l)[t]]
  {
    hide Slot, UnfilterRow, NextByte, FirstRowFilter, Filled;
    NextValue(l, out[..], base, job, t);
    var up: byte := if UsesPrior(filter) then out[pos - l.stride] else 0;
    var corner: byte := if UsesPrior(filter) then out[pos - l.stride - l.ob] else 0;
    out[pos] := NextByte(filter, v, out[pos - l.ob], up, corner);
    Extend(l, old(out[..]), out[..], base, job, t);
  }

  /** The rest of a row whose pixels are contiguous. */
  method PlainRow(raw: seq<byte>, r: nat, out: array<byte>, l: Layout, cur: nat, filter: nat, ghost job: Job)
    requires job.Ready(l, out[..], cur) && filter == job.Switch() && l.fb == l.ob
    requires r + |job.enc| <= |raw| && raw[r..r + |job.enc|] == job.enc
    requires Filled(out[..], l, cur, job.Row(l), l.fb)
    modifies out
    ensures job.Ready(l, out[..], cur) && Filled(out[..], l, cur, job.Row(l), l.RowBytes())
    ensures SameOutside(old(out[..]), out[..], cur, cur + l.width * l.ob)
  {
    hide Slot, UnfilterRow, Place, FirstRowFilter, Filled;
    MulLe(1, l.width, l.fb);
    assert (l.width - 1) * l.fb == l.width * l.fb - l.fb;
    var nk := (l.width - 1) * l.fb;
    var k := 0;
    while k < nk
      invariant 0 <= k <= nk
      invariant job.Ready(l, out[..], cur)
      invariant Filled(out[..], l, cur, job.Row(l), l.fb + k)
      invariant SameOutside(old(out[..]), out[..], cur, cur + l.width * l.ob)
    {
      var t := l.fb + k;
      SlotPlain(l, cur, t);
      assert raw[r + t] == raw[r..r + |job.enc|][t] == job.enc[t];
      PutNext(raw[r + t], out, l, cur + t, filter, cur, job, t);
      k := k + 1;
    }
  }

  // ----- rows that gain an alpha channel

  lemma AlphaNotSlot(l: Layout, base: int, c: nat, i: nat, t: nat)
    requires 0 < l.fb && l.fb + c < l.ob
    ensures AlphaPlace(l, base, c, i) != Slot(l, base, t)
  {
    hide Place;
    var i', d := t / l.fb, t % l.fb;
    if i < i' {
      PlaceBefore(l, base, i, l.fb + c, i', d);
    } else {
      PlaceBefore(l, base, i', d, i, l.fb + c);
    }
  }

  lemma AlphaBound(l: Layout, base: int, c: nat, i: nat)
    requires l.Valid() && l.fb + c < l.ob && i < l.width
    ensures base <= AlphaPlace(l, base, c, i) < base + l.width * l.ob
  {
    PlaceBound(l, base, i, l.fb + c);
  }

  /** Storing a sample leaves alpha alone. */
  lemma OpaqueKept(s: seq<byte>, l: Layout, base: int, c: nat, n: nat, t: nat, v: byte)
    requires Opaque(s, l, base, c, n) && 0 < l.fb && l.fb + c < l.ob && 0 <= Slot(l, base, t) < |s|
    ensures Opaque(s[Slot(l, base, t) := v], l, base, c, n)
  {
    hide Slot, AlphaPlace;
    forall i | 0 <= i < n
      ensures AlphaPlace(l, base, c, i) != Slot(l, base, t)
    {
      AlphaNotSlot(l, base, c, i, t);
    }
  }

  /** Storing one alpha byte leaves every sample and the other alpha bytes alone. */
  lemma AlphaPut(s: seq<byte>, s': seq<byte>, l: Layout, base: int, c: nat, i: nat)
    requires l.fb + c < l.ob && 0 <= AlphaPlace(l, base, c, i) < |s|
    requires s' == s[AlphaPlace(l, base, c, i) := 255]
    ensures forall row, n :: Filled(s, l, base, row, n) ==> Filled(s', l, base, row, n)
    ensures forall c', n | l.fb + c' < l.ob && Opaque(s, l, base, c', n) :: Opaque(s', l, base, c', n)
    ensures Opaque(s, l, base, c, i) ==> Opaque(s', l, base, c, i + 1)
  {
    hide Slot, AlphaPlace;
    forall row, n: nat | Filled(s, l, base, row, n)
      ensures Filled(s', l, base, row, n)
    {
      forall t | 0 <= t < n
        ensures s'[Slot(l, base, t)] == row[t]
      {
        AlphaNotSlot(l, base, c, i, t);
      }
    }
    forall c', n | l.fb + c' < l.ob && Opaque(s, l, base, c', n)
      ensures Opaque(s', l, base, c', n)
    {
    }
  }

  /** The rest of a row that gets an alpha byte after each pixel. */
  method AlphaRow(raw: seq<byte>, r: nat, out: array<byte>, l: Layout, cur: nat, filter: nat, ghost job: Job)
    requires job.Ready(l, out[..], cur) && filter == job.Switch() && l.fb < l.ob
    requires r + |job.enc| <= |raw| && raw[r..r + |job.enc|] == job.enc
    requires Filled(out[..], l, cur, job.Row(l), l.fb) && Opaque(out[..], l, cur, 0, 1)
    modifies out
    ensures job.Ready(l, out[..], cur) && Filled(out[..], l, cur, job.Row(l), l.RowBytes())
    ensures Opaque(out[..], l, cur, 0, l.width)
    ensures SameOutside(old(out[..]), out[..], cur, cur + l.width * l.ob)
  {
    hide Slot, UnfilterRow, AlphaPlace, FirstRowFilter, Filled, Opaque;
    var i := l.width - 1;
    var p := 1;
    var at, from := cur + l.ob, r + l.fb;
    while i >= 1
      invariant 0 <= i && p == l.width - i
      invariant at == Place(l, cur, p, 0) && from == r + p * l.fb
      invariant job.Ready(l, out[..], cur)
      invariant Filled(out[..], l, cur, job.Row(l), p * l.fb) && Opaque(out[..], l, cur, 0, p)
      invariant SameOutside(old(out[..]), out[..], cur, cur + l.width * l.ob)
    {
      AlphaPixel(raw, r, from, out, l, cur, at, filter, job, p);
      i, p := i - 1, p + 1;
      from, at := from + l.fb, at + l.ob;
    }
  }

  /** One pixel and its alpha byte. */
  method AlphaPixel(raw: seq<byte>, ghost r: nat, from: nat, out: array<byte>, l: Layout, ghost base: nat, at: nat, filter: nat, ghost job: Job, ghost p: nat)
    requires job.Ready(l, out[..], base) && filter == job.Switch() && l.fb < l.ob
    requires r + |job.enc| <= |raw| && raw[r..r + |job.enc|] == job.enc
    requires 1 <= p < l.width && at == Place(l, base, p, 0) && from == r + p * l.fb
    requires Filled(out[..], l, base, job.Row(l), p * l.fb) && Opaque(out[..], l, base, 0, p)
    modifies out
    ensures job.Ready(l, out[..], base)
    ensures Filled(out[..], l, base, job.Row(l), (p + 1) * l.fb) && Opaque(out[..], l, base, 0, p + 1)
    ensures SameOutside(old(out[..]), out[..], base, base + l.width * l.ob)
  {
    hide Slot, UnfilterRow, AlphaPlace, FirstRowFilter, Filled, Opaque;
    MulLe(1, p, l.fb);
    MulLe(p + 1, l.width, l.fb);
    assert (p + 1) * l.fb == p * l.fb + l.fb;
    var k := 0;
    while k < l.fb
      invariant 0 <= k <= l.fb
      invariant job.Ready(l, out[..], base)
      invariant Filled(out[..], l, base, job.Row(l), p * l.fb + k) && Opaque(out[..], l, base, 0, p)
      invariant SameOutside(old(out[..]), out[..], base, base + l.width * l.ob)
    {
      ghost var t := p * l.fb + k;
      SlotIsPlace(l, base, p, k);
      SlotBound(l, base, t);
      assert raw[from + k] == raw[r..r + |job.enc|][t] == job.enc[t];
      OpaqueKept(out[..], l, base, 0, p, t, job.Row(l)[t]);
      PutNext(raw[from + k], out, l, at + k, filter, base, job, t);
      k := k + 1;
    }
    PutAlpha(out, l, base, at, 0, job, p);
  }

  /** Stores alpha byte c of pixel p. */
  method PutAlpha(out: array<byte>, l: Layout, ghost base: nat, at: nat, c: nat, ghost job: Job, ghost p: nat)
    requires job.Ready(l, out[..], base) && l.fb + c < l.ob
    requires p < l.width && at == Place(l, base, p, 0) && Opaque(out[..], l, base, c, p)
    modifies out
    ensures job.Ready(l, out[..], base) && Opaque(out[..], l, base, c, p + 1)
    ensures forall row, n :: Filled(old(out[..]), l, base, row, n) ==> Filled(out[..], l, base, row, n)
    ensures forall c', n | l.fb + c' < l.ob && Opaque(old(out[..]), l, base, c', n) :: Opaque(out[..], l, base, c', n)
    ensures SameOutside(old(out[..]), out[..], base, base + l.width * l.ob)
  {
    AlphaBound(l, base, c, p);
    assert AlphaPlace(l, base, c, p) == at + l.fb + c;
    hide Slot, AlphaPlace, Place, Filled, Opaque;
    out[at + l.fb + c] := 255;
    AlphaPut(old(out[..]), out[..], l, base, c, p);
    ReadyKept(l, old(out[..]), out[..], base, job);
  }

  /** A decoded row: its samples, and 255 in each of its alpha bytes. */
  ghost predicate Held(s: seq<byte>, l: Layout, base: int, row: seq<byte>) {
    && |row| == l.RowBytes() && Filled(s, l, base, row, l.RowBytes())
    && forall c: nat | l.fb + c < l.ob :: Opaque(s, l, base, c, l.width)
  }

  /** The low alpha byte of every pixel of a 16-bit row. */
  method LowAlpha(out: array<byte>, l: Layout, cur: nat, ghost job: Job)
    requires job.Ready(l, out[..], cur) && l.fb + 1 < l.ob
    modifies out
    ensures job.Ready(l, out[..], cur) && Opaque(out[..], l, cur, 1, l.width)
    ensures forall row, n :: Filled(old(out[..]), l, cur, row, n) ==> Filled(out[..], l, cur, row, n)
    ensures forall n :: Opaque(old(out[..]), l, cur, 0, n) ==> Opaque(out[..], l, cur, 0, n)
    ensures SameOutside(old(out[..]), out[..], cur, cur + l.width * l.ob)
  {
    hide Slot, AlphaPlace, UnfilterRow, Filled;
    var i, at := 0, cur;
    assert Opaque(out[..], l, cur, 1, 0);
    hide Opaque;
    while i < l.width
      invariant 0 <= i <= l.width && at == Place(l, cur, i, 0)
      invariant job.Ready(l, out[..], cur) && Opaque(out[..], l, cur, 1, i)
      invariant forall row, n :: Filled(old(out[..]), l, cur, row, n) ==> Filled(out[..], l, cur, row, n)
      invariant forall n :: Opaque(old(out[..]), l, cur, 0, n) ==> Opaque(out[..], l, cur, 0, n)
      invariant SameOutside(old(out[..]), out[..], cur, cur + l.width * l.ob)
    {
      PutAlpha(out, l, cur, at, 1, job, i);
      i, at := i + 1, at + l.ob;
    }
  }

  /** One row of the main loop, the switch on the filter included. */
  method DecodeRow(raw: seq<byte>, r: nat, out: array<byte>, l: Layout, cur: nat, filter: nat, ghost job: Job)
    requires job.Ready(l, out[..], cur) && filter == job.Switch() && l.ob <= l.fb + 2
    requires r + |job.enc| <= |raw| && raw[r..r + |job.enc|] == job.enc
    modifies out
    ensures Held(out[..], l, cur, job.Row(l))
    ensures SameOutside(old(out[..]), out[..], cur, cur + l.width * l.ob)
  {
    hide Slot, UnfilterRow, AlphaPlace, FirstRowFilter, Filled, Opaque;
    MulLe(1, l.width, l.ob);
    FirstPixel(raw, r, out, l, cur, filter, job);
    if l.fb == l.ob {
      PlainRow(raw, r, out, l, cur, filter, job);
    } else {
      OpaqueNone(out[..], l, cur);
      PutAlpha(out, l, cur, cur, 0, job, 0);
      if l.ob == l.fb + 2 {
        PutAlpha(out, l, cur, cur, 1, job, 0);
      }
      AlphaRow(raw, r, out, l, cur, filter, job);
      if l.ob == l.fb + 2 {
        LowAlpha(out, l, cur, job);
      }
    }
  }

  lemma OpaqueNone(s: seq<byte>, l: Layout, base: int)
    ensures forall c: nat :: Opaque(s, l, base, c, 0)
  {
  }
}
