/** The byte region of an array layout: one row per slot, one behind the other, and what copies into
  the region change. */
module Regions {
  import opened Bytes
  import opened Slots
  import opened Tables
  import opened Patches
  import opened TableOps

  // ---- Region ----

  lemma {:induction false} SlotInside(s: nat, n: nat, width: nat)
    requires s < n
    ensures s * width + width <= n * width
  {
    if n == s + 1 {
    } else {
      SlotInside(s, n - 1, width);
    }
  }

  predicate Region(data: Buf, width: nat) {
    MAX_OBJ_NUM * width <= |data|
  }

  function RowAt(data: Buf, width: nat, s: nat): (row: Buf)
    requires Region(data, width) && s < MAX_OBJ_NUM
    ensures |row| == width
  {
    SlotInside(s, MAX_OBJ_NUM, width);
    data[s * width..s * width + width]
  }

  /** The bytes behind the last row. */
  function Tail(data: Buf, width: nat): Buf
    requires Region(data, width)
  {
    data[MAX_OBJ_NUM * width..]
  }

  function LiveRows(bits: bv32, data: Buf, width: nat): (rows: map<nat, Buf>)
    requires Region(data, width)
    ensures Tables.Width(rows, width)
  {
    map s | s in BitSet(bits) && s < MAX_OBJ_NUM :: RowAt(data, width, s)
  }

  /** Nothing but the rows of `slots` differs between two states of the region. */
  ghost predicate OnlyRows(was: Buf, now: Buf, width: nat, slots: set<nat>)
    requires Region(was, width) && Region(now, width)
  {
    && |was| == |now|
    && Tail(was, width) == Tail(now, width)
    && forall s: nat :: s < MAX_OBJ_NUM && s !in slots ==> RowAt(was, width, s) == RowAt(now, width, s)
  }

  lemma RowColumn(data: Buf, width: nat, s: nat, loc: nat, n: nat)
    requires Region(data, width) && s < MAX_OBJ_NUM && loc + n <= width
    ensures s * width + loc + n <= |data|
    ensures RowAt(data, width, s)[loc..loc + n] == data[s * width + loc..s * width + loc + n]
  {
    SlotInside(s, MAX_OBJ_NUM, width);
    SliceOfSlice(data, s * width, width, loc, n);
  }

  /** The next condition, evaluated where the row lies in the region. */
  lemma HitsStepAt(data: Buf, width: nat, slot: nat, sel: Comparable, n: nat)
    requires Region(data, width) && slot < MAX_OBJ_NUM && Comparables(sel, width) && n < |sel|
    ensures var c, at := sel[n], slot * width + sel[n].col.loc;
      && at + c.col.typsz <= |data| && c.col.typsz <= |c.val|
      && Hits(RowAt(data, width, slot), sel, n + 1) == Hits(RowAt(data, width, slot), sel, n) +
        if c.val[..c.col.typsz] == data[at..at + c.col.typsz] then 1 else 0
  {
    hide RowAt, Region, Hits;
    var c := sel[n];
    assert c in sel;
    RowColumn(data, width, slot, c.col.loc, c.col.typsz);
    HitsStep(RowAt(data, width, slot), sel, n);
  }

  lemma SliceOfSlice(b: Buf, at: nat, width: nat, loc: nat, n: nat)
    requires at + width <= |b| && loc + n <= width
    ensures b[at..at + width][loc..loc + n] == b[at + loc..at + loc + n]
  {
    var x, y := b[at..at + width][loc..loc + n], b[at + loc..at + loc + n];
    assert forall k :: 0 <= k < n ==> x[k] == y[k];
  }

  lemma LiveAt(bits: bv32, data: Buf, width: nat, s: nat)
    requires Region(data, width) && s < MAX_OBJ_NUM
    ensures s in LiveRows(bits, data, width) <==> s in BitSet(bits)
    ensures s in BitSet(bits) ==> LiveRows(bits, data, width)[s] == RowAt(data, width, s)
  {
  }

  lemma RowInPlace(data: Buf, width: nat, s: nat)
    requires Region(data, width) && s < MAX_OBJ_NUM
    ensures s * width + width <= |data| && Splice(data, s * width, RowAt(data, width, s)) == data
  {
    SlotInside(s, MAX_OBJ_NUM, width);
  }

  lemma SpliceElsewhere(b: Buf, at: nat, x: Buf, from: nat, to: nat)
    requires at + |x| <= |b| && from <= to <= |b| && (to <= at || at + |x| <= from)
    ensures Splice(b, at, x)[from..to] == b[from..to]
  {
  }

  lemma SpliceThere(b: Buf, at: nat, x: Buf)
    requires at + |x| <= |b|
    ensures Splice(b, at, x)[at..at + |x|] == x
  {
  }

  lemma OtherRow(data: Buf, width: nat, s: nat, row: Buf, k: nat)
    requires Region(data, width) && s < MAX_OBJ_NUM && |row| == width && s * width + width <= |data|
    requires k < MAX_OBJ_NUM && k != s
    ensures RowAt(Splice(data, s * width, row), width, k) == RowAt(data, width, k)
  {
    hide Splice;
    SlotInside(k, MAX_OBJ_NUM, width);
    if k < s {
      SlotInside(k, s, width);
    } else {
      SlotInside(s, k, width);
    }
    SpliceElsewhere(data, s * width, row, k * width, k * width + width);
  }

  /** Overwriting one row leaves every other row and the tail alone. */
  lemma WriteRow(data: Buf, width: nat, s: nat, row: Buf)
    requires Region(data, width) && s < MAX_OBJ_NUM && |row| == width
    ensures s * width + width <= |data|
    ensures var now := Splice(data, s * width, row);
      RowAt(now, width, s) == row && OnlyRows(data, now, width, {s})
  {
    hide Splice;
    SlotInside(s, MAX_OBJ_NUM, width);
    var at, now := s * width, Splice(data, s * width, row);
    SpliceThere(data, at, row);
    SpliceElsewhere(data, at, row, MAX_OBJ_NUM * width, |data|);
    forall k: nat | k < MAX_OBJ_NUM && k != s ensures RowAt(data, width, k) == RowAt(now, width, k) {
      OtherRow(data, width, s, row, k);
    }
  }

  /** The rows and the bytes behind them are the whole region. */
  lemma SameRows(a: Buf, b: Buf, width: nat)
    requires Region(a, width) && Region(b, width) && |a| == |b| && Tail(a, width) == Tail(b, width)
    requires forall s: nat :: s < MAX_OBJ_NUM ==> RowAt(a, width, s) == RowAt(b, width, s)
    ensures a == b
  {
    SameFront(a, b, width, MAX_OBJ_NUM);
    assert a == a[..MAX_OBJ_NUM * width] + Tail(a, width);
    assert b == b[..MAX_OBJ_NUM * width] + Tail(b, width);
  }

  lemma {:induction false} SameFront(a: Buf, b: Buf, width: nat, n: nat)
    requires Region(a, width) && Region(b, width) && n <= MAX_OBJ_NUM
    requires forall s: nat :: s < MAX_OBJ_NUM ==> RowAt(a, width, s) == RowAt(b, width, s)
    ensures n * width <= |a| && n * width <= |b| && a[..n * width] == b[..n * width]
  {
    if n == 0 {
    } else {
      SameFront(a, b, width, n - 1);
      SlotInside(n - 1, MAX_OBJ_NUM, width);
      assert n * width == (n - 1) * width + width;
      assert RowAt(a, width, n - 1) == RowAt(b, width, n - 1);
      LongerFront(a, b, (n - 1) * width, width);
    }
  }

  lemma LongerFront(a: Buf, b: Buf, at: nat, n: nat)
    requires at + n <= |a| && at + n <= |b| && a[..at] == b[..at] && a[at..at + n] == b[at..at + n]
    ensures a[..at + n] == b[..at + n]
  {
    assert a[..at + n] == a[..at] + a[at..at + n];
    assert b[..at + n] == b[..at] + b[at..at + n];
  }

  lemma SpliceMore(b: Buf, at: nat, x: Buf, y: Buf)
    requires at + |x| + |y| <= |b|
    ensures Splice(Splice(b, at, x), at + |x|, y) == Splice(b, at, x + y)
  {
  }

  lemma SpliceNothing(b: Buf, at: nat)
    requires at <= |b|
    ensures Splice(b, at, []) == b
  {
  }

  lemma SpliceInside(b: Buf, at: nat, row: Buf, loc: nat, x: Buf)
    requires at + |row| <= |b| && loc + |x| <= |row|
    ensures Splice(Splice(b, at, row), at + loc, x) == Splice(b, at, Splice(row, loc, x))
  {
  }

  // ---- The table behind a region ----

  lemma LiveOn(bits: bv32, bits': bv32, was: Buf, now: Buf, width: nat, slot: nat, row: Buf)
    requires Region(was, width) && Region(now, width) && slot < MAX_OBJ_NUM
    requires BitSet(bits') == BitSet(bits) + {slot}
    requires RowAt(now, width, slot) == row && OnlyRows(was, now, width, {slot})
    ensures LiveRows(bits', now, width) == LiveRows(bits, was, width)[slot := row]
  {
  }

  lemma LiveOffAll(bits: bv32, data: Buf, width: nat, t: Table, slots: seq<nat>, i: nat)
    requires Region(data, width) && i < |slots|
    requires LiveRows(bits, data, width) == Release(t, slots, i).rows
    ensures forall bits' :: BitSet(bits') == BitSet(bits) - {slots[i]} ==>
      Table(LiveRows(bits', data, width), Release(t, slots, i).free + [slots[i]]) == Release(t, slots, i + 1)
  {
    hide BitSet, RowAt, LiveRows, Release, Region;
    forall bits' | BitSet(bits') == BitSet(bits) - {slots[i]}
      ensures Table(LiveRows(bits', data, width), Release(t, slots, i).free + [slots[i]]) == Release(t, slots, i + 1)
    {
      LiveOff(bits, bits', data, width, t, slots, i);
    }
  }

  lemma LiveOff(bits: bv32, bits': bv32, data: Buf, width: nat, t: Table, slots: seq<nat>, i: nat)
    requires Region(data, width) && i < |slots|
    requires BitSet(bits') == BitSet(bits) - {slots[i]}
    requires LiveRows(bits, data, width) == Release(t, slots, i).rows
    ensures Table(LiveRows(bits', data, width), Release(t, slots, i).free + [slots[i]]) == Release(t, slots, i + 1)
  {
    hide BitSet, RowAt;
    assert slots[..i + 1] == slots[..i] + [slots[i]];
    assert forall s: nat :: s in slots[..i + 1] <==> s in slots[..i] || s == slots[i];
    assert LiveRows(bits', data, width).Keys == LiveRows(bits, data, width).Keys - {slots[i]};
  }

  ghost predicate Patched(was: Buf, now: Buf, width: nat, sel: Comparable, bufs: seq<Buf>, slots: seq<nat>)
    requires Region(was, width) && Region(now, width) && Comparables(sel, width) && Updates(sel, bufs, width)
  {
    && OnlyRows(was, now, width, Elements(slots))
    && forall s <- slots :: s < MAX_OBJ_NUM ==> RowAt(now, width, s) == Patch(RowAt(was, width, s), sel, bufs, |sel|)
  }

  lemma PatchedMore(was: Buf, mid: Buf, now: Buf, width: nat, sel: Comparable, bufs: seq<Buf>, done: seq<nat>, s: nat)
    requires Region(was, width) && Region(mid, width) && Region(now, width)
    requires Comparables(sel, width) && Updates(sel, bufs, width)
    requires Patched(was, mid, width, sel, bufs, done) && s !in done && s < MAX_OBJ_NUM
    requires OnlyRows(mid, now, width, {s})
    requires RowAt(now, width, s) == Patch(RowAt(mid, width, s), sel, bufs, |sel|)
    ensures Patched(was, now, width, sel, bufs, done + [s])
  {
  }

  lemma RowPatched(bits: bv32, was: Buf, now: Buf, width: nat, sel: Comparable, bufs: seq<Buf>, slots: seq<nat>, s: nat)
    requires Region(was, width) && Region(now, width) && Comparables(sel, width) && Updates(sel, bufs, width)
    requires slots == Selected(LiveRows(bits, was, width), sel, width, MIN_BIT)
    requires Patched(was, now, width, sel, bufs, slots)
    requires s in LiveRows(bits, was, width)
    ensures s in LiveRows(bits, now, width)
    ensures LiveRows(bits, now, width)[s] == Updated(LiveRows(bits, was, width)[s], sel, bufs)
  {
    SelectedExactly(LiveRows(bits, was, width), sel, width, MIN_BIT);
    hide BitSet, RowAt, Selected, Matches, Patch, Region;
  }

  lemma SameKeys(bits: bv32, was: Buf, now: Buf, width: nat)
    requires Region(was, width) && Region(now, width)
    ensures LiveRows(bits, was, width).Keys == LiveRows(bits, now, width).Keys
  {
    hide RowAt, BitSet;
  }

  lemma LivePatched(bits: bv32, was: Buf, now: Buf, width: nat, sel: Comparable, bufs: seq<Buf>, slots: seq<nat>,
                    free: seq<nat>)
    requires Region(was, width) && Region(now, width) && Comparables(sel, width) && Updates(sel, bufs, width)
    requires slots == Selected(LiveRows(bits, was, width), sel, width, MIN_BIT)
    requires Patched(was, now, width, sel, bufs, slots)
    ensures Table(LiveRows(bits, now, width), free) ==
      UpdateRows(Table(LiveRows(bits, was, width), free), sel, bufs, width)
  {
    hide LiveRows, Selected, Updated, Region, Patched, Updates, Comparables;
    SameKeys(bits, was, now, width);
    forall s | s in LiveRows(bits, was, width)
      ensures LiveRows(bits, now, width)[s] == Updated(LiveRows(bits, was, width)[s], sel, bufs)
    {
      RowPatched(bits, was, now, width, sel, bufs, slots, s);
    }
  }

  /** A region and the patched slots decide the patched region. */
  lemma PatchedUnique(was: Buf, now: Buf, now': Buf, width: nat, sel: Comparable, bufs: seq<Buf>, slots: seq<nat>)
    requires Region(was, width) && Region(now, width) && Region(now', width)
    requires Comparables(sel, width) && Updates(sel, bufs, width)
    requires forall s <- slots :: s < MAX_OBJ_NUM
    requires Patched(was, now, width, sel, bufs, slots) && Patched(was, now', width, sel, bufs, slots)
    ensures now == now'
  {
    hide Patch, Comparables, Updates;
    forall s: nat | s < MAX_OBJ_NUM ensures RowAt(now, width, s) == RowAt(now', width, s) {
    }
    SameRows(now, now', width);
  }

  // ---- The copies of an update ----

  /** Where an update copies to: the columns of `sel` in every reported slot. With `restart` the pointer
    is set back to the start of the row for every value; as the code has it, it is never set back. */
  datatype Plan = Plan(slots: seq<nat>, sel: Comparable, width: nat, restart: bool)

  /** A position in the two nested loops. */
  predicate InLoops(p: Plan, i: nat, j: nat) {
    j <= |p.sel| && (i < |p.slots| || (i == |p.slots| && j == 0))
  }

  /** The pointer, relative to the region, in the `i`-th reported slot after `j` copies. */
  function Pointer(p: Plan, i: nat, j: nat): nat
    requires InLoops(p, i, j) && i < |p.slots|
    decreases i, j
  {
    if j > 0 then (if p.restart then p.slots[i] * p.width else Pointer(p, i, j - 1)) + p.sel[j - 1].col.loc
    else (if p.restart || i == 0 then 0 else Pointer(p, i - 1, |p.sel|)) + p.slots[i] * p.width
  }

  function SlotSum(slots: seq<nat>): nat {
    if slots == [] then 0 else SlotSum(slots[..|slots| - 1]) + slots[|slots| - 1]
  }

  /** The offsets of the first `n` named columns. */
  function LocSum(sel: Comparable, n: nat): nat
    requires n <= |sel|
  {
    if n == 0 then 0 else LocSum(sel, n - 1) + sel[n - 1].col.loc
  }

  /** Where the pointer stands: set back, at the column in its row; as the code has it, at the sum of all
    rows so far, of all offsets once for each row before, and of the offsets so far in this row. */
  lemma {:induction false} PointerSums(p: Plan, i: nat, j: nat)
    requires InLoops(p, i, j) && i < |p.slots|
    ensures p.restart ==>
      Pointer(p, i, j) == p.slots[i] * p.width + if j == 0 then 0 else p.sel[j - 1].col.loc
    ensures !p.restart ==>
      Pointer(p, i, j) == SlotSum(p.slots[..i + 1]) * p.width + i * LocSum(p.sel, |p.sel|) + LocSum(p.sel, j)
    decreases i, j
  {
    if j > 0 {
      PointerSums(p, i, j - 1);
    } else if i > 0 {
      PointerSums(p, i - 1, |p.sel|);
      assert p.slots[..i + 1][..i] == p.slots[..i];
      NextSum(SlotSum(p.slots[..i]), p.slots[i], p.width);
      NextSum(i - 1, 1, LocSum(p.sel, |p.sel|));
    } else {
      assert p.slots[..1][..0] == [];
    }
  }

  lemma NextSum(a: nat, b: nat, c: nat)
    ensures (a + b) * c == a * c + b * c
  {
  }

  /** A copy into the region; None if it would leave the region. */
  function Put(b: Option<Buf>, at: nat, x: Buf): Option<Buf> {
    if b.Some? && at + |x| <= |b.value| then Some(Splice(b.value, at, x)) else None
  }

  /** The region after the copies before the `j`-th into the `i`-th slot; None once one of them would
    have left it. */
  function Copied(b: Buf, p: Plan, bufs: seq<Buf>, i: nat, j: nat): (r: Option<Buf>)
    requires |bufs| == |p.sel| && InLoops(p, i, j)
    ensures r.Some? ==> |r.value| == |b|
    decreases i, j
  {
    if j > 0 then Put(Copied(b, p, bufs, i, j - 1), Pointer(p, i, j), bufs[j - 1])
    else if i > 0 then Copied(b, p, bufs, i - 1, |p.sel|)
    else Some(b)
  }

  /** Once a copy has left the region, so has the update. */
  lemma {:induction false} CopiedBefore(b: Buf, p: Plan, bufs: seq<Buf>, i: nat, j: nat, k: nat, l: nat)
    requires |bufs| == |p.sel| && InLoops(p, i, j) && InLoops(p, k, l) && (i < k || (i == k && j <= l))
    requires Copied(b, p, bufs, i, j) == None
    ensures Copied(b, p, bufs, k, l) == None
    decreases k, l
  {
    if i == k && j == l {
    } else if l > 0 {
      CopiedBefore(b, p, bufs, i, j, k, l - 1);
    } else {
      CopiedBefore(b, p, bufs, i, j, k - 1, |p.sel|);
    }
  }

  /** What the update counts before the `j`-th copy into the `i`-th slot: rows, or, as the code has it,
    copies. */
  function Counted(p: Plan, i: nat, j: nat): nat {
    if p.restart then i else i * |p.sel| + j
  }

  function Count(p: Plan): nat {
    Counted(p, |p.slots|, 0)
  }

  ghost predicate LastCopy(b: Buf, p: Plan, bufs: seq<Buf>, i: nat, j: nat, now: Buf)
    requires |bufs| == |p.sel| && i < |p.slots| && j < |p.sel|
  {
    Copied(b, p, bufs, i, j) == Some(now) && Copied(b, p, bufs, i, j + 1) == None
  }

  /** The region an update leaves: after all copies, or, if one would leave the region, after those
    before it. */
  ghost predicate LeftBy(b: Buf, p: Plan, bufs: seq<Buf>, now: Buf)
    requires |bufs| == |p.sel|
  {
    if Copied(b, p, bufs, |p.slots|, 0).Some? then Copied(b, p, bufs, |p.slots|, 0) == Some(now)
    else exists i: nat, j: nat :: i < |p.slots| && j < |p.sel| && LastCopy(b, p, bufs, i, j, now)
  }

  lemma LeftEarly(b: Buf, p: Plan, bufs: seq<Buf>, i: nat, j: nat, now: Buf)
    requires |bufs| == |p.sel| && i < |p.slots| && j < |p.sel|
    requires Copied(b, p, bufs, i, j) == Some(now) && Copied(b, p, bufs, i, j + 1) == None
    requires Copied(b, p, bufs, |p.slots|, 0) == None
    ensures LeftBy(b, p, bufs, now)
  {
    hide Copied;
    assert LastCopy(b, p, bufs, i, j, now);
  }

  lemma LeftDone(b: Buf, p: Plan, bufs: seq<Buf>, now: Buf)
    requires |bufs| == |p.sel| && Copied(b, p, bufs, |p.slots|, 0) == Some(now)
    ensures LeftBy(b, p, bufs, now)
  {
  }

  lemma CopiedStart(b: Buf, p: Plan, bufs: seq<Buf>)
    requires |bufs| == |p.sel|
    ensures Copied(b, p, bufs, 0, 0) == Some(b)
  {
  }

  lemma PointerRow(p: Plan, i: nat)
    requires i < |p.slots|
    ensures Pointer(p, i, 0) == (if p.restart || i == 0 then 0 else Pointer(p, i - 1, |p.sel|)) + p.slots[i] * p.width
  {
  }

  lemma CopiedStep(b: Buf, p: Plan, bufs: seq<Buf>, i: nat, j: nat, now: Buf)
    requires |bufs| == |p.sel| && i < |p.slots| && j < |p.sel| && Copied(b, p, bufs, i, j) == Some(now)
    ensures Pointer(p, i, j + 1) ==
      (if p.restart then p.slots[i] * p.width else Pointer(p, i, j)) + p.sel[j].col.loc
    ensures Copied(b, p, bufs, i, j + 1) == Put(Some(now), Pointer(p, i, j + 1), bufs[j])
  {
  }

  lemma CopiedRowEnd(b: Buf, p: Plan, bufs: seq<Buf>, i: nat)
    requires |bufs| == |p.sel| && i < |p.slots|
    ensures Copied(b, p, bufs, i + 1, 0) == Copied(b, p, bufs, i, |p.sel|)
    ensures !p.restart ==> Counted(p, i + 1, 0) == Counted(p, i, |p.sel|)
  {
  }

  /** The copies into one row, with the pointer set back, patch that row. */
  lemma {:induction false} CopiedRow(b: Buf, mid: Buf, p: Plan, bufs: seq<Buf>, i: nat, j: nat)
    requires Comparables(p.sel, p.width) && Updates(p.sel, bufs, p.width)
    requires p.restart && InLoops(p, i, j) && i < |p.slots| && p.slots[i] < MAX_OBJ_NUM
    requires Copied(b, p, bufs, i, 0) == Some(mid) && Region(mid, p.width)
    ensures var slot := p.slots[i];
      && slot * p.width + p.width <= |mid|
      && Copied(b, p, bufs, i, j) ==
        Some(Splice(mid, slot * p.width, Patch(RowAt(mid, p.width, slot), p.sel, bufs, j)))
  {
    hide Splice, RowAt, Copied, Pointer, Patch;
    var slot, row := p.slots[i], RowAt(mid, p.width, p.slots[i]);
    SlotInside(slot, MAX_OBJ_NUM, p.width);
    if j == 0 {
      PatchNext(row, p.sel, bufs, 0);
      RowInPlace(mid, p.width, slot);
    } else {
      CopiedRow(b, mid, p, bufs, i, j - 1);
      var at, before := slot * p.width, Patch(row, p.sel, bufs, j - 1);
      CopiedStep(b, p, bufs, i, j - 1, Splice(mid, at, before));
      PatchNext(row, p.sel, bufs, j - 1);
      SpliceInside(mid, at, before, p.sel[j - 1].col.loc, bufs[j - 1]);
    }
  }

  lemma PatchedNothing(b: Buf, width: nat, sel: Comparable, bufs: seq<Buf>)
    requires Region(b, width) && Comparables(sel, width) && Updates(sel, bufs, width)
    ensures Patched(b, b, width, sel, bufs, [])
  {
  }

  lemma NextRowPatched(b: Buf, mid: Buf, p: Plan, bufs: seq<Buf>, i: nat)
    requires Comparables(p.sel, p.width) && Updates(p.sel, bufs, p.width)
    requires p.restart && i < |p.slots| && p.slots[i] < MAX_OBJ_NUM && p.slots[i] !in p.slots[..i]
    requires Copied(b, p, bufs, i, 0) == Some(mid) && Region(b, p.width) && Region(mid, p.width)
    requires Patched(b, mid, p.width, p.sel, bufs, p.slots[..i])
    ensures Copied(b, p, bufs, i + 1, 0).Some? && Region(Copied(b, p, bufs, i + 1, 0).value, p.width)
    ensures Patched(b, Copied(b, p, bufs, i + 1, 0).value, p.width, p.sel, bufs, p.slots[..i + 1])
  {
    hide RowAt, Patch, Splice, Patched, OnlyRows, Copied;
    var slot := p.slots[i];
    CopiedRow(b, mid, p, bufs, i, |p.sel|);
    CopiedRowEnd(b, p, bufs, i);
    var row := Patch(RowAt(mid, p.width, slot), p.sel, bufs, |p.sel|);
    WriteRow(mid, p.width, slot, row);
    PatchedMore(b, mid, Splice(mid, slot * p.width, row), p.width, p.sel, bufs, p.slots[..i], slot);
    assert p.slots[..i + 1] == p.slots[..i] + [slot];
  }

  /** The copies of an update whose pointer is set back patch the reported rows, and nothing else. */
  lemma {:induction false} CopiedPatches(b: Buf, p: Plan, bufs: seq<Buf>, i: nat)
    requires Comparables(p.sel, p.width) && Updates(p.sel, bufs, p.width)
    requires p.restart && InLoops(p, i, 0) && Region(b, p.width)
    requires NoDuplicates(p.slots) && forall s <- p.slots :: s < MAX_OBJ_NUM
    ensures Copied(b, p, bufs, i, 0).Some?
    ensures Patched(b, Copied(b, p, bufs, i, 0).value, p.width, p.sel, bufs, p.slots[..i])
  {
    hide Patched, Copied;
    if i == 0 {
      CopiedStart(b, p, bufs);
      PatchedNothing(b, p.width, p.sel, bufs);
      assert p.slots[..0] == [];
    } else {
      CopiedPatches(b, p, bufs, i - 1);
      assert p.slots[i - 1] in p.slots && p.slots[i - 1] !in p.slots[..i - 1];
      NextRowPatched(b, Copied(b, p, bufs, i - 1, 0).value, p, bufs, i - 1);
    }
  }

  lemma LeftLength(b: Buf, p: Plan, bufs: seq<Buf>, now: Buf)
    requires |bufs| == |p.sel| && LeftBy(b, p, bufs, now)
    ensures |now| == |b|
  {
  }

  /** Whatever a region holds, its live slots and the free ones are those of its table. */
  lemma StaysConserved(bits: bv32, was: Buf, now: Buf, width: nat, free: seq<nat>)
    requires Region(was, width) && Region(now, width)
    requires Conserved(Table(LiveRows(bits, was, width), free), width)
    ensures Conserved(Table(LiveRows(bits, now, width), free), width)
  {
    hide LiveRows;
    SameKeys(bits, was, now, width);
  }

  /** With the pointer set back and values that stay in their rows, the update patches the table. */
  lemma RegionPatched(bits: bv32, was: Buf, now: Buf, p: Plan, bufs: seq<Buf>, free: seq<nat>)
    requires Region(was, p.width) && p.restart
    requires |bufs| == |p.sel| && LeftBy(was, p, bufs, now)
    requires Comparables(p.sel, p.width) && Updates(p.sel, bufs, p.width)
    requires p.slots == Selected(LiveRows(bits, was, p.width), p.sel, p.width, MIN_BIT)
    ensures Copied(was, p, bufs, |p.slots|, 0).Some? && Region(now, p.width)
    ensures Patched(was, now, p.width, p.sel, bufs, p.slots)
    ensures Table(LiveRows(bits, now, p.width), free) ==
      UpdateRows(Table(LiveRows(bits, was, p.width), free), p.sel, bufs, p.width)
  {
    hide LiveRows, Selected, Patched, UpdateRows, Copied, RowAt;
    SelectedExactly(LiveRows(bits, was, p.width), p.sel, p.width, MIN_BIT);
    CopiedPatches(was, p, bufs, |p.slots|);
    assert p.slots[..|p.slots|] == p.slots;
    LivePatched(bits, was, now, p.width, p.sel, bufs, p.slots, free);
  }
}
