/** The update as the code has it: one pointer runs on over all rows and columns and is never set back,
  and every copy is counted. */
module LayoutDraft {
  import opened Bytes
  import opened Slots
  import opened Tables
  import opened Patches
  import opened TableOps
  import opened Regions
  import opened CopiedBytes

  /** The copies of the plan leave the region in which exactly the slots of `target` are patched. */
  ghost predicate Right(data: Buf, p: Plan, bufs: seq<Buf>, target: seq<nat>)
    requires Region(data, p.width) && Comparables(p.sel, p.width) && Updates(p.sel, bufs, p.width)
  {
    var r := Copied(data, p, bufs, |p.slots|, 0);
    r.Some? && Patched(data, r.value, p.width, p.sel, bufs, target)
  }

  /** All named columns but the last lie at offset 0. */
  predicate LeadingAtZero(sel: Comparable) {
    forall k :: 0 <= k < |sel| - 1 ==> sel[k].col.loc == 0
  }

  /** The draft update of the reported slots. */
  function Draft(slots: seq<nat>, sel: Comparable, width: nat): Plan {
    Plan(slots, sel, width, false)
  }

  /** The draft leaves what setting the pointer back for the slots of `target` leaves, or both leave the
    region. */
  predicate SameOutcome(data: Buf, p: Plan, bufs: seq<Buf>, target: seq<nat>)
    requires |bufs| == |p.sel|
  {
    Copied(data, p, bufs, |p.slots|, 0) == Copied(data, Plan(target, p.sel, p.width, true), bufs, |target|, 0)
  }

  // ---- When the pointer is in place ----

  lemma {:induction false} PointerStays(p: Plan, j: nat)
    requires !p.restart && p.slots != [] && j <= |p.sel| && forall k :: 0 <= k < j ==> p.sel[k].col.loc == 0
    ensures Pointer(p, 0, j) == p.slots[0] * p.width
  {
    if j == 0 {
    } else {
      PointerStays(p, j - 1);
    }
  }

  lemma {:induction false} SameCopies(data: Buf, p: Plan, bufs: seq<Buf>, j: nat)
    requires !p.restart && p.slots != [] && |bufs| == |p.sel| && j <= |p.sel| && LeadingAtZero(p.sel)
    ensures Copied(data, p, bufs, 0, j) == Copied(data, p.(restart := true), bufs, 0, j)
  {
    if j == 0 {
    } else {
      PointerStays(p, j - 1);
      SameCopies(data, p, bufs, j - 1);
    }
  }

  lemma InPlace(data: Buf, sel: Comparable, width: nat, bufs: seq<Buf>, slots: seq<nat>)
    requires |bufs| == |sel| && (slots == [] || (|slots| == 1 && LeadingAtZero(sel)))
    ensures SameOutcome(data, Draft(slots, sel, width), bufs, slots)
  {
    hide Pointer;
    if slots != [] {
      SameCopies(data, Draft(slots, sel, width), bufs, |sel|);
    }
  }

  // ---- When it is not ----

  /** The pointer never falls behind, and once it has been moved it is ahead of the row for good. */
  lemma {:induction false} PointerAhead(p: Plan, i: nat, j: nat)
    requires !p.restart && i < |p.slots| && j <= |p.sel|
    ensures Pointer(p, i, j) >= p.slots[i] * p.width
    ensures i > 0 && p.slots[i - 1] > 0 && p.width > 0 ==> Pointer(p, i, j) > p.slots[i] * p.width
    ensures forall k :: 0 <= k < j && p.sel[k].col.loc > 0 ==> Pointer(p, i, j) > p.slots[i] * p.width
    decreases i, j
  {
    if j > 0 {
      PointerAhead(p, i, j - 1);
    } else if i > 0 {
      PointerAhead(p, i - 1, |p.sel|);
      assert p.slots[i - 1] > 0 && p.width > 0 ==> p.slots[i - 1] * p.width > 0;
    } else {
    }
  }

  /** The byte that the last copy of the draft starts at. */
  function LastByte(p: Plan): nat
    requires p.slots != []
  {
    Pointer(p, |p.slots| - 1, |p.sel|)
  }

  /** Column `j` of row `s` starts at byte `at`. */
  predicate StartsAt(sel: Comparable, width: nat, j: nat, s: nat, at: nat)
    requires j < |sel|
  {
    s * width + sel[j].col.loc == at
  }

  /** With two rows, or a column before the last at an offset, the last copy starts behind the last
    column of the last row. */
  lemma LastAhead(p: Plan)
    requires !p.restart && p.slots != [] && p.sel != [] && p.width > 0
    requires Increasing(p.slots) && forall s <- p.slots :: s > 0
    ensures var end := p.slots[|p.slots| - 1] * p.width + p.sel[|p.sel| - 1].col.loc;
      && LastByte(p) >= end
      && (|p.slots| > 1 || !LeadingAtZero(p.sel) ==> LastByte(p) > end)
  {
    var n, m := |p.slots|, |p.sel|;
    PointerAhead(p, n - 1, m - 1);
    assert LastByte(p) == Pointer(p, n - 1, m - 1) + p.sel[m - 1].col.loc;
    hide Pointer, LastByte;
    assert n > 1 ==> p.slots[n - 2] in p.slots;
  }

  lemma Misplaced(p: Plan, target: seq<nat>)
    requires !p.restart && p.slots != [] && p.sel != [] && p.width > 0
    requires Increasing(p.slots) && (forall s <- p.slots :: s > 0) && forall s <- target :: s in p.slots
    requires |p.slots| > 1 || !LeadingAtZero(p.sel) || target == []
    ensures forall s <- target :: !StartsAt(p.sel, p.width, |p.sel| - 1, s, LastByte(p))
  {
    hide Pointer, LastByte, LeadingAtZero;
    LastAhead(p);
    var last := p.slots[|p.slots| - 1];
    forall s <- target ensures !StartsAt(p.sel, p.width, |p.sel| - 1, s, LastByte(p)) {
      assert s <= last;
      Times(s, last, p.width);
    }
  }

  /** Full-width zeros, but for the first byte of the last value. */
  function Marked(sel: Comparable, v: Byte): seq<Buf> {
    seq(|sel|, i requires 0 <= i < |sel| =>
      seq(sel[i].col.typsz, k => if i == |sel| - 1 && k == 0 then v else 0))
  }

  /** The mark lands where the last copy starts. */
  lemma MarkLands(data: Buf, p: Plan, v: Byte)
    requires p.slots != [] && p.sel != [] && p.sel[|p.sel| - 1].col.typsz > 0
    ensures var r := Copied(data, p, Marked(p.sel, v), |p.slots|, 0);
      r.Some? ==> LastByte(p) < |data| && r.value[LastByte(p)] == v
  {
    hide Pointer;
    assert Copied(data, p, Marked(p.sel, v), |p.slots|, 0) ==
      Copied(data, p, Marked(p.sel, v), |p.slots| - 1, |p.sel|);
  }

  /** Copies at the right places put the mark nowhere but where the last column starts. */
  lemma MarkElsewhere(p: Plan, v: Byte, at: nat)
    requires v != 0 && forall s <- p.slots :: p.sel != [] ==> !StartsAt(p.sel, p.width, |p.sel| - 1, s, at)
    ensures PutsNever(p, Marked(p.sel, v), at, v)
  {
    forall x: nat, y: nat | IsCopy(p, x, y) && Reaches(p, Marked(p.sel, v), x, y, at)
      ensures ByteOf(p, Marked(p.sel, v), x, y, at) != v
    {
      assert p.slots[x] in p.slots;
      assert !StartsAt(p.sel, p.width, |p.sel| - 1, p.slots[x], at);
    }
  }

  lemma MarkedWrong(data: Buf, p: Plan, target: seq<nat>, v: Byte)
    requires Region(data, p.width) && Comparables(p.sel, p.width) && p.sel[|p.sel| - 1].col.typsz > 0
    requires !p.restart && p.slots != [] && NoDuplicates(target) && forall s <- target :: s < MAX_OBJ_NUM
    requires v != 0 && (LastByte(p) < |data| ==> data[LastByte(p)] != v)
    requires forall s <- target :: !StartsAt(p.sel, p.width, |p.sel| - 1, s, LastByte(p))
    ensures FullWidth(p.sel, Marked(p.sel, v)) && Updates(p.sel, Marked(p.sel, v), p.width)
    ensures !Right(data, p, Marked(p.sel, v), target)
  {
    hide Patched, Copied, Pointer, StartsAt;
    var bufs, goal := Marked(p.sel, v), Plan(target, p.sel, p.width, true);
    FullStays(p.sel, bufs, p.width);
    MarkLands(data, p, v);
    CopiedPatches(data, goal, bufs, |target|);
    assert target[..|target|] == target;
    if Right(data, p, bufs, target) {
      var now, now' := Copied(data, p, bufs, |p.slots|, 0).value, Copied(data, goal, bufs, |target|, 0).value;
      PatchedUnique(data, now, now', p.width, p.sel, bufs, target);
      MarkElsewhere(goal, v, LastByte(p));
      Avoids(data, goal, bufs, |target|, 0, LastByte(p), v);
    }
  }

  // ---- The draft update ----

  /** Some new values, each as wide as its column, go wrong. */
  ghost predicate SomeWrong(data: Buf, p: Plan, target: seq<nat>)
    requires Region(data, p.width) && Comparables(p.sel, p.width)
  {
    exists bufs :: FullWidth(p.sel, bufs) && Updates(p.sel, bufs, p.width) && !Right(data, p, bufs, target)
  }

  /** For every region: the draft update does what it should, for all new values of any size, if and only
    if it finds nothing, or finds one row, which does match, and all named columns but the last lie at
    offset 0. Otherwise some values that fill their columns exactly go wrong. The slots are those the
    scan reports with the carried count of the code or, with `restart`, those of all matching rows. */
  lemma DraftRightIff(bits: bv32, data: Buf, width: nat, sel: Comparable, restart: bool)
    requires Region(data, width) && Comparables(sel, width) && forall c <- sel :: c.col.typsz > 0
    ensures var rows := LiveRows(bits, data, width);
      var slots, target := Scan(rows, sel, width, MIN_BIT, 0, restart), Selected(rows, sel, width, MIN_BIT);
      var inPlace := slots == [] || (slots == target && |slots| == 1 && LeadingAtZero(sel));
      && ((forall bufs | |bufs| == |sel| :: SameOutcome(data, Draft(slots, sel, width), bufs, target)) <==> inPlace)
      && ((forall bufs | Updates(sel, bufs, width) :: Right(data, Draft(slots, sel, width), bufs, target)) <==> inPlace)
      && (!inPlace ==> SomeWrong(data, Draft(slots, sel, width), target))
  {
    hide LiveRows, Scan, Selected, Right, FullWidth, LeadingAtZero, SameOutcome;
    var rows := LiveRows(bits, data, width);
    var slots, target := Scan(rows, sel, width, MIN_BIT, 0, restart), Selected(rows, sel, width, MIN_BIT);
    Reported(rows, sel, width, restart);
    if slots == [] || (slots == target && |slots| == 1 && LeadingAtZero(sel)) {
      forall bufs | |bufs| == |sel| ensures SameOutcome(data, Draft(slots, sel, width), bufs, target) {
        InPlace(data, sel, width, bufs, slots);
      }
      forall bufs | Updates(sel, bufs, width) ensures Right(data, Draft(slots, sel, width), bufs, target) {
        RightOutcome(data, Draft(slots, sel, width), bufs, target);
      }
    } else {
      var bufs := WrongValues(data, Draft(slots, sel, width), target);
      RightOutcome(data, Draft(slots, sel, width), bufs, target);
    }
  }

  lemma RightOutcome(data: Buf, p: Plan, bufs: seq<Buf>, target: seq<nat>)
    requires Region(data, p.width) && Comparables(p.sel, p.width) && Updates(p.sel, bufs, p.width)
    requires NoDuplicates(target) && forall s <- target :: s < MAX_OBJ_NUM
    ensures |bufs| == |p.sel| && (SameOutcome(data, p, bufs, target) ==> Right(data, p, bufs, target))
  {
    hide Patched, Copied;
    CopiedPatches(data, Plan(target, p.sel, p.width, true), bufs, |target|);
    assert target[..|target|] == target;
  }

  /** What the scan reports is in increasing order and includes every matching row. */
  lemma Reported(rows: map<nat, Buf>, sel: Comparable, width: nat, restart: bool)
    requires Comparables(sel, width) && Width(rows, width)
    ensures var slots, target := Scan(rows, sel, width, MIN_BIT, 0, restart), Selected(rows, sel, width, MIN_BIT);
      && Increasing(slots) && (forall s <- slots :: 0 < s < MAX_OBJ_NUM)
      && NoDuplicates(target) && (forall s <- target :: s in slots)
      && (|slots| <= 1 && target != slots ==> |slots| == 1 && target == [])
  {
    ScanIncreases(rows, sel, width, MIN_BIT, 0, restart);
    SelectedExactly(rows, sel, width, MIN_BIT);
    RestartingScanExact(rows, sel, width, MIN_BIT, 0);
    hide Scan, Selected;
    var slots, target := Scan(rows, sel, width, MIN_BIT, 0, restart), Selected(rows, sel, width, MIN_BIT);
    forall s <- target ensures s in slots {
      if !restart {
        CarryingScanMissesNone(rows, sel, width, MIN_BIT, 0, s);
      }
    }
    Inside(slots, target);
  }

  lemma Inside(slots: seq<nat>, target: seq<nat>)
    requires Increasing(slots) && Increasing(target) && forall s <- target :: s in slots
    ensures NoDuplicates(target)
    ensures |slots| <= 1 && target != slots ==> |slots| == 1 && target == []
  {
    if target != [] {
      assert target[0] in target && (|target| > 1 ==> target[1] in target);
    }
  }

  lemma WrongValues(data: Buf, p: Plan, target: seq<nat>) returns (bufs: seq<Buf>)
    requires Region(data, p.width) && Comparables(p.sel, p.width) && forall c <- p.sel :: c.col.typsz > 0
    requires !p.restart && p.slots != [] && Increasing(p.slots) && forall s <- p.slots :: 0 < s < MAX_OBJ_NUM
    requires NoDuplicates(target) && forall s <- target :: s in p.slots
    requires |p.slots| > 1 || !LeadingAtZero(p.sel) || target == []
    ensures FullWidth(p.sel, bufs) && Updates(p.sel, bufs, p.width) && !Right(data, p, bufs, target)
  {
    hide Right, Updates, FullWidth, Pointer, LastByte, LeadingAtZero, StartsAt;
    assert p.sel[|p.sel| - 1] in p.sel;
    Misplaced(p, target);
    var v: Byte := if LastByte(p) < |data| && data[LastByte(p)] == 1 then 2 else 1;
    MarkedWrong(data, p, target, v);
    bufs := Marked(p.sel, v);
  }

  /** The draft's count, one per copy, is the number of matching rows if and only if nothing is found or
    one column is named. */
  lemma DraftCountIff(rows: map<nat, Buf>, sel: Comparable, width: nat, restart: bool)
    requires Comparables(sel, width) && Width(rows, width)
    ensures var slots := Scan(rows, sel, width, MIN_BIT, 0, restart);
      && Count(Draft(slots, sel, width)) == |slots| * |sel|
      && (Count(Draft(slots, sel, width)) == |Selected(rows, sel, width, MIN_BIT)| <==> slots == [] || |sel| == 1)
  {
    var slots, target := Scan(rows, sel, width, MIN_BIT, 0, restart), Selected(rows, sel, width, MIN_BIT);
    RestartingScanExact(rows, sel, width, MIN_BIT, 0);
    NoFewerReported(rows, sel, width, MIN_BIT, 0);
    if |sel| == 1 {
      OneCondition(rows, sel, width, MIN_BIT);
    } else {
      Times(2, |sel|, |slots|);
    }
  }

  // ---- Where it goes wrong ----

  /** The selector of the update test: the float column `col2` and the double column `col3` of a row that
    starts with an integer column. */
  function FloatAndDouble(f: Buf, d: Buf): Comparable {
    [Cond(ColumnDef("col2", 4, 4), f), Cond(ColumnDef("col3", 8, 8), d)]
  }

  /** In any region that holds one row, just added, which the selector matches, the draft update counts 2
    for the one matching row and misplaces some value: it writes the double at the sum of both offsets. */
  lemma DraftMisplaces(bits: bv32, data: Buf, row: Buf, f: Buf, d: Buf)
    requires |row| == 16 && |f| == |d| == 8 && row[4..8] == f[..4] && row[8..16] == d
    requires Region(data, 16) && LiveRows(bits, data, 16) == RunOps([Add(row)], 16).rows
    ensures var sel := FloatAndDouble(f, d);
      && Comparables(sel, 16)
      && var slots := Scan(LiveRows(bits, data, 16), sel, 16, MIN_BIT, 0, false);
      && slots == Selected(LiveRows(bits, data, 16), sel, 16, MIN_BIT) == [31]
      && Count(Draft(slots, sel, 16)) == 2
      && Pointer(Draft(slots, sel, 16), 0, 2) == 31 * 16 + 12
      && SomeWrong(data, Draft(slots, sel, 16), slots)
  {
    hide LiveRows, RunOps, Scan, Selected, Matches, Right, SomeWrong;
    var rows, sel := LiveRows(bits, data, 16), FloatAndDouble(f, d);
    SelectorMatches(row, f, d);
    FirstAdd(row, 16);
    assert rows == map[31 := row] && rows.Keys == {31};
    OnlyRow(rows, sel, 16, 31);
    DraftRightIff(bits, data, 16, sel, false);
    assert sel[0].col.loc != 0;
  }

  lemma SelectorMatches(row: Buf, f: Buf, d: Buf)
    requires |row| == 16 && |f| == |d| == 8 && row[4..8] == f[..4] && row[8..16] == d
    ensures Comparables(FloatAndDouble(f, d), 16) && Matches(row, FloatAndDouble(f, d))
  {
    var sel := FloatAndDouble(f, d);
    assert d[..8] == d;
    assert forall c <- sel :: c == sel[0] || c == sel[1];
  }

  lemma OnlyRow(rows: map<nat, Buf>, sel: Comparable, width: nat, s: nat)
    requires Comparables(sel, width) && Width(rows, width) && MIN_BIT <= s < MAX_BIT
    requires rows.Keys == {s} && Matches(rows[s], sel)
    ensures Scan(rows, sel, width, MIN_BIT, 0, false) == Selected(rows, sel, width, MIN_BIT) == [s]
  {
    hide Scan, Selected, Matches;
    SelectedOne(rows, sel, width, s);
    ScanIncreases(rows, sel, width, MIN_BIT, 0, false);
    CarryingScanMissesNone(rows, sel, width, MIN_BIT, 0, s);
    OneElement(Scan(rows, sel, width, MIN_BIT, 0, false), s);
  }
}
