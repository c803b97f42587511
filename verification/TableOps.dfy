/** Adding, deleting and updating rows of a table, and what every run of operations keeps. */
module TableOps {
  import opened Bytes
  import opened Slots
  import opened Tables
  import opened Patches

  // ---- Conservation of slots ----

  /** Every slot is either free or live, never both and never twice free. Slot 0 lies at the bottom
    of the free stack for good: it has no bit. */
  ghost predicate Conserved(t: Table, width: nat) {
    && NoDuplicates(t.free)
    && t.free != [] && t.free[0] == 0
    && (forall s: nat :: s in t.free || s in t.rows <==> s < MAX_OBJ_NUM)
    && (forall s: nat :: !(s in t.free && s in t.rows))
    && Width(t.rows, width)
  }

  lemma SlotCount(t: Table, width: nat)
    requires Conserved(t, width)
    ensures |t.free| + |t.rows| == MAX_OBJ_NUM
  {
    hide Elements;
    DistinctCount(t.free);
    CountBelow(Elements(t.free) + t.rows.Keys, MAX_OBJ_NUM);
    assert Elements(t.free) * t.rows.Keys == {};
  }

  lemma ConservedWidth(t: Table, width: nat)
    requires Conserved(t, width)
    ensures Width(t.rows, width)
  {
  }

  // ---- Operations ----

  predicate Full(t: Table) {
    |t.free| <= 1
  }

  /** The slot an add uses. */
  function Top(t: Table): nat
    requires t.free != []
  {
    t.free[|t.free| - 1]
  }

  function AddRow(t: Table, row: Buf): Table {
    if Full(t) then t else Table(t.rows[Top(t) := row], t.free[..|t.free| - 1])
  }

  /** Free the first `n` of `slots`. */
  function Release(t: Table, slots: seq<nat>, n: nat): Table
    requires n <= |slots|
  {
    Table(map s | s in t.rows && s !in slots[..n] :: t.rows[s], t.free + slots[..n])
  }

  function DeleteRows(t: Table, sel: Comparable, width: nat): Table
    requires Comparables(sel, width) && Width(t.rows, width)
  {
    var slots := Selected(t.rows, sel, width, MIN_BIT);
    Release(t, slots, |slots|)
  }

  /** Free every slot that the scan reports. */
  function DeleteReported(t: Table, sel: Comparable, width: nat, restart: bool): Table
    requires Comparables(sel, width) && Width(t.rows, width)
  {
    var slots := Scan(t.rows, sel, width, MIN_BIT, 0, restart);
    Release(t, slots, |slots|)
  }

  function Updated(row: Buf, sel: Comparable, bufs: seq<Buf>): Buf
    requires Comparables(sel, |row|) && Updates(sel, bufs, |row|)
  {
    if Matches(row, sel) then Patch(row, sel, bufs, |sel|) else row
  }

  function UpdateRows(t: Table, sel: Comparable, bufs: seq<Buf>, width: nat): Table
    requires Comparables(sel, width) && Width(t.rows, width) && Updates(sel, bufs, width)
  {
    t.(rows := map s | s in t.rows :: Updated(t.rows[s], sel, bufs))
  }

  // ---- What each operation keeps ----

  lemma AddKeeps(t: Table, row: Buf, width: nat)
    requires Conserved(t, width) && |row| == width
    ensures Conserved(AddRow(t, row), width)
    ensures !Full(t) ==> MIN_BIT <= Top(t) < MAX_BIT && Top(t) !in t.rows
    ensures Full(t) <==> |t.rows| == MAX_OBJ_NUM - 1
  {
    SlotCount(t, width);
    if !Full(t) {
      var n := |t.free| - 1;
      assert t.free[n] in t.free && t.free[n] !in t.free[..n];
      assert forall s: nat :: s in t.free <==> s in t.free[..n] || s == t.free[n];
    }
  }

  lemma ReleaseKeeps(t: Table, slots: seq<nat>, n: nat, width: nat)
    requires Conserved(t, width) && n <= |slots| && NoDuplicates(slots)
    requires forall s <- slots :: s in t.rows
    ensures Conserved(Release(t, slots, n), width)
  {
    var t' := Release(t, slots, n);
    assert forall s <- slots[..n] :: s in slots;
    assert forall s: nat :: s in t'.free <==> s in t.free || s in slots[..n];
    forall i, j | 0 <= i < j < |t'.free| ensures t'.free[i] != t'.free[j] {
      if i < |t.free| <= j {
        assert t'.free[i] in t.free && t'.free[j] in slots;
      }
    }
  }

  lemma DeleteKeeps(t: Table, sel: Comparable, width: nat)
    requires Comparables(sel, width) && Conserved(t, width)
    ensures Conserved(DeleteRows(t, sel, width), width)
    ensures DeleteRows(t, sel, width).rows == map s | s in t.rows && !Matches(t.rows[s], sel) :: t.rows[s]
  {
    hide Selected, Matches;
    var slots := Selected(t.rows, sel, width, MIN_BIT);
    SelectedExactly(t.rows, sel, width, MIN_BIT);
    ReleaseKeeps(t, slots, |slots|, width);
    assert slots[..|slots|] == slots;
    forall s | s in t.rows
      ensures s in slots <==> Matches(t.rows[s], sel)
    {
      assert s != 0 by { assert t.free[0] in t.free; }
    }
  }

  lemma DeleteReportedKeeps(t: Table, sel: Comparable, width: nat, restart: bool)
    requires Comparables(sel, width) && Conserved(t, width)
    ensures Conserved(DeleteReported(t, sel, width, restart), width)
    ensures restart ==> DeleteReported(t, sel, width, restart) == DeleteRows(t, sel, width)
  {
    hide Scan, Selected, Release, Conserved;
    ConservedWidth(t, width);
    var slots := Scan(t.rows, sel, width, MIN_BIT, 0, restart);
    ScanIncreases(t.rows, sel, width, MIN_BIT, 0, restart);
    RestartingScanExact(t.rows, sel, width, MIN_BIT, 0);
    ReleaseKeeps(t, slots, |slots|, width);
  }

  lemma WithoutLast(a: seq<nat>)
    requires Increasing(a) && a != []
    ensures var m := |a| - 1;
      && Increasing(a[..m]) && a == a[..m] + [a[m]]
      && a[m] in a
      && Elements(a[..m]) == Elements(a) - {a[m]}
      && forall k <- Elements(a) :: k <= a[m]
  {
  }

  lemma {:induction false} SameElements(a: seq<nat>, b: seq<nat>)
    requires Increasing(a) && Increasing(b) && Elements(a) == Elements(b)
    ensures a == b
  {
    DistinctCount(a);
    DistinctCount(b);
    hide Increasing, Elements;
    if a == [] {
    } else {
      WithoutLast(a);
      WithoutLast(b);
      var m, n := |a| - 1, |b| - 1;
      assert a[m] in Elements(b) && b[n] in Elements(a);
      SameElements(a[..m], b[..n]);
    }
  }

  /** A delete over the carried count of the code removes exactly the matching rows, and gives back their
    slots in the same order, if and only if partial matches between two full ones never add up to the
    number of conditions. */
  lemma DeleteCarriedIff(t: Table, sel: Comparable, width: nat)
    requires Comparables(sel, width) && Conserved(t, width)
    ensures var rest := map s | s in t.rows && !Matches(t.rows[s], sel) :: t.rows[s];
      DeleteReported(t, sel, width, false).rows == rest <==> SparsePartials(t.rows, sel, width, MIN_BIT, 0)
    ensures SparsePartials(t.rows, sel, width, MIN_BIT, 0) ==>
      DeleteReported(t, sel, width, false) == DeleteRows(t, sel, width)
  {
    hide Scan, Selected, Matches, SparsePartials, Conserved;
    ConservedWidth(t, width);
    CarryingScanExactIff(t.rows, sel, width);
    DeleteKeeps(t, sel, width);
    var slots, target := Scan(t.rows, sel, width, MIN_BIT, 0, false), Selected(t.rows, sel, width, MIN_BIT);
    ScanIncreases(t.rows, sel, width, MIN_BIT, 0, false);
    SelectedExactly(t.rows, sel, width, MIN_BIT);
    if DeleteReported(t, sel, width, false).rows == DeleteRows(t, sel, width).rows {
      SameRelease(t, slots, target);
      SameElements(slots, target);
    }
  }

  /** What is left tells which slots were freed. */
  lemma SameRelease(t: Table, a: seq<nat>, b: seq<nat>)
    requires (forall s <- a :: s in t.rows) && forall s <- b :: s in t.rows
    requires Release(t, a, |a|).rows == Release(t, b, |b|).rows
    ensures Elements(a) == Elements(b)
  {
    assert a[..|a|] == a && b[..|b|] == b;
    assert Elements(a) == t.rows.Keys - Release(t, a, |a|).rows.Keys;
    assert Elements(b) == t.rows.Keys - Release(t, b, |b|).rows.Keys;
  }

  lemma UpdateKeeps(t: Table, sel: Comparable, bufs: seq<Buf>, width: nat)
    requires Comparables(sel, width) && Updates(sel, bufs, width) && Conserved(t, width)
    ensures Conserved(UpdateRows(t, sel, bufs, width), width)
  {
  }

  // ---- Laws between operations ----

  /** After an update with values that fill their columns, stay in the row and reach no column named before
    them, looking for the new values finds every row that was updated. Values of exactly the width of
    columns that lie apart are of this kind (`ApartKept`). */
  lemma FindAfterUpdate(t: Table, sel: Comparable, bufs: seq<Buf>, width: nat, s: nat)
    requires Comparables(sel, width) && Updates(sel, bufs, width) && Conserved(t, width)
    requires FillsColumns(sel, bufs) && ColumnsKept(sel, bufs)
    ensures Comparables(Renewed(sel, bufs), width)
    ensures s in Selected(t.rows, sel, width, MIN_BIT) ==>
      s in Selected(UpdateRows(t, sel, bufs, width).rows, Renewed(sel, bufs), width, MIN_BIT)
  {
    hide Selected, Patch, Matches, ColumnsKept, FillsColumns, Renewed;
    RenewedComparable(sel, bufs, width);
    var t' := UpdateRows(t, sel, bufs, width);
    SelectedExactly(t.rows, sel, width, MIN_BIT);
    SelectedExactly(t'.rows, Renewed(sel, bufs), width, MIN_BIT);
    if s in Selected(t.rows, sel, width, MIN_BIT) {
      RenewedIff(sel, bufs, width);
      assert FindsNew(t.rows[s], sel, bufs);
    }
  }

  lemma OneElement(ss: seq<nat>, s: nat)
    requires Increasing(ss) && s in ss && forall k <- ss :: k == s
    ensures ss == [s]
  {
    assert Elements(ss) == {s};
    DistinctCount(ss);
  }

  lemma SelectedOne(rows: map<nat, Buf>, sel: Comparable, width: nat, slot: nat)
    requires Comparables(sel, width) && Width(rows, width) && MIN_BIT <= slot < MAX_BIT
    requires slot in rows && forall s <- rows :: Matches(rows[s], sel) <==> s == slot
    ensures Selected(rows, sel, width, MIN_BIT) == [slot]
  {
    hide Selected, Matches;
    SelectedExactly(rows, sel, width, MIN_BIT);
    OneElement(Selected(rows, sel, width, MIN_BIT), slot);
  }

  lemma LoneMatch(rows: map<nat, Buf>, slot: nat, row: Buf, sel: Comparable, width: nat)
    requires Comparables(sel, width) && Width(rows, width) && |row| == width && slot !in rows
    requires Matches(row, sel) && forall s <- rows :: !Matches(rows[s], sel)
    ensures var more := rows[slot := row];
      && Width(more, width)
      && (forall s <- more :: Matches(more[s], sel) <==> s == slot)
      && (map s | s in more && !Matches(more[s], sel) :: more[s]) == rows
  {
    hide Matches, Comparables;
  }

  /** Deleting a row just added, when no other row matches, gives back the table, free stack
    included. */
  lemma AddDelete(t: Table, row: Buf, sel: Comparable, width: nat)
    requires Comparables(sel, width) && Conserved(t, width) && !Full(t)
    requires |row| == width && Matches(row, sel) && forall s <- t.rows :: !Matches(t.rows[s], sel)
    ensures Width(AddRow(t, row).rows, width) && DeleteRows(AddRow(t, row), sel, width) == t
  {
    hide Selected, Matches, Conserved;
    var t', slot := AddRow(t, row), Top(t);
    AddKeeps(t, row, width);
    ConservedWidth(t, width);
    LoneMatch(t.rows, slot, row, sel, width);
    SelectedOne(t'.rows, sel, width, slot);
    DeleteKeeps(t', sel, width);
    assert [slot][..1] == [slot] && t.free == t.free[..|t.free| - 1] + [slot];
  }

  /** Given the matching slots in increasing order, a delete leaves the other rows and puts these slots on
    top of the stack of free ones, the highest last. */
  lemma DeleteFrees(t: Table, sel: Comparable, width: nat, slots: seq<nat>)
    requires Comparables(sel, width) && Conserved(t, width) && Increasing(slots)
    requires forall s: nat :: s in slots <==> s in t.rows && Matches(t.rows[s], sel)
    ensures DeleteRows(t, sel, width).free == t.free + slots
    ensures DeleteRows(t, sel, width).rows == map s | s in t.rows && s !in slots :: t.rows[s]
  {
    hide Selected, Matches, Increasing;
    DeleteKeeps(t, sel, width);
    SelectedExactly(t.rows, sel, width, MIN_BIT);
    var target := Selected(t.rows, sel, width, MIN_BIT);
    forall s: nat ensures s in slots <==> s in target {
      assert s in slots ==> MIN_BIT <= s < MAX_BIT by { assert t.free[0] in t.free; }
    }
    SameElements(slots, target);
    assert target[..|target|] == target;
  }

  /** Adds one after the other. */
  function AddAll(t: Table, rows: seq<Buf>): Table {
    if rows == [] then t
    else AddRow(AddAll(t, rows[..|rows| - 1]), rows[|rows| - 1])
  }

  predicate HoldsAt(rows: map<nat, Buf>, s: nat, row: Buf) {
    s in rows && rows[s] == row
  }

  /** New rows are in the last ones of `slots`, the first row in the very last, and all slots but these
    are as they were. */
  ghost predicate Placed(was: map<nat, Buf>, now: map<nat, Buf>, slots: seq<nat>, rows: seq<Buf>) {
    && |rows| <= |slots|
    && (forall j :: 0 <= j < |rows| ==> HoldsAt(now, slots[|slots| - 1 - j], rows[j]))
    && forall s: nat :: s !in slots[|slots| - |rows|..] ==>
      (s in now <==> s in was) && (s in was ==> now[s] == was[s])
  }

  lemma PlacedMore(was: map<nat, Buf>, now: map<nat, Buf>, slots: seq<nat>, rows: seq<Buf>, row: Buf)
    requires Placed(was, now, slots, rows) && |rows| < |slots| && NoDuplicates(slots)
    ensures Placed(was, now[slots[|slots| - 1 - |rows|] := row], slots, rows + [row])
  {
    var left := |slots| - |rows|;
    assert slots[left - 1..] == [slots[left - 1]] + slots[left..];
    assert forall s: nat :: s in slots[left - 1..] <==> s == slots[left - 1] || s in slots[left..];
  }

  /** Adds take the slots on top of the stack, the last one first. */
  lemma {:induction false} AddsTakeTop(t: Table, base: seq<nat>, slots: seq<nat>, rows: seq<Buf>)
    requires t.free == base + slots && base != [] && NoDuplicates(slots) && |rows| <= |slots|
    ensures AddAll(t, rows).free == base + slots[..|slots| - |rows|]
    ensures Placed(t.rows, AddAll(t, rows).rows, slots, rows)
  {
    hide Placed, NoDuplicates;
    if rows == [] {
      assert slots[..|slots|] == slots;
      NonePlaced(t.rows, slots);
    } else {
      var n := |rows| - 1;
      AddsTakeTop(t, base, slots, rows[..n]);
      var before, left := AddAll(t, rows[..n]), |slots| - n;
      assert Top(before) == slots[left - 1] && before.free[..|before.free| - 1] == base + slots[..left - 1];
      PlacedMore(t.rows, before.rows, slots, rows[..n], rows[n]);
      assert rows == rows[..n] + [rows[n]];
    }
  }

  lemma NonePlaced(rows: map<nat, Buf>, slots: seq<nat>)
    ensures Placed(rows, rows, slots, [])
  {
  }

  lemma SlotZeroStays(t: Table, width: nat)
    requires Conserved(t, width)
    ensures t.free != [] && t.free[0] == 0
  {
  }

  lemma IncreasingDiffer(slots: seq<nat>)
    requires Increasing(slots)
    ensures NoDuplicates(slots)
  {
  }

  /** After a delete of several rows, the next rows added get their slots, the highest first, and until
    those are used up every other row stays and no other slot is taken. */
  lemma DeleteThenAdd(t: Table, sel: Comparable, width: nat, slots: seq<nat>, rows: seq<Buf>)
    requires Comparables(sel, width) && Conserved(t, width) && Increasing(slots) && |rows| <= |slots|
    requires forall s: nat :: s in slots <==> s in t.rows && Matches(t.rows[s], sel)
    ensures var rest := DeleteRows(t, sel, width);
      Placed(rest.rows, AddAll(rest, rows).rows, slots, rows)
    ensures AddAll(DeleteRows(t, sel, width), rows).free == t.free + slots[..|slots| - |rows|]
  {
    hide DeleteRows, AddAll, Matches, Placed, Conserved, Increasing, NoDuplicates;
    ConservedWidth(t, width);
    DeleteFrees(t, sel, width, slots);
    SlotZeroStays(t, width);
    IncreasingDiffer(slots);
    AddsTakeTop(DeleteRows(t, sel, width), t.free, slots, rows);
  }

  // ---- Runs ----

  function EmptyTable(): Table {
    Table(map[], seq(MAX_OBJ_NUM, i => i))
  }

  lemma EmptyConserved(width: nat)
    ensures Conserved(EmptyTable(), width)
  {
    var t := EmptyTable();
    forall s: nat ensures s in t.free <==> s < MAX_OBJ_NUM {
      assert s < MAX_OBJ_NUM ==> t.free[s] == s;
    }
  }

  datatype Op = Add(row: Buf) | Delete(sel: Comparable) | Update(updSel: Comparable, bufs: seq<Buf>)

  /** The calls the layout admits. */
  predicate Admits(op: Op, width: nat) {
    match op
    case Add(row) => |row| == width
    case Delete(sel) => Comparables(sel, width)
    case Update(sel, bufs) => Comparables(sel, width) && Updates(sel, bufs, width)
  }

  function Apply(t: Table, op: Op, width: nat): Table
    requires Admits(op, width) && Width(t.rows, width)
  {
    match op
    case Add(row) => AddRow(t, row)
    case Delete(sel) => DeleteRows(t, sel, width)
    case Update(sel, bufs) => UpdateRows(t, sel, bufs, width)
  }

  lemma ApplyKeeps(t: Table, op: Op, width: nat)
    requires Admits(op, width) && Conserved(t, width)
    ensures Conserved(Apply(t, op, width), width)
  {
    match op
    case Add(row) => AddKeeps(t, row, width);
    case Delete(sel) => DeleteKeeps(t, sel, width);
    case Update(sel, bufs) => UpdateKeeps(t, sel, bufs, width);
  }

  /** The table after a run from the empty table, whose free stack holds all slots in order. */
  function RunOps(ops: seq<Op>, width: nat): (t: Table)
    requires forall op <- ops :: Admits(op, width)
    ensures Conserved(t, width)
  {
    if ops == [] then
      EmptyConserved(width);
      EmptyTable()
    else
      var n := |ops| - 1;
      var t := RunOps(ops[..n], width);
      ApplyKeeps(t, ops[n], width);
      Apply(t, ops[n], width)
  }

  /** In every reachable table all 32 slots are accounted for, an add is refused exactly when 31 rows
    are stored, and otherwise gets a slot that has a bit and holds no row; a live slot leaves room on
    the stack to be freed. */
  lemma EveryRunConservesSlots(ops: seq<Op>, width: nat)
    requires forall op <- ops :: Admits(op, width)
    ensures var t := RunOps(ops, width);
      && |t.free| + |t.rows| == MAX_OBJ_NUM
      && (Full(t) <==> |t.rows| == MAX_OBJ_NUM - 1)
      && (!Full(t) ==> MIN_BIT <= Top(t) < MAX_BIT && Top(t) !in t.rows)
      && (t.rows != map[] ==> |t.free| < MAX_OBJ_NUM)
  {
    var t := RunOps(ops, width);
    SlotCount(t, width);
    AddKeeps(t, seq(width, _ => 0), width);
  }

  /** The slots that hold given bytes. */
  function Holding(t: Table, row: Buf): set<nat> {
    set s | s in t.rows && t.rows[s] == row
  }

  /** As a bag of rows, slots forgotten: an add that is not refused adds one copy of its row and
    touches no other, and a delete removes every copy of a matching row and no other. */
  lemma BagOfRows(t: Table, row: Buf, sel: Comparable, width: nat, other: Buf)
    requires Conserved(t, width) && |row| == |other| == width && Comparables(sel, width)
    ensures |Holding(AddRow(t, row), other)| == |Holding(t, other)| + if !Full(t) && row == other then 1 else 0
    ensures Holding(DeleteRows(t, sel, width), other) == if Matches(other, sel) then {} else Holding(t, other)
  {
    AddHolds(t, row, width, other);
    DeleteHolds(t, sel, width, other);
  }

  lemma AddHolds(t: Table, row: Buf, width: nat, other: Buf)
    requires Conserved(t, width) && |row| == width
    ensures |Holding(AddRow(t, row), other)| == |Holding(t, other)| + if !Full(t) && row == other then 1 else 0
  {
    hide Conserved, Holding;
    AddKeeps(t, row, width);
    if !Full(t) {
      HoldingMore(t, row, other);
    }
  }

  lemma HoldingMore(t: Table, row: Buf, other: Buf)
    requires !Full(t) && Top(t) !in t.rows
    ensures Top(t) !in Holding(t, other)
    ensures Holding(AddRow(t, row), other) == if row == other then Holding(t, other) + {Top(t)} else Holding(t, other)
  {
  }

  lemma DeleteHolds(t: Table, sel: Comparable, width: nat, other: Buf)
    requires Conserved(t, width) && |other| == width && Comparables(sel, width)
    ensures Holding(DeleteRows(t, sel, width), other) == if Matches(other, sel) then {} else Holding(t, other)
  {
    DeleteKeeps(t, sel, width);
    hide DeleteRows, Matches;
    var t' := DeleteRows(t, sel, width);
    forall s: nat ensures s in Holding(t', other) <==> s in Holding(t, other) && !Matches(other, sel) {
    }
  }

  // ---- Reached tables ----

  /** The first rows added land in the highest slots. */
  lemma FirstAdd(a: Buf, width: nat)
    requires |a| == width
    ensures RunOps([Add(a)], width) == Table(map[31 := a], seq(31, i => i))
  {
    assert [Add(a)][..0] == [];
    assert RunOps([Add(a)], width) == AddRow(EmptyTable(), a);
  }

  lemma SecondAdd(a: Buf, b: Buf, width: nat)
    requires |a| == |b| == width
    ensures RunOps([Add(a), Add(b)], width) == Table(map[31 := a, 30 := b], seq(30, i => i))
  {
    FirstAdd(a, width);
    assert [Add(a), Add(b)][..1] == [Add(a)];
    assert RunOps([Add(a), Add(b)], width) == AddRow(RunOps([Add(a)], width), b);
  }

  /** Two integer columns, and two rows that have the number 7 in one of them each. */
  const INTS: Comparable := [
    Cond(ColumnDef("col1", 0, 4), [7, 0, 0, 0, 0, 0, 0, 0]), Cond(ColumnDef("col2", 4, 4), [7, 0, 0, 0, 0, 0, 0, 0])]
  const SEVEN_ZERO: Buf := [7, 0, 0, 0, 0, 0, 0, 0]
  const ZERO_SEVEN: Buf := [0, 0, 0, 0, 7, 0, 0, 0]

  /** Once both rows are added, no row has 7 in both columns, but the carried count reports one. */
  lemma CarryingScanFalseMatch()
    ensures var rows := RunOps([Add(SEVEN_ZERO), Add(ZERO_SEVEN)], 8).rows;
      && Comparables(INTS, 8)
      && Selected(rows, INTS, 8, MIN_BIT) == []
      && Scan(rows, INTS, 8, MIN_BIT, 0, false) != []
  {
    hide Hits, Matches, RunOps, Scan, Selected, INTS, SEVEN_ZERO, ZERO_SEVEN;
    HalfMatches();
    SecondAdd(SEVEN_ZERO, ZERO_SEVEN, 8);
    var rows := RunOps([Add(SEVEN_ZERO), Add(ZERO_SEVEN)], 8).rows;
    NoneSelected(rows, INTS, 8, MIN_BIT);
    CarryingScanExactIff(rows, INTS, 8);
    assert NoMatchBetween(rows, INTS, 8, 30, 31);
    assert HitsBetween(rows, INTS, 8, 30, 31) == 2;
    assert !SparseFrom(rows, INTS, 8, 30, 0);
  }

  /** A delete over the carried count takes one of these rows although none matches. */
  lemma CarriedDeleteTakesRow()
    ensures var t := RunOps([Add(SEVEN_ZERO), Add(ZERO_SEVEN)], 8);
      && Comparables(INTS, 8)
      && DeleteRows(t, INTS, 8).rows == t.rows
      && DeleteReported(t, INTS, 8, false).rows != t.rows
  {
    hide RunOps, Scan, Selected, Matches, INTS, SEVEN_ZERO, ZERO_SEVEN;
    HalfMatches();
    CarryingScanFalseMatch();
    var t := RunOps([Add(SEVEN_ZERO), Add(ZERO_SEVEN)], 8);
    var slots := Scan(t.rows, INTS, 8, MIN_BIT, 0, false);
    ScanIncreases(t.rows, INTS, 8, MIN_BIT, 0, false);
    assert slots[..|slots|] == slots && slots[0] in slots && slots[0] in t.rows;
  }

  lemma HalfMatches()
    ensures Comparables(INTS, 8)
    ensures |SEVEN_ZERO| == |ZERO_SEVEN| == 8 && |INTS| == 2
    ensures Hits(SEVEN_ZERO, INTS, 2) == Hits(ZERO_SEVEN, INTS, 2) == 1
    ensures !Matches(SEVEN_ZERO, INTS) && !Matches(ZERO_SEVEN, INTS)
  {
    var v: Buf := [7, 0, 0, 0];
    assert INTS[0].val[..4] == v == SEVEN_ZERO[0..4] == ZERO_SEVEN[4..8];
    assert SEVEN_ZERO[4..8][0] != v[0] && ZERO_SEVEN[0..4][0] != v[0];
    HitsStep(SEVEN_ZERO, INTS, 0);
    HitsStep(SEVEN_ZERO, INTS, 1);
    HitsStep(ZERO_SEVEN, INTS, 0);
    HitsStep(ZERO_SEVEN, INTS, 1);
    HitsMatch(SEVEN_ZERO, INTS);
    HitsMatch(ZERO_SEVEN, INTS);
  }
}
