/** The array layout: rows in a byte region, a stack of free slots and a word of live bits that
  together behave as a table. */
module Layout {
  import opened Bytes
  import opened Regions
  import opened Slots
  import opened Tables
  import opened Patches
  import opened TableOps

  // ---- Header ----

  type Header = seq<ColumnDef>

  /** The width of the first `n` columns. */
  function RowWidth(h: Header, n: nat): nat
    requires n <= |h|
  {
    if n == 0 then 0 else RowWidth(h, n - 1) + h[n - 1].typsz
  }

  /** Columns lie one behind the other. */
  predicate Packed(h: Header) {
    && 0 < |h| < MAX_COL_NUM
    && forall i :: 0 <= i < |h| ==> h[i].loc == RowWidth(h, i) && h[i].typsz > 0
  }

  lemma {:induction false} WidthMonotone(h: Header, m: nat, n: nat)
    requires m <= n <= |h|
    ensures RowWidth(h, m) <= RowWidth(h, n)
  {
    if m == n {
    } else {
      WidthMonotone(h, m, n - 1);
    }
  }

  /** The first column with the given name; None is the null pointer of a failed search. */
  method GetDefByName(h: Header, name: string) returns (c: Option<ColumnDef>)
    ensures FirstNamed(h, name, c)
  {
    for i := 0 to |h|
      invariant forall j :: 0 <= j < i ==> h[j].name != name
    {
      if h[i].name == name {
        return Some(h[i]);
      }
    }
    return None;
  }

  ghost predicate FirstNamed(h: Header, name: string, c: Option<ColumnDef>) {
    match c
    case None => forall d <- h :: d.name != name
    case Some(d) =>
      && d.name == name
      && exists i :: 0 <= i < |h| && h[i] == d && forall j :: 0 <= j < i ==> h[j].name != name
  }

  const RAW_VAL_SIZE: nat := 8

  /** The name is unknown, or that of a column wider than the eight bytes of a raw value. */
  ghost predicate Unresolvable(h: Header, name: string) {
    exists c :: FirstNamed(h, name, c) && (c == None || c.value.typsz > RAW_VAL_SIZE)
  }

  /** Resolve column names to conditions. None if a name cannot be resolved. */
  method MakeComparable(h: Header, names: seq<string>, vals: seq<Buf>) returns (sel: Option<Comparable>)
    requires 0 < |names| == |vals| <= MAX_COL_NUM && Packed(h)
    requires forall v <- vals :: |v| == RAW_VAL_SIZE
    ensures sel.Some? ==> Comparables(sel.value, RowWidth(h, |h|)) && |sel.value| == |names|
    ensures sel.Some? ==> forall i :: 0 <= i < |names| ==>
      FirstNamed(h, names[i], Some(sel.value[i].col)) && sel.value[i].val == vals[i]
    ensures sel == None ==> exists i :: 0 <= i < |names| && Unresolvable(h, names[i])
  {
    hide FirstNamed, RowWidth;
    var cs: Comparable := [];
    for i := 0 to |names|
      invariant |cs| == i
      invariant forall j :: 0 <= j < i ==> FirstNamed(h, names[j], Some(cs[j].col)) && cs[j].val == vals[j]
      invariant forall c <- cs :: InRow(c.col, RowWidth(h, |h|)) && c.col.typsz <= |c.val|
    {
      var c := GetDefByName(h, names[i]);
      if c == None || c.value.typsz > RAW_VAL_SIZE {
        assert Unresolvable(h, names[i]);
        return None;
      }
      ColumnInside(h, names[i], c.value);
      cs := cs + [Cond(c.value, vals[i])];
    }
    return Some(cs);
  }

  lemma ColumnInside(h: Header, name: string, c: ColumnDef)
    requires Packed(h) && FirstNamed(h, name, Some(c))
    ensures InRow(c, RowWidth(h, |h|))
  {
    var k :| 0 <= k < |h| && h[k] == c;
    WidthMonotone(h, k + 1, |h|);
  }

  /** Each reported slot is live, and comes with its row. */
  ghost predicate Found(rows: map<nat, Buf>, indices: seq<nat>, resData: seq<Buf>) {
    && |resData| == |indices|
    && forall i :: 0 <= i < |indices| ==> indices[i] in rows && resData[i] == rows[indices[i]]
  }

  lemma FoundNone(rows: map<nat, Buf>)
    ensures Found(rows, [], [])
  {
  }

  lemma FoundMore(rows: map<nat, Buf>, indices: seq<nat>, resData: seq<Buf>, s: nat)
    requires Found(rows, indices, resData) && s in rows
    ensures Found(rows, indices + [s], resData + [rows[s]])
  {
  }

  lemma StackHasRoom(t: Table, slots: seq<nat>, i: nat, width: nat)
    requires i < |slots| && NoDuplicates(slots) && slots[i] in t.rows && Conserved(Release(t, slots, i), width)
    ensures |Release(t, slots, i).free| < MAX_OBJ_NUM
  {
    SlotCount(Release(t, slots, i), width);
    assert slots[i] in Release(t, slots, i).rows;
  }

  lemma ReleaseNone(t: Table, slots: seq<nat>)
    ensures Release(t, slots, 0) == t
  {
  }

  lemma NothingToDelete(t: Table, sel: Comparable, width: nat, restart: bool)
    requires Comparables(sel, width) && t.rows == map[]
    ensures DeleteReported(t, sel, width, restart) == t && Scan(t.rows, sel, width, MIN_BIT, 0, restart) == []
  {
    ScanIncreases(t.rows, sel, width, MIN_BIT, 0, restart);
    var slots := Scan(t.rows, sel, width, MIN_BIT, 0, restart);
    DistinctCount(slots);
    assert Elements(slots) == {};
    ReleaseNone(t, slots);
  }

  lemma NothingLive(data: Buf, width: nat)
    requires Region(data, width)
    ensures LiveRows(0, data, width) == map[]
  {
  }

  lemma EmptyBits()
    ensures BitSet(0) == {}
  {
  }

  class ArrayLayout {
    const header: Header
    const totTypSz: nat
    const stack: Stack
    const bitMap: BitMap
    const data: array<Byte>

    ghost predicate Valid()
      reads stack, stack.pstack, bitMap, data
    {
      && stack.Valid() && stack.sz == MAX_OBJ_NUM
      && Packed(header) && totTypSz == RowWidth(header, |header|)
      && Region(data[..], totTypSz)
      && (forall s <- BitSet(bitMap.bits) :: s < MAX_OBJ_NUM)
      && Conserved(T(), totTypSz)
    }

    /** The table that the region, the bits and the stack stand for. */
    ghost function T(): Table
      requires stack.Valid() && Region(data[..], totTypSz)
      reads stack, stack.pstack, bitMap, data
    {
      Table(LiveRows(bitMap.bits, data[..], totTypSz), stack.Contents())
    }

    /** An empty layout over a region of `i_sz` bytes. */
    constructor (head: Header, i_sz: nat)
      requires Packed(head) && i_sz >= MAX_OBJ_NUM * RowWidth(head, |head|)
      ensures Valid() && T() == EmptyTable()
      ensures header == head && data.Length == i_sz
      ensures fresh(stack) && fresh(stack.pstack) && fresh(bitMap) && fresh(data)
    {
      header := head;
      totTypSz := RowWidth(head, |head|);
      stack := new Stack(MAX_OBJ_NUM);
      bitMap := new BitMap();
      data := new Byte[i_sz](_ => 0);
      new;
      for i := 0 to MAX_OBJ_NUM
        invariant stack.Valid() && stack.sz == MAX_OBJ_NUM
        invariant stack.Contents() == seq(i, k => k)
        invariant bitMap.bits == 0
      {
        var _ := stack.Push(i);
      }
      EmptyBits();
      EmptyConserved(totTypSz);
    }

    /** Copy a row to the region, column by column. */
    method CopyColumns(vpdata: nat, dat: Buf)
      requires vpdata + totTypSz <= data.Length && |dat| >= totTypSz == RowWidth(header, |header|)
      modifies data
      ensures data[..] == Splice(old(data[..]), vpdata, dat[..totTypSz])
    {
      hide Splice;
      ghost var was := data[..];
      var copied: nat := 0;
      SpliceNothing(was, vpdata);
      assert dat[..0] == [];
      for i := 0 to |header|
        invariant copied == RowWidth(header, i) <= totTypSz
        invariant data[..] == Splice(was, vpdata, dat[..copied])
      {
        WidthMonotone(header, i + 1, |header|);
        var typsz := header[i].typsz;
        SpliceMore(was, vpdata, dat[..copied], dat[copied..copied + typsz]);
        assert dat[..copied] + dat[copied..copied + typsz] == dat[..copied + typsz];
        CopyInto(data, vpdata + copied, dat[copied..copied + typsz]);
        copied := copied + typsz;
      }
    }

    /** Store a row in a slot. */
    method WriteSlot(slot: nat, dat: Buf)
      requires slot < MAX_OBJ_NUM && Region(data[..], totTypSz) && |dat| >= totTypSz
      requires Packed(header) && totTypSz == RowWidth(header, |header|)
      modifies data
      ensures RowAt(data[..], totTypSz, slot) == dat[..totTypSz]
      ensures OnlyRows(old(data[..]), data[..], totTypSz, {slot})
    {
      hide Splice, RowAt, OnlyRows, Packed, RowWidth;
      SlotInside(slot, MAX_OBJ_NUM, totTypSz);
      WriteRow(data[..], totTypSz, slot, dat[..totTypSz]);
      CopyColumns(slot * totTypSz, dat);
    }

    /** Store a row in a free slot: 0, or -1 when only the unusable slot 0 is free. */
    method AddEntry(dat: Buf) returns (r: int)
      requires Valid() && |dat| >= totTypSz
      modifies stack`capacity, bitMap, data
      ensures Valid() && T() == AddRow(old(T()), dat[..totTypSz])
      ensures r == if Full(old(T())) then -1 else 0
      ensures OnlyRows(old(data[..]), data[..], totTypSz, if r == 0 then {Top(old(T()))} else {})
    {
      hide BitSet, Conserved, LiveRows, RowAt;
      ghost var t, bits, was := T(), bitMap.bits, data[..];
      AddKeeps(t, dat[..totTypSz], totTypSz);
      if stack.capacity <= 1 {
        return -1;
      }
      var slot := stack.Pop();
      bitMap.BitOn(slot);
      WriteSlot(slot, dat);
      LiveOn(bits, bitMap.bits, was, data[..], totTypSz, slot, dat[..totTypSz]);
      return 0;
    }

    /** Compare one row with every condition, on top of `carried` conditions met before. Stops early,
      with the count back at zero, once all conditions are accounted for. */
    method MatchRow(slot: nat, sel: Comparable, carried: nat) returns (matchesFound: nat, full: bool)
      requires Region(data[..], totTypSz) && Comparables(sel, totTypSz) && slot < MAX_OBJ_NUM && carried < |sel|
      ensures var count := carried + Hits(RowAt(data[..], totTypSz, slot), sel, |sel|);
        full == (count >= |sel|) && matchesFound == if full then 0 else count
    {
      hide RowAt, Region, Hits, Comparables;
      ghost var region, row := data[..], RowAt(data[..], totTypSz, slot);
      var vpdata := slot * totTypSz;
      matchesFound := carried;
      HitsNone(row, sel);
      for compIndx := 0 to |sel|
        invariant matchesFound == carried + Hits(row, sel, compIndx) < |sel|
      {
        var c := sel[compIndx];
        HitsStepAt(region, totTypSz, slot, sel, compIndx);
        var at := vpdata + c.col.loc;
        assert data[at..at + c.col.typsz] == region[at..at + c.col.typsz];
        if c.val[..c.col.typsz] == data[at..at + c.col.typsz] {
          matchesFound := matchesFound + 1;
          if matchesFound == |sel| {
            HitsMonotone(row, sel, compIndx + 1, |sel|);
            return 0, true;
          }
        }
      }
      return matchesFound, false;
    }

    /** A copy of a row. */
    function ReadRow(slot: nat): (row: Buf)
      requires slot < MAX_OBJ_NUM && Region(data[..], totTypSz)
      reads data
      ensures row == RowAt(data[..], totTypSz, slot)
    {
      SlotInside(slot, MAX_OBJ_NUM, totTypSz);
      data[slot * totTypSz..slot * totTypSz + totTypSz]
    }

    /** One step of the scan: nothing for a slot that is not live, otherwise the comparison of its row, and
      a copy of the row if all conditions are accounted for. */
    method ScanSlot(slot: nat, sel: Comparable, carried: nat, restart: bool, ghost rows: map<nat, Buf>)
      returns (matchesFound: nat, found: Option<Buf>)
      requires Valid() && rows == T().rows
      requires Comparables(sel, totTypSz) && MIN_BIT <= slot < MAX_BIT && carried < |sel|
      ensures slot !in rows ==> found == None && matchesFound == carried
      ensures slot in rows ==>
        var count := (if restart then 0 else carried) + Hits(rows[slot], sel, |sel|);
        if count >= |sel| then found == Some(rows[slot]) && matchesFound == 0
        else found == None && matchesFound == count
    {
      hide Conserved, Hits, BitSet, LiveRows, RowAt, Packed, RowWidth, Region;
      LiveAt(bitMap.bits, data[..], totTypSz, slot);
      var on := bitMap.IsOn(slot);
      if !on {
        return carried, None;
      }
      var full;
      matchesFound, full := MatchRow(slot, sel, if restart then 0 else carried);
      found := if full then Some(ReadRow(slot)) else None;
    }

    /** The live slots whose rows meet the conditions, with their rows. `restart` clears the count of
      met conditions at every row; the code carries it from row to row. */
    method FindEntry(sel: Comparable, restart: bool) returns (indices: seq<nat>, resData: seq<Buf>)
      requires Valid() && Comparables(sel, totTypSz)
      ensures indices == Scan(T().rows, sel, totTypSz, MIN_BIT, 0, restart)
      ensures |indices| < MAX_OBJ_NUM && Found(T().rows, indices, resData)
    {
      hide Conserved, Hits, BitSet, LiveRows, RowAt, Scan, Packed, RowWidth, Region, Found;
      ghost var rows := T().rows;
      ghost var goal := Scan(rows, sel, totTypSz, MIN_BIT, 0, restart);
      indices, resData := [], [];
      FoundNone(rows);
      assert goal == [] + goal;
      var matchesFound: nat := 0;
      for objIndx := MIN_BIT to MAX_BIT
        invariant Valid() && T().rows == rows && matchesFound < |sel|
        invariant |indices| < objIndx && Found(rows, indices, resData)
        invariant goal == indices + Scan(rows, sel, totTypSz, objIndx, matchesFound, restart)
      {
        ScanStep(rows, sel, totTypSz, objIndx, matchesFound, restart);
        var found;
        matchesFound, found := ScanSlot(objIndx, sel, matchesFound, restart, rows);
        if found.Some? {
          FoundMore(rows, indices, resData, objIndx);
          Associative(indices, [objIndx], Scan(rows, sel, totTypSz, objIndx + 1, 0, restart));
          indices := indices + [objIndx];
          resData := resData + [found.value];
        }
      }
      ScanStep(rows, sel, totTypSz, MAX_BIT, matchesFound, restart);
    }

    /** Free the slots of all rows the scan reports and return how many there were; with `restart`, those
      of all matching rows. */
    method DelEntry(sel: Comparable, restart: bool) returns (n: nat)
      requires Valid() && Comparables(sel, totTypSz)
      modifies stack`capacity, stack.pstack, bitMap
      ensures Valid() && T() == DeleteReported(old(T()), sel, totTypSz, restart)
      ensures n == |Scan(old(T()).rows, sel, totTypSz, MIN_BIT, 0, restart)|
      ensures restart ==>
        && T() == DeleteRows(old(T()), sel, totTypSz)
        && n == |Selected(old(T()).rows, sel, totTypSz, MIN_BIT)|
    {
      hide Conserved, LiveRows, RowAt, Scan, Selected, BitSet, Packed, RowWidth, Release, DeleteRows;
      ghost var t := T();
      DeleteReportedKeeps(t, sel, totTypSz, restart);
      RestartingScanExact(t.rows, sel, totTypSz, MIN_BIT, 0);
      if bitMap.bits == 0 {
        NothingLive(data[..], totTypSz);
        NothingToDelete(t, sel, totTypSz, restart);
        return 0;
      }
      var slots, _ := FindEntry(sel, restart);
      ScanIncreases(t.rows, sel, totTypSz, MIN_BIT, 0, restart);
      ReleaseNone(t, slots);
      for i := 0 to |slots|
        invariant Valid() && T() == Release(t, slots, i)
      {
        FreeSlot(t, slots, i);
      }
      return |slots|;
    }

    /** Push one slot and switch its bit off: the next step of a delete. */
    method FreeSlot(ghost t: Table, slots: seq<nat>, i: nat)
      requires i < |slots| && slots[i] in t.rows && MIN_BIT <= slots[i] < MAX_BIT
      requires Conserved(t, totTypSz) && NoDuplicates(slots) && forall s <- slots :: s in t.rows
      requires Valid() && T() == Release(t, slots, i)
      modifies stack`capacity, stack.pstack, bitMap
      ensures Valid() && T() == Release(t, slots, i + 1)
    {
      hide Conserved, LiveRows, RowAt, BitSet, Packed, RowWidth, Release, Region;
      ghost var bits := bitMap.bits;
      ReleaseKeeps(t, slots, i + 1, totTypSz);
      StackHasRoom(t, slots, i, totTypSz);
      LiveOffAll(bits, data[..], totTypSz, t, slots, i);
      var _ := stack.Push(slots[i]);
      bitMap.BitOff(slots[i]);
    }

    /** Copy every value into every slot, at a pointer that is set back for each or runs on. Stops at a
      copy that would leave the region; otherwise counts rows, or, as the code has it, copies. */
    method CopyValues(slots: seq<nat>, sel: Comparable, bufs: seq<Buf>, restart: bool) returns (upd: Option<nat>)
      requires |bufs| == |sel|
      modifies data
      ensures var p := Plan(slots, sel, totTypSz, restart);
        && upd == (if Copied(old(data[..]), p, bufs, |slots|, 0) == None then None else Some(Count(p)))
        && LeftBy(old(data[..]), p, bufs, data[..])
    {
      hide Copied, Pointer, LeftBy;
      ghost var p, was := Plan(slots, sel, totTypSz, restart), data[..];
      var vpdata: nat, count: nat := 0, 0;
      CopiedStart(was, p, bufs);
      for i := 0 to |slots|
        invariant Copied(was, p, bufs, i, 0) == Some(data[..])
        invariant i > 0 ==> restart || vpdata == Pointer(p, i - 1, |sel|)
        invariant count == Counted(p, i, 0)
      {
        PointerRow(p, i);
        vpdata := (if restart || i == 0 then 0 else vpdata) + slots[i] * totTypSz;
        for j := 0 to |sel|
          invariant Copied(was, p, bufs, i, j) == Some(data[..])
          invariant vpdata == Pointer(p, i, j)
          invariant count == Counted(p, i, j)
        {
          CopiedStep(was, p, bufs, i, j, data[..]);
          vpdata := (if restart then slots[i] * totTypSz else vpdata) + sel[j].col.loc;
          if vpdata + |bufs[j]| > data.Length {
            CopiedBefore(was, p, bufs, i, j + 1, |slots|, 0);
            LeftEarly(was, p, bufs, i, j, data[..]);
            return None;
          }
          CopyInto(data, vpdata, bufs[j]);
          count := if restart then count else count + 1;
        }
        CopiedRowEnd(was, p, bufs, i);
        count := if restart then count + 1 else count;
      }
      LeftDone(was, p, bufs, data[..]);
      return Some(count);
    }

    /** Overwrite the named columns of every matching row, and nothing else in the region, and return the
      number of rows; values may be wider than their columns. Without `restart` this is the code as
      written, in which neither the count of met conditions nor the pointer is ever set back. */
    method UpdateEntry(sel: Comparable, bufs: seq<Buf>, restart: bool) returns (upd: Option<nat>)
      requires Valid() && Comparables(sel, totTypSz) && |bufs| == |sel|
      modifies data
      ensures Valid()
      ensures var p := Plan(Scan(old(T()).rows, sel, totTypSz, MIN_BIT, 0, restart), sel, totTypSz, restart);
        && upd == (if Copied(old(data[..]), p, bufs, |p.slots|, 0) == None then None else Some(Count(p)))
        && LeftBy(old(data[..]), p, bufs, data[..])
      ensures restart && Updates(sel, bufs, totTypSz) ==>
        var slots := Selected(old(T()).rows, sel, totTypSz, MIN_BIT);
        && upd == Some(|slots|)
        && Patched(old(data[..]), data[..], totTypSz, sel, bufs, slots)
        && T() == UpdateRows(old(T()), sel, bufs, totTypSz)
    {
      hide Conserved, LiveRows, RowAt, Scan, Selected, UpdateRows, Packed, RowWidth, Patched, Copied, LeftBy, Updates;
      ghost var t, was, bits := T(), data[..], bitMap.bits;
      var slots, _ := FindEntry(sel, restart);
      upd := CopyValues(slots, sel, bufs, restart);
      LeftLength(was, Plan(slots, sel, totTypSz, restart), bufs, data[..]);
      StaysConserved(bits, was, data[..], totTypSz, t.free);
      if restart && Updates(sel, bufs, totTypSz) {
        RestartingScanExact(t.rows, sel, totTypSz, MIN_BIT, 0);
        RegionPatched(bits, was, data[..], Plan(slots, sel, totTypSz, true), bufs, t.free);
      }
    }
  }
}
