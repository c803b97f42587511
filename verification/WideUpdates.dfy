/** Updates with values of any size, seen in the region: a wide value may reach the next row, the bytes
  behind the rows, or leave the region. */
module WideUpdates {
  import opened Bytes
  import opened Slots
  import opened Tables
  import opened Patches
  import opened TableOps
  import opened WideValues
  import opened Regions
  import opened CopiedBytes

  // ---- Outside the reported rows ----

  /** Reported slots in order, and a pointer that is set back. */
  ghost predicate Reports(data: Buf, p: Plan) {
    && p.restart && Region(data, p.width) && Comparables(p.sel, p.width)
    && Increasing(p.slots) && forall s <- p.slots :: MIN_BIT <= s < MAX_BIT
  }

  /** The region after all copies. */
  function After(data: Buf, p: Plan, bufs: seq<Buf>): (r: Option<Buf>)
    requires |bufs| == |p.sel|
    ensures r.Some? ==> |r.value| == |data|
  {
    Copied(data, p, bufs, |p.slots|, 0)
  }

  function Last(p: Plan): nat
    requires p.slots != []
  {
    |p.slots| - 1
  }

  /** No byte outside the reported rows changes. */
  ghost predicate Isolated(data: Buf, p: Plan, bufs: seq<Buf>)
    requires Region(data, p.width) && |bufs| == |p.sel|
  {
    var r := After(data, p, bufs);
    r.Some? && OnlyRows(data, r.value, p.width, Elements(p.slots))
  }

  lemma StaysIsolated(data: Buf, p: Plan, bufs: seq<Buf>)
    requires Reports(data, p) && Updates(p.sel, bufs, p.width)
    ensures Isolated(data, p, bufs)
    ensures Patched(data, After(data, p, bufs).value, p.width, p.sel, bufs, p.slots)
  {
    hide Copied, Patch, RowAt;
    CopiedPatches(data, p, bufs, |p.slots|);
    assert p.slots[..|p.slots|] == p.slots;
  }

  /** The first byte behind the last reported row. */
  function Behind(p: Plan): nat
    requires p.slots != []
  {
    p.slots[Last(p)] * p.width + p.width
  }

  lemma OutsideRow(data: Buf, now: Buf, width: nat, slots: set<nat>, s: nat)
    requires Region(data, width) && Region(now, width) && OnlyRows(data, now, width, slots)
    requires s < MAX_OBJ_NUM && s !in slots && width > 0
    ensures s * width < |data| && data[s * width] == now[s * width]
  {
    SlotInside(s, MAX_OBJ_NUM, width);
    assert RowAt(data, width, s)[0] == RowAt(now, width, s)[0];
  }

  lemma OutsideTail(data: Buf, now: Buf, width: nat, slots: set<nat>)
    requires Region(data, width) && Region(now, width) && OnlyRows(data, now, width, slots)
    requires MAX_OBJ_NUM * width < |data|
    ensures data[MAX_OBJ_NUM * width] == now[MAX_OBJ_NUM * width]
  {
    assert Tail(data, width)[0] == Tail(now, width)[0];
  }

  lemma BehindIsOutside(data: Buf, now: Buf, p: Plan)
    requires Reports(data, p) && p.slots != [] && |now| == |data| && Behind(p) < |data|
    requires OnlyRows(data, now, p.width, Elements(p.slots))
    ensures data[Behind(p)] == now[Behind(p)]
  {
    hide Comparables, OnlyRows, RowAt;
    var next := p.slots[Last(p)] + 1;
    assert Behind(p) == next * p.width;
    assert p.slots[Last(p)] in p.slots && next !in p.slots by {
      assert forall i :: 0 <= i < |p.slots| ==> p.slots[i] <= p.slots[Last(p)];
    }
    if next == MAX_OBJ_NUM || p.width == 0 {
      OutsideTail(data, now, p.width, Elements(p.slots));
    } else {
      OutsideRow(data, now, p.width, Elements(p.slots), next);
    }
  }

  /** Every value filled with one byte. */
  function Filled(bufs: seq<Buf>, v: Byte): seq<Buf> {
    seq(|bufs|, i requires 0 <= i < |bufs| => seq(|bufs[i]|, _ => v))
  }

  lemma FilledPuts(p: Plan, bufs: seq<Buf>, v: Byte, i: nat, j: nat, at: nat)
    requires |bufs| == |p.sel|
    ensures SameSizes(bufs, Filled(bufs, v)) && PutsOnly(p, Filled(bufs, v), i, j, at, v)
  {
  }

  lemma CrossingShows(data: Buf, p: Plan, bufs: seq<Buf>, j: nat) returns (b: seq<Buf>)
    requires Reports(data, p) && p.slots != [] && |bufs| == |p.sel|
    requires j < |p.sel| && p.sel[j].col.loc + |bufs[j]| > p.width
    ensures SameSizes(bufs, b) && !Isolated(data, p, b)
  {
    hide Copied, OnlyRows, PutsOnly, Filled;
    var at := Behind(p);
    var v: Byte := if at < |data| && data[at] == 1 then 2 else 1;
    b := Filled(bufs, v);
    FilledPuts(p, bufs, v, Last(p), j + 1, at);
    assert p.sel[j] in p.sel;
    assert Reaches(p, b, Last(p), j, at);
    assert ByteOf(p, b, Last(p), j, at) == v by { FilledByte(p, bufs, v, Last(p), j, at); }
    LastPut(data, p, b, Last(p), j, at);
    if Isolated(data, p, b) {
      BehindIsOutside(data, After(data, p, b).value, p);
    }
  }

  lemma FilledByte(p: Plan, bufs: seq<Buf>, v: Byte, i: nat, j: nat, at: nat)
    requires |bufs| == |p.sel| && IsCopy(p, i, j) && |Filled(bufs, v)| == |bufs|
    requires Reaches(p, Filled(bufs, v), i, j, at)
    ensures ByteOf(p, Filled(bufs, v), i, j, at) == v
  {
  }

  /** For every region: an update changes no byte outside the reported rows, and stays in the region, for
    all values of these sizes, if and only if it reports nothing or every value stays in its row. */
  lemma IsolatedIff(data: Buf, p: Plan, bufs: seq<Buf>)
    requires Reports(data, p) && |bufs| == |p.sel|
    ensures (forall b | SameSizes(bufs, b) :: Isolated(data, p, b))
      <==> p.slots == [] || Updates(p.sel, bufs, p.width)
  {
    hide Isolated;
    if p.slots == [] {
      forall b | SameSizes(bufs, b) ensures Isolated(data, p, b) {
        NothingCopied(data, p, b);
      }
    } else if Updates(p.sel, bufs, p.width) {
      forall b | SameSizes(bufs, b) ensures Isolated(data, p, b) {
        StaysIsolated(data, p, b);
      }
    } else {
      var j: nat :| j < |p.sel| && p.sel[j].col.loc + |bufs[j]| > p.width;
      var b := CrossingShows(data, p, bufs, j);
    }
  }

  lemma NothingCopied(data: Buf, p: Plan, bufs: seq<Buf>)
    requires Reports(data, p) && |bufs| == |p.sel| && p.slots == []
    ensures After(data, p, bufs) == Some(data) && Isolated(data, p, bufs)
  {
  }

  // ---- Wide values against cut ones ----

  /** The update with these values leaves what the update with the values cut to their columns leaves. */
  predicate CopiesAsCut(data: Buf, p: Plan, bufs: seq<Buf>)
    requires |bufs| == |p.sel|
  {
    After(data, p, bufs) == After(data, p, Trimmed(p.sel, bufs))
  }

  lemma CoveredStays(sel: Comparable, bufs: seq<Buf>, width: nat)
    requires Comparables(sel, width) && |bufs| == |sel| && SpillsCovered(sel, bufs)
    ensures Updates(sel, bufs, width)
  {
    hide SpillsCovered;
    forall j | 0 <= j < |sel| ensures sel[j].col.loc + |bufs[j]| <= width {
      if sel[j].col.loc + |bufs[j]| > width {
        PastRow(sel, bufs, width, j);
        assert false;
      }
    }
  }

  lemma CoveredCopiesAsCut(data: Buf, p: Plan, bufs: seq<Buf>)
    requires Reports(data, p) && |bufs| == |p.sel| && SpillsCovered(p.sel, bufs)
    ensures CopiesAsCut(data, p, bufs)
  {
    hide Copied, Patch, RowAt, SpillsCovered, Trimmed, Updates;
    var cut := Trimmed(p.sel, bufs);
    CoveredStays(p.sel, bufs, p.width);
    TrimmedStays(p.sel, bufs, p.width);
    StaysIsolated(data, p, bufs);
    StaysIsolated(data, p, cut);
    var now, now' := After(data, p, bufs).value, After(data, p, cut).value;
    forall s: nat | s < MAX_OBJ_NUM ensures RowAt(now, p.width, s) == RowAt(now', p.width, s) {
      CoveredCopies(RowAt(data, p.width, s), p.sel, bufs);
    }
    SameRows(now, now', p.width);
  }

  /** Zeros, but for one byte in all of value `j`. */
  function Marked(bufs: seq<Buf>, j: nat, v: Byte): (b: seq<Buf>)
    ensures SameSizes(bufs, b)
  {
    seq(|bufs|, i requires 0 <= i < |bufs| => seq(|bufs[i]|, _ => if i == j then v else 0))
  }

  /** Within one row, a copy reaches a byte exactly if its value covers it. */
  lemma ReachesIff(p: Plan, bufs: seq<Buf>, x: nat, j: nat, k: nat)
    requires |bufs| == |p.sel| && IsCopy(p, x, j)
    ensures Reaches(p, bufs, x, j, p.slots[x] * p.width + k) <==> Covers(p.sel, bufs, j, k)
  {
  }

  /** The cut form of value `j` does not reach a byte behind its column, in this row or an earlier one. */
  lemma CutReachesNot(p: Plan, bufs: seq<Buf>, x: nat, j: nat, k: nat)
    requires p.slots != [] && Increasing(p.slots) && |bufs| == |p.sel| && IsCopy(p, x, j)
    requires p.sel[j].col.loc + p.sel[j].col.typsz <= k
    ensures !Reaches(p, Trimmed(p.sel, bufs), x, j, p.slots[Last(p)] * p.width + k)
  {
    Times(p.slots[x], p.slots[Last(p)], p.width);
  }

  /** Behind the last reported row's column `j`, the marked value shows and its cut form does not. */
  lemma MarkShows(p: Plan, bufs: seq<Buf>, j: nat, v: Byte, k: nat, b: seq<Buf>, at: nat)
    requires p.slots != [] && Increasing(p.slots) && |bufs| == |p.sel| && v != 0
    requires j < |p.sel| && Spills(p.sel, bufs, j, k) && !CoveredAfter(p.sel, bufs, j, k)
    requires |b| == |p.sel| && b == Marked(bufs, j, v) && at == p.slots[Last(p)] * p.width + k
    ensures Reaches(p, b, Last(p), j, at) && PutsOnly(p, b, Last(p), j + 1, at, v)
    ensures PutsNever(p, Trimmed(p.sel, b), at, v)
  {
    var cut := Trimmed(p.sel, b);
    ReachesIff(p, b, Last(p), j, k);
    hide Reaches, ByteOf, Trimmed, Marked;
    forall x: nat, y: nat | IsCopy(p, x, y) && !Before(x, y, Last(p), j + 1)
      ensures !Reaches(p, b, x, y, at)
    {
      assert x == Last(p) && !Covers(p.sel, bufs, y, k);
      SizesCover(p.sel, bufs, b, y, k);
      ReachesIff(p, b, x, y, k);
    }
    forall x: nat, y: nat | IsCopy(p, x, y) && Reaches(p, cut, x, y, at) ensures ByteOf(p, cut, x, y, at) != v {
      if y == j {
        CutReachesNot(p, b, x, j, k);
        assert false;
      }
      CutByte(p, bufs, j, v, x, y, at);
    }
  }

  lemma MarkedByte(p: Plan, bufs: seq<Buf>, j: nat, v: Byte, x: nat, y: nat, at: nat)
    requires |bufs| == |p.sel| && IsCopy(p, x, y)
    ensures var b := Marked(bufs, j, v);
      Reaches(p, b, x, y, at) ==> ByteOf(p, b, x, y, at) == if y == j then v else 0
  {
  }

  lemma CutByte(p: Plan, bufs: seq<Buf>, j: nat, v: Byte, x: nat, y: nat, at: nat)
    requires |bufs| == |p.sel| && IsCopy(p, x, y) && Reaches(p, Trimmed(p.sel, Marked(bufs, j, v)), x, y, at)
    ensures ByteOf(p, Trimmed(p.sel, Marked(bufs, j, v)), x, y, at) == if y == j then v else 0
  {
  }

  lemma SpillShows(data: Buf, p: Plan, bufs: seq<Buf>, j: nat, k: nat) returns (b: seq<Buf>)
    requires Reports(data, p) && p.slots != [] && |bufs| == |p.sel|
    requires j < |p.sel| && Spills(p.sel, bufs, j, k) && !CoveredAfter(p.sel, bufs, j, k)
    ensures SameSizes(bufs, b) && !CopiesAsCut(data, p, b)
  {
    hide Copied, PutsOnly, PutsNever, Marked, Trimmed, Reaches, ByteOf, Spills, CoveredAfter;
    var at := p.slots[Last(p)] * p.width + k;
    var v: Byte := if at < |data| && data[at] == 1 then 2 else 1;
    b := Marked(bufs, j, v);
    MarkShows(p, bufs, j, v, k, b, at);
    MarkedByte(p, bufs, j, v, Last(p), j, at);
    LastPut(data, p, b, Last(p), j, at);
    var cut := Trimmed(p.sel, b);
    TrimmedStays(p.sel, b, p.width);
    StaysIsolated(data, p, cut);
    if at < |data| {
      Avoids(data, p, cut, |p.slots|, 0, at, v);
    }
  }

  /** For every region: the values, copied with their own sizes, leave what the values cut to their columns
    would leave, for all values of these sizes, if and only if nothing is reported or each byte that a
    value spills on is reached again by a later value. */
  lemma RawCopyIff(data: Buf, p: Plan, bufs: seq<Buf>)
    requires Reports(data, p) && |bufs| == |p.sel|
    ensures (forall b | SameSizes(bufs, b) :: CopiesAsCut(data, p, b)) <==> p.slots == [] || SpillsCovered(p.sel, bufs)
  {
    hide CopiesAsCut, Spills, CoveredAfter;
    if p.slots == [] {
      forall b | SameSizes(bufs, b) ensures CopiesAsCut(data, p, b) {
        NothingCut(data, p, b);
      }
    } else if SpillsCovered(p.sel, bufs) {
      forall b | SameSizes(bufs, b) ensures CopiesAsCut(data, p, b) {
        SizesSpill(p.sel, bufs, b);
        CoveredCopiesAsCut(data, p, b);
      }
    } else {
      var j: nat, k: nat :| j < |p.sel| && Spills(p.sel, bufs, j, k) && !CoveredAfter(p.sel, bufs, j, k);
      var b := SpillShows(data, p, bufs, j, k);
    }
  }

  lemma NothingCut(data: Buf, p: Plan, bufs: seq<Buf>)
    requires Reports(data, p) && |bufs| == |p.sel| && p.slots == []
    ensures CopiesAsCut(data, p, bufs)
  {
    hide Copied;
    NothingCopied(data, p, bufs);
    NothingCopied(data, p, Trimmed(p.sel, bufs));
  }

  lemma SizesSpill(sel: Comparable, bufs: seq<Buf>, b: seq<Buf>)
    requires |bufs| == |sel| && SameSizes(bufs, b) && SpillsCovered(sel, bufs)
    ensures SpillsCovered(sel, b)
  {
    hide CoveredAfter;
    forall j: nat, k: nat | j < |sel| && Spills(sel, b, j, k) ensures CoveredAfter(sel, b, j, k) {
      SizesCover(sel, bufs, b, j, k);
      assert Spills(sel, bufs, j, k);
    }
  }

  // ---- Looking for the new values ----

  /** The update stays in the region, and looking for the new values then finds every reported row. */
  ghost predicate FoundAgain(bits: bv32, data: Buf, p: Plan, bufs: seq<Buf>)
    requires Region(data, p.width) && Comparables(p.sel, p.width) && FillsColumns(p.sel, bufs)
  {
    RenewedComparable(p.sel, bufs, p.width);
    var r := After(data, p, bufs);
    r.Some? && forall s <- p.slots ::
      s in Selected(LiveRows(bits, r.value, p.width), Renewed(p.sel, bufs), p.width, MIN_BIT)
  }

  /** A copy into a later row reaches no byte of this one. */
  lemma LaterRow(p: Plan, bufs: seq<Buf>, x: nat, y: nat, j: nat, k: nat)
    requires Increasing(p.slots) && |bufs| == |p.sel| && IsCopy(p, y, j) && x < y && k < p.width
    ensures !Reaches(p, bufs, y, j, p.slots[x] * p.width + k)
  {
    Times(p.slots[x] + 1, p.slots[y], p.width);
    assert (p.slots[x] + 1) * p.width == p.slots[x] * p.width + p.width;
  }

  /** Later copies reach a byte of a named column only in the same row. */
  lemma ColumnPuts(p: Plan, bufs: seq<Buf>, x: nat, i: nat, k: nat, v: Byte)
    requires Increasing(p.slots) && |bufs| == |p.sel| && IsCopy(p, x, i) && k < p.width
    requires !CoveredAfter(p.sel, bufs, i, k)
    ensures PutsOnly(p, bufs, x, i + 1, p.slots[x] * p.width + k, v)
  {
    hide Reaches, ByteOf;
    forall y: nat, j: nat | IsCopy(p, y, j) && !Before(y, j, x, i + 1)
      ensures !Reaches(p, bufs, y, j, p.slots[x] * p.width + k)
    {
      if y == x {
        assert !Covers(p.sel, bufs, j, k);
        ReachesIff(p, bufs, x, j, k);
      } else {
        LaterRow(p, bufs, x, y, j, k);
      }
    }
  }

  lemma RowByte(data: Buf, width: nat, s: nat, k: nat)
    requires Region(data, width) && s < MAX_OBJ_NUM && k < width
    ensures s * width + k < |data| && RowAt(data, width, s)[k] == data[s * width + k]
  {
    SlotInside(s, MAX_OBJ_NUM, width);
  }

  /** A byte of a reported row is as the last value to reach it, in the same row, has it. */
  lemma RowLastPut(data: Buf, p: Plan, bufs: seq<Buf>, x: nat, i: nat, k: nat)
    requires Reports(data, p) && |bufs| == |p.sel| && After(data, p, bufs).Some?
    requires IsCopy(p, x, i) && k < p.width && Covers(p.sel, bufs, i, k) && !CoveredAfter(p.sel, bufs, i, k)
    ensures p.slots[x] < MAX_OBJ_NUM
    ensures RowAt(After(data, p, bufs).value, p.width, p.slots[x])[k] == bufs[i][k - p.sel[i].col.loc]
  {
    hide Copied, PutsOnly, CoveredAfter, RowAt;
    assert p.slots[x] in p.slots;
    var at := p.slots[x] * p.width + k;
    ReachesIff(p, bufs, x, i, k);
    ColumnPuts(p, bufs, x, i, k, ByteOf(p, bufs, x, i, at));
    LastPut(data, p, bufs, x, i, at);
    RowByte(After(data, p, bufs).value, p.width, p.slots[x], k);
  }

  lemma RowFound(data: Buf, p: Plan, bufs: seq<Buf>, x: nat)
    requires Reports(data, p) && FillsColumns(p.sel, bufs) && ColumnsKept(p.sel, bufs)
    requires After(data, p, bufs).Some? && x < |p.slots|
    ensures p.slots[x] < MAX_OBJ_NUM && Comparables(Renewed(p.sel, bufs), p.width)
    ensures Matches(RowAt(After(data, p, bufs).value, p.width, p.slots[x]), Renewed(p.sel, bufs))
  {
    hide After, ColumnsKept, RowAt, InColumn, CoveredAfter;
    assert p.slots[x] in p.slots;
    RenewedComparable(p.sel, bufs, p.width);
    var row := RowAt(After(data, p, bufs).value, p.width, p.slots[x]);
    forall i: nat, k: nat | i < |p.sel| && InColumn(p.sel, i, k)
      ensures k < p.width && Covers(p.sel, bufs, i, k) && row[k] == bufs[i][k - p.sel[i].col.loc]
    {
      ColumnByte(p.sel, bufs, p.width, i, k);
      KeptAt(p.sel, bufs, i, k);
      RowLastPut(data, p, bufs, x, i, k);
    }
    BytesMatch(row, p.sel, bufs);
  }

  lemma RowIsLive(bits: bv32, data: Buf, now: Buf, width: nat, sel: Comparable, s: nat)
    requires Region(data, width) && Region(now, width) && Comparables(sel, width)
    requires s in LiveRows(bits, data, width) && MIN_BIT <= s < MAX_BIT
    ensures s in Selected(LiveRows(bits, now, width), sel, width, MIN_BIT) <==> Matches(RowAt(now, width, s), sel)
  {
    SelectedExactly(LiveRows(bits, now, width), sel, width, MIN_BIT);
    SameKeys(bits, data, now, width);
    LiveAt(bits, now, width, s);
    hide LiveRows, Selected, RowAt, Matches;
  }

  lemma KeptFoundAgain(bits: bv32, data: Buf, p: Plan, bufs: seq<Buf>)
    requires Reports(data, p) && FillsColumns(p.sel, bufs) && ColumnsKept(p.sel, bufs)
    requires (forall s <- p.slots :: s in LiveRows(bits, data, p.width)) && After(data, p, bufs).Some?
    ensures FoundAgain(bits, data, p, bufs)
  {
    hide After, ColumnsKept, RowAt, LiveRows, Selected, Matches, Renewed, Comparables;
    RenewedComparable(p.sel, bufs, p.width);
    var now := After(data, p, bufs).value;
    forall s <- p.slots
      ensures s in Selected(LiveRows(bits, now, p.width), Renewed(p.sel, bufs), p.width, MIN_BIT)
    {
      var x :| 0 <= x < |p.slots| && p.slots[x] == s;
      RowFound(data, p, bufs, x);
      RowIsLive(bits, data, now, p.width, Renewed(p.sel, bufs), s);
    }
  }

  lemma LostAgain(bits: bv32, data: Buf, p: Plan, bufs: seq<Buf>, i: nat, k: nat)
    requires Reports(data, p) && FillsColumns(p.sel, bufs) && p.slots != []
    requires forall s <- p.slots :: s in LiveRows(bits, data, p.width)
    requires i < |p.sel| && InColumn(p.sel, i, k) && CoveredAfter(p.sel, bufs, i, k)
    ensures var b := ZerosThenOnes(bufs, i);
      SameSizes(bufs, b) && FillsColumns(p.sel, b) && !FoundAgain(bits, data, p, b)
  {
    hide After, RowAt, LiveRows, Selected, Matches, Renewed, InColumn, ZerosThenOnes, CoveredAfter;
    var b, s := ZerosThenOnes(bufs, i), p.slots[Last(p)];
    ZerosAndOnes(p.sel, bufs, p.width, i);
    ColumnByte(p.sel, bufs, p.width, i, k);
    RenewedComparable(p.sel, b, p.width);
    var j := LastCover(p.sel, bufs, i, k);
    SizesCover(p.sel, bufs, b, j, k);
    assert s in p.slots;
    if FoundAgain(bits, data, p, b) {
      var now := After(data, p, b).value;
      RowIsLive(bits, data, now, p.width, Renewed(p.sel, b), s);
      FoundByte(RowAt(now, p.width, s), p.sel, b, i, k);
      RowLastPut(data, p, b, Last(p), j, k);
      assert false;
    }
  }

  /** For every region and values that fill their columns: after an update, looking for the new values
    finds every row that was updated, for all values of these sizes, if and only if nothing matched, or
    no copy leaves the region and no value reaches a column named before it. Values may be wider than
    their columns and reach over the next rows. */
  lemma FoundAgainIff(bits: bv32, data: Buf, width: nat, sel: Comparable, bufs: seq<Buf>)
    requires Region(data, width) && Comparables(sel, width) && FillsColumns(sel, bufs)
    ensures var slots := Selected(LiveRows(bits, data, width), sel, width, MIN_BIT);
      var p := Plan(slots, sel, width, true);
      (forall b | SameSizes(bufs, b) :: FoundAgain(bits, data, p, b)) <==>
        slots == [] || (InsideBefore(p, bufs, |slots|, 0, |data|) && ColumnsKept(sel, bufs))
  {
    hide FoundAgain, LiveRows, Selected, InsideBefore, InColumn, CoveredAfter, Copied;
    var slots := Selected(LiveRows(bits, data, width), sel, width, MIN_BIT);
    var p := Plan(slots, sel, width, true);
    SelectedExactly(LiveRows(bits, data, width), sel, width, MIN_BIT);
    assert Reports(data, p);
    if slots == [] {
      forall b | SameSizes(bufs, b) ensures FoundAgain(bits, data, p, b) {
        NothingFound(bits, data, p, b);
      }
    } else if !InsideBefore(p, bufs, |slots|, 0, |data|) {
      InsideIff(data, p, bufs, |slots|, 0);
      FoundInside(bits, data, p, bufs);
      assert SameSizes(bufs, bufs);
    } else if ColumnsKept(sel, bufs) {
      forall b | SameSizes(bufs, b) ensures FoundAgain(bits, data, p, b) {
        SizesKeep(sel, bufs, b);
        SizesInside(p, bufs, b, |slots|, 0, |data|);
        InsideIff(data, p, b, |slots|, 0);
        KeptFoundAgain(bits, data, p, b);
      }
    } else {
      var i: nat, k: nat :| i < |sel| && InColumn(sel, i, k) && CoveredAfter(sel, bufs, i, k);
      LostAgain(bits, data, p, bufs, i, k);
    }
  }

  lemma NothingFound(bits: bv32, data: Buf, p: Plan, bufs: seq<Buf>)
    requires Reports(data, p) && FillsColumns(p.sel, bufs) && p.slots == []
    ensures FoundAgain(bits, data, p, bufs)
  {
    hide Copied;
    NothingCopied(data, p, bufs);
  }

  lemma FoundInside(bits: bv32, data: Buf, p: Plan, bufs: seq<Buf>)
    requires Region(data, p.width) && Comparables(p.sel, p.width) && FillsColumns(p.sel, bufs)
    ensures FoundAgain(bits, data, p, bufs) ==> Copied(data, p, bufs, |p.slots|, 0).Some?
  {
  }

  lemma SizesInside(p: Plan, bufs: seq<Buf>, b: seq<Buf>, k: nat, l: nat, size: nat)
    requires |bufs| == |p.sel| && SameSizes(bufs, b) && InsideBefore(p, bufs, k, l, size)
    ensures InsideBefore(p, b, k, l, size)
  {
    forall i: nat, j: nat | IsCopy(p, i, j) && Before(i, j, k, l) ensures Inside(p, b, i, j, size) {
      assert Inside(p, bufs, i, j, size);
    }
  }

  // ---- A value that reaches the next row ----

  /** In any region that holds the two rows just added, an update of the second column of the row in slot
    30 with a value of eight bytes overwrites the first column of the row in slot 31, which does not
    match. */
  lemma WideValueCrosses(bits: bv32, data: Buf)
    requires Region(data, 8)
    requires LiveRows(bits, data, 8) == RunOps([Add(SEVEN_ZERO), Add(ZERO_SEVEN)], 8).rows
    ensures var sel := [INTS[1]];
      && Comparables(sel, 8)
      && Selected(LiveRows(bits, data, 8), sel, 8, MIN_BIT) == [30]
      && var p, was := Plan([30], sel, 8, true), RowAt(data, 8, 31);
      && var r := After(data, p, [TWO_INTS]);
      && was == SEVEN_ZERO && r.Some? && RowAt(r.value, 8, 31)[0] == 9
      && !Isolated(data, p, [TWO_INTS])
  {
    hide INTS, RunOps, Selected, Matches, Copied, RowAt, LiveRows, SEVEN_ZERO, ZERO_SEVEN;
    FirstColumn();
    SecondMatches();
    var sel, bufs, rows := [INTS[1]], [TWO_INTS], LiveRows(bits, data, 8);
    var p := Plan([30], sel, 8, true);
    SecondAdd(SEVEN_ZERO, ZERO_SEVEN, 8);
    SelectedOne(rows, sel, 8, 30);
    LiveAt(bits, data, 8, 31);
    InsideIff(data, p, bufs, 1, 0);
    LastPut(data, p, bufs, 0, 0, 248);
    RowByte(After(data, p, bufs).value, 8, 31, 0);
  }

  lemma SecondMatches()
    ensures |SEVEN_ZERO| == |ZERO_SEVEN| == 8 && SEVEN_ZERO[0] == 7 && |INTS| == 2 && Comparables([INTS[1]], 8)
    ensures Matches(ZERO_SEVEN, [INTS[1]]) && !Matches(SEVEN_ZERO, [INTS[1]])
  {
    var c := INTS[1];
    assert c in [INTS[1]] && forall d <- [INTS[1]] :: d == c;
    assert ZERO_SEVEN[4..8] == c.val[..4];
    assert SEVEN_ZERO[4..8][0] == 0 && |c.val| == 8 && c.val[..4][0] == 7;
  }
}
