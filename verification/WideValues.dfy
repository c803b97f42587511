/** New values wider than their columns: the update copies each value with its own size, so a wide one
  spills over the bytes behind its column. */
module WideValues {
  import opened Bytes
  import opened Tables
  import opened Patches
  import opened TableOps

  /** The values with nothing behind their columns' widths. */
  function Trimmed(sel: Comparable, bufs: seq<Buf>): (t: seq<Buf>)
    requires |bufs| == |sel|
    ensures |t| == |sel|
  {
    seq(|sel|, i requires 0 <= i < |sel| => bufs[i][..Min(|bufs[i]|, sel[i].col.typsz)])
  }

  lemma TrimmedStays(sel: Comparable, bufs: seq<Buf>, width: nat)
    requires Comparables(sel, width) && |bufs| == |sel|
    ensures Updates(sel, Trimmed(sel, bufs), width)
  {
    forall i | 0 <= i < |sel| ensures sel[i].col.loc + |Trimmed(sel, bufs)[i]| <= width {
      assert sel[i] in sel;
    }
  }

  /** Value `j` reaches byte `k` of the row, which lies behind its column. */
  predicate Spills(sel: Comparable, bufs: seq<Buf>, j: nat, k: nat)
    requires |bufs| == |sel| && j < |sel|
  {
    Covers(sel, bufs, j, k) && sel[j].col.loc + sel[j].col.typsz <= k
  }

  ghost predicate SpillsCovered(sel: Comparable, bufs: seq<Buf>)
    requires |bufs| == |sel|
  {
    forall j: nat, k: nat :: j < |sel| && Spills(sel, bufs, j, k) ==> CoveredAfter(sel, bufs, j, k)
  }

  /** The raw copy leaves the row that copying the trimmed values would leave. */
  predicate CopiesColumns(row: Buf, sel: Comparable, bufs: seq<Buf>)
    requires Comparables(sel, |row|) && Updates(sel, bufs, |row|)
  {
    TrimmedStays(sel, bufs, |row|);
    Patch(row, sel, bufs, |sel|) == Patch(row, sel, Trimmed(sel, bufs), |sel|)
  }

  /** With no value from `n` on reaching byte `k`, the first `n` leave it as their trimmed forms do. */
  lemma {:induction false} SameByte(row: Buf, sel: Comparable, bufs: seq<Buf>, n: nat, k: nat)
    requires Comparables(sel, |row|) && Updates(sel, bufs, |row|) && SpillsCovered(sel, bufs)
    requires Updates(sel, Trimmed(sel, bufs), |row|)
    requires n <= |sel| && k < |row| && forall i :: n <= i < |sel| ==> !Covers(sel, bufs, i, k)
    ensures Patch(row, sel, bufs, n)[k] == Patch(row, sel, Trimmed(sel, bufs), n)[k]
  {
    hide Patch;
    if n == 0 {
      NoPatch(row, sel, bufs);
      NoPatch(row, sel, Trimmed(sel, bufs));
    } else {
      PatchStep(row, sel, bufs, n - 1, k);
      PatchStep(row, sel, Trimmed(sel, bufs), n - 1, k);
      if Covers(sel, bufs, n - 1, k) {
        assert !CoveredAfter(sel, bufs, n - 1, k);
        assert !Spills(sel, bufs, n - 1, k);
      } else {
        SameByte(row, sel, bufs, n - 1, k);
      }
    }
  }

  lemma NoPatch(row: Buf, sel: Comparable, bufs: seq<Buf>)
    requires Comparables(sel, |row|) && Updates(sel, bufs, |row|)
    ensures Patch(row, sel, bufs, 0) == row
  {
  }

  lemma CoveredCopies(row: Buf, sel: Comparable, bufs: seq<Buf>)
    requires Comparables(sel, |row|) && Updates(sel, bufs, |row|) && SpillsCovered(sel, bufs)
    ensures CopiesColumns(row, sel, bufs)
  {
    hide Patch, SpillsCovered;
    TrimmedStays(sel, bufs, |row|);
    forall k: nat | k < |row|
      ensures Patch(row, sel, bufs, |sel|)[k] == Patch(row, sel, Trimmed(sel, bufs), |sel|)[k]
    {
      SameByte(row, sel, bufs, |sel|, k);
    }
  }

  /** No column is named after one that lies behind it or over it. */
  predicate NamedBackwards(sel: Comparable) {
    forall i, j :: 0 <= j < i < |sel| ==> sel[i].col.loc + sel[i].col.typsz <= sel[j].col.loc
  }

  /** For columns named from right to left, one column among them, the spills are harmless only if there
    are none: no value may be wider than its column. */
  lemma WideSpills(sel: Comparable, bufs: seq<Buf>)
    requires |bufs| == |sel| && NamedBackwards(sel)
    ensures SpillsCovered(sel, bufs) <==> forall i :: 0 <= i < |sel| ==> |bufs[i]| <= sel[i].col.typsz
  {
    if j: nat :| j < |sel| && |bufs[j]| > sel[j].col.typsz {
      LastSpill(sel, bufs, j, sel[j].col.loc + sel[j].col.typsz);
    } else {
      assert forall j: nat, k: nat :: j < |sel| ==> !Spills(sel, bufs, j, k);
    }
  }

  lemma {:induction false} LastSpill(sel: Comparable, bufs: seq<Buf>, j: nat, k: nat)
    requires |bufs| == |sel| && NamedBackwards(sel) && j < |sel| && Spills(sel, bufs, j, k)
    ensures !SpillsCovered(sel, bufs)
    decreases |sel| - j
  {
    if i: nat :| j < i < |sel| && Covers(sel, bufs, i, k) {
      LastSpill(sel, bufs, i, k);
    }
  }

  lemma {:induction false} PastRow(sel: Comparable, bufs: seq<Buf>, width: nat, j: nat)
    requires Comparables(sel, width) && |bufs| == |sel| && j < |sel| && sel[j].col.loc + |bufs[j]| > width
    ensures !SpillsCovered(sel, bufs)
    decreases |sel| - j
  {
    assert sel[j] in sel;
    assert Spills(sel, bufs, j, width);
    if CoveredAfter(sel, bufs, j, width) {
      var i :| j < i < |sel| && Covers(sel, bufs, i, width);
      PastRow(sel, bufs, width, i);
    }
  }

  // ---- Wide values of two integer columns ----

  const ONE_INT: Buf := [1, 1, 1, 1]
  const TWO_INTS: Buf := [9, 9, 9, 9, 9, 9, 9, 9]

  /** Not every wide value does harm: the bytes behind the first of these columns are those of the second,
    whose own value is copied later. */
  lemma HarmlessSpill()
    ensures var bufs: seq<Buf> := [seq(8, _ => 1), seq(4, _ => 2)];
      && Comparables(INTS, 8) && Updates(INTS, bufs, 8)
      && |bufs[0]| > INTS[0].col.typsz
      && SpillsCovered(INTS, bufs)
  {
    HalfMatches();
    var bufs: seq<Buf> := [seq(8, _ => 1), seq(4, _ => 2)];
    forall j: nat, k: nat | j < |INTS| && Spills(INTS, bufs, j, k) ensures CoveredAfter(INTS, bufs, j, k) {
      assert j == 0 && Covers(INTS, bufs, 1, k);
    }
  }

  /** A value of eight bytes for the first of two integer columns overwrites the second. */
  lemma HarmfulSpill()
    ensures var sel := [INTS[0]];
      && Comparables(sel, 8) && Updates(sel, [TWO_INTS], 8)
      && !CopiesColumns(SEVEN_ZERO, sel, [TWO_INTS])
  {
    var sel, bufs := [INTS[0]], [TWO_INTS];
    hide Patch, INTS;
    FirstColumn();
    TrimmedStays(sel, bufs, 8);
    PatchSets(SEVEN_ZERO, sel, bufs, 0, 4);
    PatchElsewhere(SEVEN_ZERO, sel, Trimmed(sel, bufs), 4);
  }

  lemma FirstColumn()
    ensures |INTS| == 2 && INTS[0].col == ColumnDef("col1", 0, 4) && INTS[1].col == ColumnDef("col2", 4, 4)
    ensures |INTS[0].val| == |INTS[1].val| == 8
  {
  }

  /** Named from right to left, a value of eight bytes for the first column overwrites the new value of the
    second, and looking for the new values does not find the row. */
  lemma LostValue()
    ensures var sel, bufs := [INTS[1], INTS[0]], [ONE_INT, TWO_INTS];
      && Comparables(sel, 8) && Updates(sel, bufs, 8) && FillsColumns(sel, bufs)
      && !FindsNew(SEVEN_ZERO, sel, bufs)
  {
    var sel, bufs := [INTS[1], INTS[0]], [ONE_INT, TWO_INTS];
    hide Patch, INTS, Matches, Renewed;
    FirstColumn();
    PatchSets(SEVEN_ZERO, sel, bufs, 1, 4);
    RenewedComparable(sel, bufs, 8);
    if FindsNew(SEVEN_ZERO, sel, bufs) {
      FoundByte(Patch(SEVEN_ZERO, sel, bufs, 2), sel, bufs, 0, 4);
      assert false;
    }
  }
}
