/** The table an array layout stands for: rows by slot, and the stack of free slots. Rows are byte
  strings; columns are fixed byte ranges of a row. */
module Tables {
  import opened Bytes
  import opened Slots

  const MAX_COL_NUM: nat := 20

  datatype ColumnDef = ColumnDef(name: string, loc: nat, typsz: nat)

  /** A named column and a value to compare it with, given as raw bytes. */
  datatype Cond = Cond(col: ColumnDef, val: Buf)
  type Comparable = seq<Cond>

  datatype Table = Table(rows: map<nat, Buf>, free: seq<nat>)

  predicate InRow(c: ColumnDef, width: nat) {
    c.loc + c.typsz <= width
  }

  /** Every condition can be evaluated: its column lies in the row and its value is wide enough. */
  predicate Comparables(sel: Comparable, width: nat) {
    sel != [] && forall c <- sel :: InRow(c.col, width) && c.col.typsz <= |c.val|
  }

  predicate Width(rows: map<nat, Buf>, width: nat) {
    forall s <- rows :: |rows[s]| == width
  }

  // ---- Finding ----

  predicate Hit(row: Buf, c: Cond)
    requires InRow(c.col, |row|) && c.col.typsz <= |c.val|
  {
    row[c.col.loc..c.col.loc + c.col.typsz] == c.val[..c.col.typsz]
  }

  predicate Matches(row: Buf, sel: Comparable)
    requires Comparables(sel, |row|)
  {
    forall c <- sel :: Hit(row, c)
  }

  /** A row meets all conditions if and only if every byte of every named column is that of the value. */
  lemma MatchesBytes(row: Buf, sel: Comparable)
    requires Comparables(sel, |row|)
    ensures Matches(row, sel) <==> forall c, k :: c in sel && 0 <= k < c.col.typsz ==> row[c.col.loc + k] == c.val[k]
  {
    forall c <- sel ensures Hit(row, c) <==> forall k :: 0 <= k < c.col.typsz ==> row[c.col.loc + k] == c.val[k] {
      HitBytes(row, c);
    }
  }

  lemma HitBytes(row: Buf, c: Cond)
    requires InRow(c.col, |row|) && c.col.typsz <= |c.val|
    ensures Hit(row, c) <==> forall k :: 0 <= k < c.col.typsz ==> row[c.col.loc + k] == c.val[k]
  {
    var part := row[c.col.loc..c.col.loc + c.col.typsz];
    assert forall k :: 0 <= k < c.col.typsz ==> part[k] == row[c.col.loc + k] && c.val[..c.col.typsz][k] == c.val[k];
  }

  /** The number of the first `n` conditions that a row meets. */
  function Hits(row: Buf, sel: Comparable, n: nat): (k: nat)
    requires Comparables(sel, |row|) && n <= |sel|
    ensures k <= n
  {
    if n == 0 then 0 else Hits(row, sel, n - 1) + if Hit(row, sel[n - 1]) then 1 else 0
  }

  lemma HitsNone(row: Buf, sel: Comparable)
    requires Comparables(sel, |row|)
    ensures Hits(row, sel, 0) == 0
  {
  }

  lemma HitsStep(row: Buf, sel: Comparable, n: nat)
    requires Comparables(sel, |row|) && n < |sel|
    ensures sel[n] in sel
    ensures var c := sel[n];
      Hits(row, sel, n + 1) == Hits(row, sel, n) +
        if row[c.col.loc..c.col.loc + c.col.typsz] == c.val[..c.col.typsz] then 1 else 0
  {
  }

  lemma {:induction false} HitsAll(row: Buf, sel: Comparable, n: nat)
    requires Comparables(sel, |row|) && n <= |sel|
    ensures Hits(row, sel, n) == n <==> forall i :: 0 <= i < n ==> Hit(row, sel[i])
  {
    if n == 0 {
    } else {
      HitsAll(row, sel, n - 1);
    }
  }

  lemma HitsMatch(row: Buf, sel: Comparable)
    requires Comparables(sel, |row|)
    ensures Hits(row, sel, |sel|) == |sel| <==> Matches(row, sel)
  {
    HitsAll(row, sel, |sel|);
  }

  lemma {:induction false} HitsMonotone(row: Buf, sel: Comparable, m: nat, n: nat)
    requires Comparables(sel, |row|) && m <= n <= |sel|
    ensures Hits(row, sel, m) <= Hits(row, sel, n)
  {
    if m == n {
    } else {
      HitsMonotone(row, sel, m, n - 1);
    }
  }

  /** The live slots from `s` on whose row meets every condition, in increasing order. */
  function Selected(rows: map<nat, Buf>, sel: Comparable, width: nat, s: nat): seq<nat>
    requires Comparables(sel, width) && Width(rows, width)
    decreases MAX_BIT - s
  {
    if s >= MAX_BIT then []
    else if s in rows && Matches(rows[s], sel) then [s] + Selected(rows, sel, width, s + 1)
    else Selected(rows, sel, width, s + 1)
  }

  predicate Increasing(ss: seq<nat>) {
    forall i, j :: 0 <= i < j < |ss| ==> ss[i] < ss[j]
  }

  lemma {:induction false} SelectedExactly(rows: map<nat, Buf>, sel: Comparable, width: nat, s: nat)
    requires Comparables(sel, width) && Width(rows, width)
    ensures var ss := Selected(rows, sel, width, s);
      && Increasing(ss)
      && (forall i :: 0 <= i < |ss| ==> s <= ss[i] < MAX_BIT)
      && (forall k: nat :: k in ss <==> s <= k < MAX_BIT && k in rows && Matches(rows[k], sel))
      && (s <= MAX_BIT ==> |ss| <= MAX_BIT - s)
    decreases MAX_BIT - s
  {
    hide Matches;
    if s >= MAX_BIT {
    } else {
      SelectedExactly(rows, sel, width, s + 1);
    }
  }

  /** What the scan of the live slots reports. It counts met conditions in `carry`, reports a row as
    soon as the count reaches the number of conditions, and then counts from zero again. With
    `restart` the count also starts from zero at every row; without, it runs on from row to row. */
  function Scan(rows: map<nat, Buf>, sel: Comparable, width: nat, s: nat, carry: nat, restart: bool): seq<nat>
    requires Comparables(sel, width) && Width(rows, width)
    decreases MAX_BIT - s
  {
    if s >= MAX_BIT then []
    else if s !in rows then Scan(rows, sel, width, s + 1, carry, restart)
    else
      var count := (if restart then 0 else carry) + Hits(rows[s], sel, |sel|);
      if count >= |sel| then [s] + Scan(rows, sel, width, s + 1, 0, restart)
      else Scan(rows, sel, width, s + 1, count, restart)
  }

  lemma ScanStep(rows: map<nat, Buf>, sel: Comparable, width: nat, s: nat, carry: nat, restart: bool)
    requires Comparables(sel, width) && Width(rows, width)
    ensures s >= MAX_BIT ==> Scan(rows, sel, width, s, carry, restart) == []
    ensures s < MAX_BIT && s !in rows ==>
      Scan(rows, sel, width, s, carry, restart) == Scan(rows, sel, width, s + 1, carry, restart)
    ensures s < MAX_BIT && s in rows ==>
      var count := (if restart then 0 else carry) + Hits(rows[s], sel, |sel|);
      Scan(rows, sel, width, s, carry, restart) ==
        if count >= |sel| then [s] + Scan(rows, sel, width, s + 1, 0, restart)
        else Scan(rows, sel, width, s + 1, count, restart)
  {
  }

  /** Counting afresh at every row, the scan reports exactly the matching rows. */
  lemma {:induction false} RestartingScanExact(rows: map<nat, Buf>, sel: Comparable, width: nat, s: nat, carry: nat)
    requires Comparables(sel, width) && Width(rows, width)
    ensures Scan(rows, sel, width, s, carry, true) == Selected(rows, sel, width, s)
    decreases MAX_BIT - s
  {
    if s >= MAX_BIT {
    } else {
      if s in rows {
        HitsMatch(rows[s], sel);
        RestartingScanExact(rows, sel, width, s + 1, if Matches(rows[s], sel) then 0 else Hits(rows[s], sel, |sel|));
      } else {
        RestartingScanExact(rows, sel, width, s + 1, carry);
      }
    }
  }

  /** Increasing live slots from `s` on. */
  ghost predicate LiveIncreasing(ss: seq<nat>, rows: map<nat, Buf>, s: nat) {
    && Increasing(ss)
    && forall i :: 0 <= i < |ss| ==> s <= ss[i] < MAX_BIT && ss[i] in rows
  }

  lemma OneMoreLive(ss: seq<nat>, rows: map<nat, Buf>, s: nat)
    requires LiveIncreasing(ss, rows, s + 1)
    ensures LiveIncreasing(ss, rows, s)
    ensures s in rows && s < MAX_BIT ==> LiveIncreasing([s] + ss, rows, s)
  {
  }

  /** Whatever it counts, the scan reports live slots in increasing order. */
  lemma {:induction false} ScanIncreases(rows: map<nat, Buf>, sel: Comparable, width: nat, s: nat, carry: nat,
                                         restart: bool)
    requires Comparables(sel, width) && Width(rows, width)
    ensures LiveIncreasing(Scan(rows, sel, width, s, carry, restart), rows, s)
    decreases MAX_BIT - s
  {
    hide Scan, Hits, Comparables;
    ScanStep(rows, sel, width, s, carry, restart);
    if s >= MAX_BIT {
    } else {
      hide LiveIncreasing;
      var count := if s in rows then (if restart then 0 else carry) + Hits(rows[s], sel, |sel|) else carry;
      var carry' := if s in rows && count >= |sel| then 0 else count;
      ScanIncreases(rows, sel, width, s + 1, carry', restart);
      OneMoreLive(Scan(rows, sel, width, s + 1, carry', restart), rows, s);
    }
  }

  /** Even with the count carried from row to row, no matching row is missed. */
  lemma {:induction false} CarryingScanMissesNone(rows: map<nat, Buf>, sel: Comparable, width: nat, s: nat,
                                                  carry: nat, k: nat)
    requires Comparables(sel, width) && Width(rows, width)
    requires k in Selected(rows, sel, width, s)
    ensures k in Scan(rows, sel, width, s, carry, false)
    decreases MAX_BIT - s
  {
    SelectedExactly(rows, sel, width, s);
    if s in rows {
      HitsMatch(rows[s], sel);
      var count := carry + Hits(rows[s], sel, |sel|);
      if k != s {
        CarryingScanMissesNone(rows, sel, width, s + 1, if count >= |sel| then 0 else count, k);
      }
    } else {
      CarryingScanMissesNone(rows, sel, width, s + 1, carry, k);
    }
  }

  /** The conditions that slot `s` meets. */
  function HitsAt(rows: map<nat, Buf>, sel: Comparable, width: nat, s: nat): nat
    requires Comparables(sel, width) && Width(rows, width)
  {
    if s in rows then Hits(rows[s], sel, |sel|) else 0
  }

  /** Conditions met in slots `a` to `b`. */
  function HitsBetween(rows: map<nat, Buf>, sel: Comparable, width: nat, a: nat, b: nat): nat
    requires Comparables(sel, width) && Width(rows, width)
    decreases b + 1 - a
  {
    if a > b then 0
    else HitsAt(rows, sel, width, a) + HitsBetween(rows, sel, width, a + 1, b)
  }

  ghost predicate NoMatchBetween(rows: map<nat, Buf>, sel: Comparable, width: nat, a: nat, b: nat)
    requires Comparables(sel, width) && Width(rows, width)
  {
    forall s: nat :: a <= s <= b && s in rows ==> !Matches(rows[s], sel)
  }

  ghost predicate SparseFrom(rows: map<nat, Buf>, sel: Comparable, width: nat, a: nat, carry: nat)
    requires Comparables(sel, width) && Width(rows, width)
  {
    forall b: nat :: a <= b < MAX_BIT && NoMatchBetween(rows, sel, width, a, b) ==>
      carry + HitsBetween(rows, sel, width, a, b) < |sel|
  }

  /** Between matches, partial matches never add up to a full one. */
  ghost predicate SparsePartials(rows: map<nat, Buf>, sel: Comparable, width: nat, from: nat, carry: nat)
    requires Comparables(sel, width) && Width(rows, width)
  {
    && SparseFrom(rows, sel, width, from, carry)
    && forall a: nat :: from < a < MAX_BIT ==> SparseFrom(rows, sel, width, a, 0)
  }

  lemma SparseAtMatch(rows: map<nat, Buf>, sel: Comparable, width: nat, s: nat, carry: nat)
    requires Comparables(sel, width) && Width(rows, width)
    requires s < MAX_BIT && s in rows && Matches(rows[s], sel)
    ensures SparsePartials(rows, sel, width, s, carry) <==> SparsePartials(rows, sel, width, s + 1, 0)
  {
  }

  lemma BetweenStep(rows: map<nat, Buf>, sel: Comparable, width: nat, s: nat, next: nat, b: nat)
    requires Comparables(sel, width) && Width(rows, width)
    requires s <= b && next == s + 1 && (s in rows ==> !Matches(rows[s], sel))
    ensures NoMatchBetween(rows, sel, width, s, b) <==> NoMatchBetween(rows, sel, width, next, b)
    ensures HitsBetween(rows, sel, width, s, b) == HitsAt(rows, sel, width, s) + HitsBetween(rows, sel, width, next, b)
    ensures b == s ==> NoMatchBetween(rows, sel, width, s, b) && HitsBetween(rows, sel, width, next, b) == 0
  {
  }

  lemma SparseFromPartial(rows: map<nat, Buf>, sel: Comparable, width: nat, s: nat, next: nat, carry: nat)
    requires Comparables(sel, width) && Width(rows, width)
    requires next == s + 1 && s < MAX_BIT && (s in rows ==> !Matches(rows[s], sel))
    ensures var count := carry + HitsAt(rows, sel, width, s);
      SparseFrom(rows, sel, width, s, carry) <==> count < |sel| && SparseFrom(rows, sel, width, next, count)
  {
    hide NoMatchBetween, HitsBetween, HitsAt;
    forall b: nat | s <= b < MAX_BIT
      ensures NoMatchBetween(rows, sel, width, s, b) <==> NoMatchBetween(rows, sel, width, next, b)
      ensures HitsBetween(rows, sel, width, s, b) ==
        HitsAt(rows, sel, width, s) + HitsBetween(rows, sel, width, next, b)
    {
      BetweenStep(rows, sel, width, s, next, b);
    }
    BetweenStep(rows, sel, width, s, next, s);
  }

  lemma SparseAtPartial(rows: map<nat, Buf>, sel: Comparable, width: nat, s: nat, carry: nat)
    requires Comparables(sel, width) && Width(rows, width)
    requires s < MAX_BIT && (s in rows ==> !Matches(rows[s], sel))
    ensures var count := carry + HitsAt(rows, sel, width, s);
      SparsePartials(rows, sel, width, s, carry) <==>
        count < |sel| && SparsePartials(rows, sel, width, s + 1, count)
  {
    SparseFromPartial(rows, sel, width, s, s + 1, carry);
    var count := carry + HitsAt(rows, sel, width, s);
    assert SparseFrom(rows, sel, width, s + 1, count) ==> SparseFrom(rows, sel, width, s + 1, 0);
    SparseBeyond(rows, sel, width);
  }

  lemma SparseBeyond(rows: map<nat, Buf>, sel: Comparable, width: nat)
    requires Comparables(sel, width) && Width(rows, width)
    ensures SparseFrom(rows, sel, width, MAX_BIT, 0)
  {
  }

  lemma SparseOver(rows: map<nat, Buf>, sel: Comparable, width: nat, s: nat, carry: nat)
    requires Comparables(sel, width) && Width(rows, width) && s >= MAX_BIT
    ensures SparsePartials(rows, sel, width, s, carry)
  {
  }

  lemma {:induction false} CarryingScanFrom(rows: map<nat, Buf>, sel: Comparable, width: nat, s: nat, carry: nat)
    requires Comparables(sel, width) && Width(rows, width) && carry < |sel|
    ensures Scan(rows, sel, width, s, carry, false) == Selected(rows, sel, width, s)
      <==> SparsePartials(rows, sel, width, s, carry)
    decreases MAX_BIT - s
  {
    hide Matches, Hits, SparsePartials;
    if s >= MAX_BIT {
      SparseOver(rows, sel, width, s, carry);
    } else {
      if s in rows && Matches(rows[s], sel) {
        HitsMatch(rows[s], sel);
        SparseAtMatch(rows, sel, width, s, carry);
        CarryingScanFrom(rows, sel, width, s + 1, 0);
        assert Selected(rows, sel, width, s)[1..] == Selected(rows, sel, width, s + 1);
        assert Scan(rows, sel, width, s, carry, false)[1..] == Scan(rows, sel, width, s + 1, 0, false);
      } else {
        var count := carry + HitsAt(rows, sel, width, s);
        SparseAtPartial(rows, sel, width, s, carry);
        if count < |sel| {
          CarryingScanFrom(rows, sel, width, s + 1, count);
        } else {
          SelectedExactly(rows, sel, width, s + 1);
          assert Scan(rows, sel, width, s, carry, false)[0] == s;
        }
      }
    }
  }

  /** With the count carried from row to row, as the code has it, the scan is exact if and only if
    the partial matches between two full ones never add up to the number of conditions. */
  lemma CarryingScanExactIff(rows: map<nat, Buf>, sel: Comparable, width: nat)
    requires Comparables(sel, width) && Width(rows, width)
    ensures Scan(rows, sel, width, MIN_BIT, 0, false) == Selected(rows, sel, width, MIN_BIT)
      <==> SparsePartials(rows, sel, width, MIN_BIT, 0)
  {
    CarryingScanFrom(rows, sel, width, MIN_BIT, 0);
  }

  lemma {:induction false} NoneSelected(rows: map<nat, Buf>, sel: Comparable, width: nat, s: nat)
    requires Comparables(sel, width) && Width(rows, width)
    requires forall k <- rows :: !Matches(rows[k], sel)
    ensures Selected(rows, sel, width, s) == []
    decreases MAX_BIT - s
  {
    if s >= MAX_BIT {
    } else {
      NoneSelected(rows, sel, width, s + 1);
    }
  }

  /** With one condition there are no partial matches, and the carried count is harmless. */
  lemma {:induction false} OneCondition(rows: map<nat, Buf>, sel: Comparable, width: nat, s: nat)
    requires Comparables(sel, width) && Width(rows, width) && |sel| == 1
    ensures Scan(rows, sel, width, s, 0, false) == Selected(rows, sel, width, s)
    decreases MAX_BIT - s
  {
    if s >= MAX_BIT {
    } else {
      OneCondition(rows, sel, width, s + 1);
      if s in rows {
        HitsMatch(rows[s], sel);
      }
    }
  }

  lemma {:induction false} NoFewerReported(rows: map<nat, Buf>, sel: Comparable, width: nat, s: nat, carry: nat)
    requires Comparables(sel, width) && Width(rows, width)
    ensures |Selected(rows, sel, width, s)| <= |Scan(rows, sel, width, s, carry, false)|
    decreases MAX_BIT - s
  {
    hide Matches, Hits;
    if s >= MAX_BIT {
    } else if s !in rows {
      NoFewerReported(rows, sel, width, s + 1, carry);
    } else {
      HitsMatch(rows[s], sel);
      var count := carry + Hits(rows[s], sel, |sel|);
      NoFewerReported(rows, sel, width, s + 1, if count >= |sel| then 0 else count);
    }
  }
}
