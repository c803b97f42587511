/** What an update whose pointer is set back leaves in each byte of the region, whatever the sizes of its
  values: copies may reach other rows, the bytes behind the rows, or leave the region. */
module CopiedBytes {
  import opened Bytes
  import opened Slots
  import opened Tables
  import opened Patches
  import opened TableOps
  import opened Regions

  /** The `j`-th value in the `i`-th reported slot. */
  predicate IsCopy(p: Plan, i: nat, j: nat) {
    i < |p.slots| && j < |p.sel|
  }

  predicate Before(i: nat, j: nat, k: nat, l: nat) {
    i < k || (i == k && j < l)
  }

  function Start(p: Plan, i: nat, j: nat): nat
    requires IsCopy(p, i, j)
  {
    p.slots[i] * p.width + p.sel[j].col.loc
  }

  predicate Reaches(p: Plan, bufs: seq<Buf>, i: nat, j: nat, at: nat)
    requires |bufs| == |p.sel| && IsCopy(p, i, j)
  {
    Start(p, i, j) <= at < Start(p, i, j) + |bufs[j]|
  }

  /** The byte that a copy puts at `at`. */
  function ByteOf(p: Plan, bufs: seq<Buf>, i: nat, j: nat, at: nat): Byte
    requires |bufs| == |p.sel| && IsCopy(p, i, j) && Reaches(p, bufs, i, j, at)
  {
    bufs[j][at - Start(p, i, j)]
  }

  predicate Inside(p: Plan, bufs: seq<Buf>, i: nat, j: nat, size: nat)
    requires |bufs| == |p.sel| && IsCopy(p, i, j)
  {
    Start(p, i, j) + |bufs[j]| <= size
  }

  lemma ByteStep(b: Buf, p: Plan, bufs: seq<Buf>, i: nat, j: nat)
    requires p.restart && |bufs| == |p.sel| && IsCopy(p, i, j)
    ensures var was, now := Copied(b, p, bufs, i, j), Copied(b, p, bufs, i, j + 1);
      && (now.Some? <==> was.Some? && Inside(p, bufs, i, j, |b|))
      && (now.Some? ==> forall at: nat :: at < |b| ==>
        now.value[at] == if Reaches(p, bufs, i, j, at) then ByteOf(p, bufs, i, j, at) else was.value[at])
  {
    var was := Copied(b, p, bufs, i, j);
    if was.Some? {
      CopiedStep(b, p, bufs, i, j, was.value);
    }
  }

  ghost predicate InsideBefore(p: Plan, bufs: seq<Buf>, k: nat, l: nat, size: nat)
    requires |bufs| == |p.sel|
  {
    forall i: nat, j: nat :: IsCopy(p, i, j) && Before(i, j, k, l) ==> Inside(p, bufs, i, j, size)
  }

  /** An update fails to stay in the region exactly if one of its copies ends behind it. */
  lemma {:induction false} InsideIff(b: Buf, p: Plan, bufs: seq<Buf>, k: nat, l: nat)
    requires p.restart && |bufs| == |p.sel| && InLoops(p, k, l)
    ensures Copied(b, p, bufs, k, l).Some? <==> InsideBefore(p, bufs, k, l, |b|)
    decreases k, l
  {
    hide Copied, Inside;
    if l > 0 {
      InsideIff(b, p, bufs, k, l - 1);
      ByteStep(b, p, bufs, k, l - 1);
      assert forall i: nat, j: nat :: Before(i, j, k, l) <==> Before(i, j, k, l - 1) || (i == k && j == l - 1);
    } else if k > 0 {
      InsideIff(b, p, bufs, k - 1, |p.sel|);
      CopiedRowEnd(b, p, bufs, k - 1);
      assert forall i: nat, j: nat :: IsCopy(p, i, j) ==> (Before(i, j, k, 0) <==> Before(i, j, k - 1, |p.sel|));
    } else {
      CopiedStart(b, p, bufs);
    }
  }

  /** Every copy from (`i`, `j`) on that reaches byte `at` puts `v` there. */
  ghost predicate PutsOnly(p: Plan, bufs: seq<Buf>, i: nat, j: nat, at: nat, v: Byte)
    requires |bufs| == |p.sel|
  {
    forall x: nat, y: nat :: IsCopy(p, x, y) && !Before(x, y, i, j) && Reaches(p, bufs, x, y, at) ==>
      ByteOf(p, bufs, x, y, at) == v
  }

  /** No copy puts `v` at byte `at`. */
  ghost predicate PutsNever(p: Plan, bufs: seq<Buf>, at: nat, v: Byte)
    requires |bufs| == |p.sel|
  {
    forall x: nat, y: nat :: IsCopy(p, x, y) && Reaches(p, bufs, x, y, at) ==> ByteOf(p, bufs, x, y, at) != v
  }

  lemma {:induction false} Keeps(b: Buf, p: Plan, bufs: seq<Buf>, i: nat, j: nat, k: nat, l: nat, at: nat, v: Byte)
    requires p.restart && |bufs| == |p.sel| && InLoops(p, i, j) && InLoops(p, k, l) && !Before(k, l, i, j)
    requires at < |b| && PutsOnly(p, bufs, i, j, at, v)
    requires Copied(b, p, bufs, i, j).Some? ==> Copied(b, p, bufs, i, j).value[at] == v
    ensures Copied(b, p, bufs, k, l).Some? ==> Copied(b, p, bufs, k, l).value[at] == v
    decreases k, l
  {
    hide Copied, Reaches, ByteOf;
    if i == k && j == l {
    } else if l > 0 {
      Keeps(b, p, bufs, i, j, k, l - 1, at, v);
      ByteStep(b, p, bufs, k, l - 1);
    } else {
      Keeps(b, p, bufs, i, j, k - 1, |p.sel|, at, v);
      CopiedRowEnd(b, p, bufs, k - 1);
    }
  }

  lemma {:induction false} Avoids(b: Buf, p: Plan, bufs: seq<Buf>, k: nat, l: nat, at: nat, v: Byte)
    requires p.restart && |bufs| == |p.sel| && InLoops(p, k, l)
    requires at < |b| && b[at] != v && PutsNever(p, bufs, at, v)
    ensures Copied(b, p, bufs, k, l).Some? ==> Copied(b, p, bufs, k, l).value[at] != v
    decreases k, l
  {
    hide Copied, Reaches, ByteOf;
    if l > 0 {
      Avoids(b, p, bufs, k, l - 1, at, v);
      ByteStep(b, p, bufs, k, l - 1);
    } else if k > 0 {
      Avoids(b, p, bufs, k - 1, |p.sel|, at, v);
      CopiedRowEnd(b, p, bufs, k - 1);
    } else {
      CopiedStart(b, p, bufs);
    }
  }

  /** A byte that a copy reaches, and later ones only with the same value, has that value in the end. */
  lemma LastPut(b: Buf, p: Plan, bufs: seq<Buf>, i: nat, j: nat, at: nat)
    requires p.restart && |bufs| == |p.sel| && IsCopy(p, i, j) && Reaches(p, bufs, i, j, at)
    requires PutsOnly(p, bufs, i, j + 1, at, ByteOf(p, bufs, i, j, at))
    ensures Copied(b, p, bufs, |p.slots|, 0).Some? ==>
      at < |b| && Copied(b, p, bufs, |p.slots|, 0).value[at] == ByteOf(p, bufs, i, j, at)
  {
    hide Copied, PutsOnly, ByteOf;
    InsideIff(b, p, bufs, |p.slots|, 0);
    if Copied(b, p, bufs, |p.slots|, 0).Some? {
      assert Before(i, j, |p.slots|, 0) && Inside(p, bufs, i, j, |b|);
      ByteStep(b, p, bufs, i, j);
      Keeps(b, p, bufs, i, j + 1, |p.slots|, 0, at, ByteOf(p, bufs, i, j, at));
    }
  }
}
