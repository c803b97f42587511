/** How a result set is cut into bulks: rows are added to a bulk while its bytes are below a limit. */
module BulkSplit {
  import opened Bytes

  type Row = Buf

  function Size(rows: seq<Row>): nat {
    if rows == [] then 0 else |rows[0]| + Size(rows[1..])
  }

  lemma {:induction false} SizeAppend(a: seq<Row>, b: seq<Row>)
    ensures Size(a + b) == Size(a) + Size(b)
  {
    if a == [] {
      assert a + b == b;
    } else {
      SizeAppend(a[1..], b);
      assert (a + b)[1..] == a[1..] + b;
    }
  }

  /** How many of `rows` the filling loop adds to a bulk that already holds `total` bytes. */
  function BulkLen(rows: seq<Row>, total: nat, max: nat): (k: nat)
    ensures k <= |rows|
    ensures total < max && rows != [] ==> k > 0
  {
    if total < max && rows != [] then 1 + BulkLen(rows[1..], total + |rows[0]|, max) else 0
  }

  function Split(rows: seq<Row>, max: nat): seq<seq<Row>>
    requires max > 0
  {
    if rows == [] then []
    else
      var k := BulkLen(rows, 0, max);
      [rows[..k]] + Split(rows[k..], max)
  }

  /** Every bulk is non-empty and is under the limit without its last row; every bulk but the last
    reaches the limit. */
  ghost predicate Greedy(bulks: seq<seq<Row>>, max: nat) {
    forall i :: 0 <= i < |bulks| ==>
      && bulks[i] != []
      && Size(bulks[i][..|bulks[i]| - 1]) < max
      && (i < |bulks| - 1 ==> Size(bulks[i]) >= max)
  }

  ghost predicate StopsAt(rows: seq<Row>, total: nat, max: nat, k: nat) {
    && k <= |rows|
    && (k > 0 ==> total + Size(rows[..k - 1]) < max)
    && (k < |rows| ==> total + Size(rows[..k]) >= max)
  }

  lemma {:induction false} BulkLenUnique(rows: seq<Row>, total: nat, max: nat, k: nat)
    ensures StopsAt(rows, total, max, k) <==> k == BulkLen(rows, total, max)
  {
    if total < max && rows != [] {
      var total' := total + |rows[0]|;
      if 0 < k <= |rows| {
        BulkLenUnique(rows[1..], total', max, k - 1);
        assert rows[..k][1..] == rows[1..][..k - 1];
        if k > 1 {
          assert rows[..k - 1][1..] == rows[1..][..k - 2];
        } else {
          assert Size(rows[..0]) == 0;
        }
      }
    } else if 0 < k <= |rows| {
      assert Size(rows[..k - 1]) >= 0;
    }
  }

  lemma {:induction false} ConcatSplit(rows: seq<Row>, max: nat)
    requires max > 0
    ensures Concat(Split(rows, max)) == rows
  {
    if rows == [] {
    } else {
      var k := BulkLen(rows, 0, max);
      ConcatSplit(rows[k..], max);
      assert rows == rows[..k] + rows[k..];
    }
  }

  lemma GreedyTail(bulks: seq<seq<Row>>, max: nat)
    requires bulks != []
    ensures Greedy(bulks, max) <==> (
      && Greedy(bulks[1..], max)
      && bulks[0] != []
      && Size(bulks[0][..|bulks[0]| - 1]) < max
      && (|bulks| > 1 ==> Size(bulks[0]) >= max))
  {
  }

  /** The cut is greedy. */
  lemma {:induction false} SplitGreedy(rows: seq<Row>, max: nat)
    requires max > 0
    ensures Greedy(Split(rows, max), max)
  {
    hide Size, BulkLen;
    if rows == [] {
    } else {
      var k := BulkLen(rows, 0, max);
      var bulks := Split(rows, max);
      BulkLenUnique(rows, 0, max, k);
      SplitGreedy(rows[k..], max);
      assert bulks[1..] == Split(rows[k..], max) && bulks[0] == rows[..k];
      assert rows[..k][..k - 1] == rows[..k - 1];
      GreedyTail(bulks, max);
    }
  }

  lemma {:induction false} GreedyIsSplit(bulks: seq<seq<Row>>, max: nat)
    requires max > 0 && Greedy(bulks, max)
    ensures Split(Concat(bulks), max) == bulks
  {
    hide Size, BulkLen;
    if bulks == [] {
    } else {
      var rows, b, rest := Concat(bulks), bulks[0], bulks[1..];
      GreedyTail(bulks, max);
      GreedyIsSplit(rest, max);
      assert rows[..|b|] == b && rows[|b|..] == Concat(rest);
      assert rows[..|b| - 1] == b[..|b| - 1];
      BulkLenUnique(rows, 0, max, |b|);
    }
  }

  /** The greedy conditions pin the cut down: they hold of a list of bulks exactly if it is the one
    the sender makes of those rows. */
  lemma SplitIffGreedy(bulks: seq<seq<Row>>, max: nat)
    requires max > 0
    ensures Greedy(bulks, max) <==> Split(Concat(bulks), max) == bulks
  {
    SplitGreedy(Concat(bulks), max);
    if Greedy(bulks, max) {
      GreedyIsSplit(bulks, max);
    }
  }

  /** k bulks need at least (k - 1) * max bytes of rows. */
  lemma {:induction false} BulkCountBound(rows: seq<Row>, max: nat)
    requires max > 0
    ensures |Split(rows, max)| <= |rows|
    ensures rows != [] ==> (|Split(rows, max)| - 1) * max <= Size(rows)
  {
    hide Size, BulkLen;
    if rows == [] {
    } else {
      var k := BulkLen(rows, 0, max);
      var n := |Split(rows[k..], max)|;
      assert |Split(rows, max)| == n + 1;
      SizeAppend(rows[..k], rows[k..]);
      assert rows == rows[..k] + rows[k..];
      BulkCountBound(rows[k..], max);
      BulkLenUnique(rows, 0, max, k);
      if k < |rows| {
        OneMore(n, max);
      }
    }
  }

  lemma OneMore(n: int, max: int)
    ensures n * max == (n - 1) * max + max
  {
  }

  lemma SingleBulkIff(rows: seq<Row>, max: nat)
    requires max > 0 && rows != []
    ensures |Split(rows, max)| == 1 <==> Size(rows[..|rows| - 1]) < max
  {
    var k := BulkLen(rows, 0, max);
    BulkLenUnique(rows, 0, max, |rows|);
    if k < |rows| {
      assert Split(rows[k..], max) != [];
    }
  }
}
