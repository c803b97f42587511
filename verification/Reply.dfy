/** What the reply path guarantees from one end to the other. */
module Reply {
  import opened Bytes
  import opened Frames
  import opened BulkSplit
  import opened BulkStream

  // ---- What the messages of a reply say ----

  /** The rows of each message. */
  function RowLists(ms: seq<Respond>): seq<seq<Row>> {
    seq(|ms|, i requires 0 <= i < |ms| => ms[i].rows)
  }

  lemma {:induction false} MessagesSay(bulks: seq<seq<Row>>, total: nat)
    ensures var ms := Messages(bulks, total);
      && RowLists(ms) == bulks
      && forall i :: 0 <= i < |ms| ==>
        && ms[i].kind == RESULT && ms[i].serialNo == 1
        && ms[i].rowsCount == total && ms[i].size == |ms[i].rows|
        && (ms[i].hasQueryTime <==> i == |ms| - 1)
  {
    if bulks == [] {
    } else {
      var ms := Messages(bulks, total);
      MessagesSay(bulks[1..], total);
      assert ms[1..] == Messages(bulks[1..], total);
      assert forall i :: 0 < i < |ms| ==> ms[i] == ms[1..][i - 1] && ms[i].rows == RowLists(ms[1..])[i - 1];
    }
  }

  /** Every message of a reply is a result with serial number 1, the grand total and its own row count,
    and only the last one has the data of the whole result set. The rows are cut greedily for the limit
    and join to the result set. */
  lemma ReplySays(rows: seq<Row>, max: nat)
    requires max > 0
    ensures var ms := ReplyMessages(rows, max);
      && Greedy(RowLists(ms), max) && Concat(RowLists(ms)) == rows
      && forall i :: 0 <= i < |ms| ==>
        && ms[i].kind == RESULT && ms[i].serialNo == 1
        && ms[i].rowsCount == |rows| && ms[i].size == |ms[i].rows|
        && (ms[i].hasQueryTime <==> i == |ms| - 1)
  {
    hide Messages;
    MessagesSay(Split(rows, max), |rows|);
    SplitGreedy(rows, max);
    ConcatSplit(rows, max);
  }

  /** The answers: a null result set gives one status message with serial number 1 and no rows, a result
    set its bulks of about 2 MB, a failed query nothing. */
  lemma AnswerSays(answer: Answer)
    ensures var ms := AnswerMessages(answer);
      && (answer.NoResultSet? ==>
        |ms| == 1 && ms[0].kind == STATUS && ms[0].serialNo == 1 && ms[0].rows == [] && !ms[0].hasQueryTime)
      && (answer.Failed? ==> ms == [])
      && (answer.Rows? ==>
        && Greedy(RowLists(ms), 2 * 0x10_0000) && Concat(RowLists(ms)) == answer.rows
        && forall i :: 0 <= i < |ms| ==>
          && ms[i].kind == RESULT && ms[i].serialNo == 1
          && ms[i].rowsCount == |answer.rows| && ms[i].size == |ms[i].rows|
          && (ms[i].hasQueryTime <==> i == |ms| - 1))
  {
    hide ReplyMessages, RowLists, Greedy;
    if answer.Rows? {
      ReplySays(answer.rows, MAX_TRX_BUFFER_SZ);
    }
  }

  /** The packages of a reply: the i-th one holds the i-th message, and all have the flag 1 of the protocol
    and, but for the last, the flag 2 of a reply that goes on. */
  lemma ReplyFlags(codec: Codec, ms: seq<Respond>)
    requires CanSend(codec, ms)
    ensures |FramesOf(codec, ms)| == |ms|
    ensures forall i :: 0 <= i < |ms| ==>
      FramesOf(codec, ms)[i] == Frame(if i == |ms| - 1 then 1 else 1 + 2, codec.ser(ms[i]))
  {
    hide FramesOf;
  }

  // ---- From end to end ----

  lemma FramesTerminated(codec: Codec, ms: seq<Respond>)
    requires CanSend(codec, ms) && ms != []
    ensures Terminated(FramesOf(codec, ms))
  {
  }

  /** Consuming the frames of an initial part of `ms` gives that part. */
  lemma {:induction false} ConsumeFrames(codec: Codec, ms: seq<Respond>, n: nat, done: bool, rest: Buf)
    requires Lossless(codec) && CanSend(codec, ms) && n <= |ms|
    requires done ==> n == |ms| > 0
    ensures Consume(codec, Parsed(FramesOf(codec, ms)[..n], done, rest)) ==
      Delivery(ms[..n], if done then Finished else Disconnected, rest)
  {
    if n == 0 {
    } else {
      assert ms[..n] == [ms[0]] + ms[1..][..n - 1];
      assert FramesOf(codec, ms)[..n][1..] == FramesOf(codec, ms[1..])[..n - 1];
      if n > 1 || !done {
        ConsumeFrames(codec, ms[1..], n - 1, done, rest);
      }
    }
  }

  /** A receiver given everything a sender framed consumes exactly those messages, reports a finished
    reply and leaves the bytes behind it unread. */
  lemma DeliverAll(codec: Codec, ms: seq<Respond>, extra: Buf)
    requires Lossless(codec) && CanSend(codec, ms) && ms != []
    ensures Deliver(codec, Stream(FramesOf(codec, ms)) + extra) == Delivery(ms, Finished, extra)
  {
    FramesTerminated(codec, ms);
    ParseTerminated(FramesOf(codec, ms), extra);
    ConsumeFrames(codec, ms, |ms|, true, extra);
    assert FramesOf(codec, ms)[..|ms|] == FramesOf(codec, ms) && ms[..|ms|] == ms;
  }

  /** A receiver whose connection is cut inside the reply consumes whole messages only, not all of
    them, and reports a lost connection. */
  lemma DeliverCut(codec: Codec, ms: seq<Respond>, seen: Buf, lost: Buf)
    requires Lossless(codec) && CanSend(codec, ms) && ms != []
    requires seen + lost == Stream(FramesOf(codec, ms)) && lost != []
    ensures Deliver(codec, seen).end == Disconnected && Deliver(codec, seen).ms < ms
  {
    FramesTerminated(codec, ms);
    CutStream(FramesOf(codec, ms), seen, lost);
    var p := ParseStream(seen);
    ConsumeFrames(codec, ms, |p.frames|, false, p.rest);
    assert FramesOf(codec, ms)[..|p.frames|] == p.frames;
  }

  /** The messages are those of the packages, up to the first that cannot be read. If all can be read, the
    receiver is finished exactly if a last package has come, and leaves what is behind it. */
  ghost predicate ConsumedFrom(codec: Codec, p: Parsed, d: Delivery) {
    && |d.ms| <= |p.frames|
    && (forall i :: 0 <= i < |d.ms| ==> codec.parse(p.frames[i].payload) == Some(d.ms[i]))
    && if |d.ms| < |p.frames| then d.end == BadMessage && codec.parse(p.frames[|d.ms|].payload) == None
       else d.end == (if p.done then Finished else Disconnected) && d.rest == p.rest
  }

  /** What a receiver makes of any bytes, whoever sent them. */
  lemma DeliverIs(codec: Codec, b: Buf)
    ensures ConsumedFrom(codec, ParseStream(b), Deliver(codec, b))
  {
    ConsumeIs(codec, ParseStream(b));
  }

  lemma {:induction false} ConsumeIs(codec: Codec, p: Parsed)
    requires p.done ==> p.frames != []
    ensures ConsumedFrom(codec, p, Consume(codec, p))
    decreases |p.frames|
  {
    if p.frames == [] {
    } else if codec.parse(p.frames[0].payload).Some? && (|p.frames| > 1 || !p.done) {
      ConsumeIs(codec, Parsed(p.frames[1..], p.done, p.rest));
    }
  }

  /** What the client shows of a message: nothing of a status, whatever it carries, and of a result as many
    rows as it says it has, unless it has fewer. */
  lemma ShownIs(m: Respond, default: Kind)
    ensures m.kind == STATUS ==> Shown(m, default) == Some([])
    ensures m.kind == RESULT ==>
      if m.size > |m.rows| then Shown(m, default) == None
      else
        && Shown(m, default).Some? && |Shown(m, default).value| == m.size
        && forall i :: 0 <= i < m.size ==> Shown(m, default).value[i] == m.rows[i]
    ensures m.kind == UNSET && default != UNSET ==> Shown(m, default) == Shown(m.(kind := default), default)
  {
  }

  lemma {:induction false} ShownMessages(bulks: seq<seq<Row>>, total: nat, default: Kind)
    ensures ShownAll(Messages(bulks, total), default) == Some(Concat(bulks))
  {
    if bulks == [] {
    } else {
      var ms := Messages(bulks, total);
      ShownMessages(bulks[1..], total, default);
      assert ms[1..] == Messages(bulks[1..], total);
      assert bulks[0][..|bulks[0]|] == bulks[0];
    }
  }

  /** The whole path: the sends of a reply, joined by the network and followed by any other bytes,
    are delivered as the reply's messages, which show the rows of the result set in order. An empty
    result set sends nothing, so its receiver is left waiting. */
  lemma EndToEnd(codec: Codec, rows: seq<Row>, max: nat, extra: Buf, default: Kind)
    requires Lossless(codec) && max > 0 && CanSend(codec, ReplyMessages(rows, max))
    ensures var sends := PlannedSends(codec, ReplyMessages(rows, max));
      var d := Deliver(codec, Concat(sends) + extra);
      && ShownAll(ReplyMessages(rows, max), default) == Some(rows)
      && (rows != [] ==> d == Delivery(ReplyMessages(rows, max), Finished, extra))
      && (sends == [] <==> rows == [])
  {
    var ms := ReplyMessages(rows, max);
    WireIsStream(FramesOf(codec, ms), MAXIMUM_PACKAGE_BUFFER_SIZE);
    ConcatSplit(rows, max);
    ShownMessages(Split(rows, max), |rows|, default);
    if rows != [] {
      DeliverAll(codec, ms, extra);
      assert |Stream(FramesOf(codec, ms))| > 0;
    }
  }

  /** Cut after any byte, the reply path shows an initial part of the rows and never a finish. */
  lemma CutReply(codec: Codec, rows: seq<Row>, max: nat, seen: Buf, lost: Buf, default: Kind)
    requires Lossless(codec) && max > 0 && CanSend(codec, ReplyMessages(rows, max)) && lost != []
    requires seen + lost == Concat(PlannedSends(codec, ReplyMessages(rows, max)))
    ensures var d := Deliver(codec, seen);
      && d.end == Disconnected
      && d.ms < ReplyMessages(rows, max)
      && ShownAll(d.ms, default).Some? && ShownAll(d.ms, default).value <= rows
  {
    var ms := ReplyMessages(rows, max);
    WireIsStream(FramesOf(codec, ms), MAXIMUM_PACKAGE_BUFFER_SIZE);
    DeliverCut(codec, ms, seen, lost);
    ShownPart(rows, max, Deliver(codec, seen).ms, default);
  }

  lemma ShownPart(rows: seq<Row>, max: nat, part: seq<Respond>, default: Kind)
    requires max > 0 && part <= ReplyMessages(rows, max)
    ensures ShownAll(part, default).Some? && ShownAll(part, default).value <= rows
  {
    var ms := ReplyMessages(rows, max);
    ConcatSplit(rows, max);
    ShownMessages(Split(rows, max), |rows|, default);
    assert ms == part + ms[|part|..];
    ShownPrefix(part, ms[|part|..], default);
  }

  lemma {:induction false} ShownPrefix(a: seq<Respond>, b: seq<Respond>, default: Kind)
    requires ShownAll(a + b, default).Some?
    ensures ShownAll(a, default).Some? && ShownAll(a, default).value <= ShownAll(a + b, default).value
  {
    if a == [] {
    } else {
      assert (a + b)[1..] == a[1..] + b;
      ShownPrefix(a[1..], b, default);
    }
  }

  // ---- The draft as it stands ----

  /** The messages of the draft, which clears the whole message after each bulk and sets one row
    count, over all bulks, on the last. */
  function DraftMessages(bulks: seq<seq<Row>>, total: nat, first: bool): seq<Respond> {
    if bulks == [] then []
    else
      var last := |bulks| == 1;
      var m := if first then BulkMessage(bulks[0], total, last) else CLEARED.(rows := bulks[0], hasQueryTime := last);
      [m.(size := if last then total else 0)] + DraftMessages(bulks[1..], total, false)
  }

  /** What the draft's messages say: only the first one has its kind, its serial number and the grand
    total, and only the last one a row count, which is over all bulks. */
  lemma {:induction false} DraftSays(bulks: seq<seq<Row>>, total: nat, first: bool)
    ensures var ms := DraftMessages(bulks, total, first);
      && RowLists(ms) == bulks
      && forall i :: 0 <= i < |ms| ==>
        && (if first && i == 0 then ms[i].kind == RESULT && ms[i].serialNo == 1 && ms[i].rowsCount == total
            else ms[i].kind == UNSET && ms[i].serialNo == 0 && ms[i].rowsCount == 0)
        && ms[i].size == (if i == |ms| - 1 then total else 0)
        && (ms[i].hasQueryTime <==> i == |ms| - 1)
  {
    if bulks == [] {
    } else {
      var ms := DraftMessages(bulks, total, first);
      DraftSays(bulks[1..], total, false);
      assert ms[1..] == DraftMessages(bulks[1..], total, false);
      assert forall i :: 0 < i < |ms| ==> ms[i] == ms[1..][i - 1] && ms[i].rows == RowLists(ms[1..])[i - 1];
    }
  }

  lemma {:induction false} DraftShowsTooFew(bulks: seq<seq<Row>>, total: nat, first: bool, default: Kind)
    requires (forall b <- bulks :: b != []) && (|bulks| > 1 || (!first && bulks != []))
    requires |Concat(bulks)| <= total && (!first ==> |Concat(bulks)| < total)
    ensures var shown := ShownAll(DraftMessages(bulks, total, first), default);
      shown.Some? ==> |shown.value| < |Concat(bulks)|
  {
    var ms := DraftMessages(bulks, total, first);
    assert ms[1..] == DraftMessages(bulks[1..], total, false);
    assert bulks[0] in bulks;
    if |bulks| > 1 {
      assert forall b <- bulks[1..] :: b in bulks;
      DraftShowsTooFew(bulks[1..], total, false, default);
    } else {
      assert bulks[1..] == [] && Concat(bulks) == bulks[0] + Concat(bulks[1..]);
    }
  }

  /** The draft shows a result set exactly if all rows but the last are under the bulk limit, that
    is, if it goes out as one bulk. */
  lemma DraftShowsRowsIff(rows: seq<Row>, max: nat, default: Kind)
    requires max > 0 && rows != []
    ensures ShownAll(DraftMessages(Split(rows, max), |rows|, true), default) == Some(rows)
      <==> Size(rows[..|rows| - 1]) < max
  {
    var bulks := Split(rows, max);
    SingleBulkIff(rows, max);
    ConcatSplit(rows, max);
    if |bulks| == 1 {
      assert bulks[1..] == [];
      assert Concat(bulks) == bulks[0] + Concat(bulks[1..]);
      assert rows == bulks[0];
      var ms := DraftMessages(bulks, |rows|, true);
      assert DraftMessages(bulks[1..], |rows|, false) == [];
      assert ms == [BulkMessage(rows, |rows|, true)];
      assert ms[1..] == [];
      assert rows[..|rows|] == rows;
    } else {
      SplitGreedy(rows, max);
      forall b <- bulks ensures b != [] {
        var i :| 0 <= i < |bulks| && bulks[i] == b;
      }
      DraftShowsTooFew(bulks, |rows|, true, default);
    }
  }

  /** A row that fills a bulk and one more row: the draft does not show them. */
  lemma DraftLosesRows(default: Kind)
    ensures var rows: seq<Row> := [seq(MAX_TRX_BUFFER_SZ, _ => 0), [1]];
      ShownAll(DraftMessages(Split(rows, MAX_TRX_BUFFER_SZ), |rows|, true), default) != Some(rows)
  {
    hide Split, ShownAll, DraftMessages;
    var full: Row := seq(MAX_TRX_BUFFER_SZ, _ => 0);
    var rows: seq<Row> := [full, [1]];
    DraftShowsRowsIff(rows, MAX_TRX_BUFFER_SZ, default);
    assert rows[..1] == [full] && [full][1..] == [];
    assert Size([full]) == |full| + Size([]);
  }
}
