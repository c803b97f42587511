/** The reply path of the query server: a result set goes out as a chain of bulk messages and comes
  back as the same rows. Protobuf is an abstract codec that inverts its own encoding. */
module BulkStream {
  import opened Bytes
  import opened Frames
  import opened Sockets
  import opened BulkSplit

  const MAX_TRX_BUFFER_SZ: nat := 2 * 0x10_0000

  // ---- Messages ----

  datatype Kind = UNSET | STATUS | RESULT

  /** A reply message. `size` is the number of rows the message says it carries and `rowsCount` the
    grand total; `hasQueryTime` stands for the per-result-set data of the last message. */
  datatype Respond = Respond(kind: Kind, serialNo: nat, rowsCount: nat, rows: seq<Row>, size: nat, hasQueryTime: bool)

  /** A message after `clear()`. */
  const CLEARED := Respond(UNSET, 0, 0, [], 0, false)
  const STATUS_REPLY := Respond(STATUS, 1, 0, [], 0, false)

  datatype Codec = Codec(ser: Respond -> Buf, parse: Buf -> Option<Respond>)

  ghost predicate Lossless(codec: Codec) {
    forall m :: codec.parse(codec.ser(m)) == Some(m)
  }

  ghost predicate CanSend(codec: Codec, ms: seq<Respond>) {
    forall m <- ms :: |codec.ser(m)| < WORD
  }

  function BulkMessage(bulk: seq<Row>, total: nat, last: bool): Respond {
    Respond(RESULT, 1, total, bulk, |bulk|, last)
  }

  /** A bulk message before its first row: each one keeps its kind and the grand total. */
  function NewBulk(total: nat): Respond {
    CLEARED.(kind := RESULT, serialNo := 1, rowsCount := total)
  }

  function Messages(bulks: seq<seq<Row>>, total: nat): seq<Respond> {
    if bulks == [] then []
    else [BulkMessage(bulks[0], total, |bulks| == 1)] + Messages(bulks[1..], total)
  }

  function ReplyMessages(rows: seq<Row>, max: nat): seq<Respond>
    requires max > 0
  {
    Messages(Split(rows, max), |rows|)
  }

  function BulkFlags(last: bool): U32 {
    if last then PROTOCOL_PROTOBUF else MSG_CONT + PROTOCOL_PROTOBUF
  }

  function FramesOf(codec: Codec, ms: seq<Respond>): (fs: seq<Frame>)
    requires CanSend(codec, ms)
    ensures |fs| == |ms| && AllFit(fs)
    ensures forall i :: 0 <= i < |ms| ==> fs[i] == Frame(BulkFlags(i == |ms| - 1), codec.ser(ms[i]))
  {
    if ms == [] then []
    else [Frame(BulkFlags(|ms| == 1), codec.ser(ms[0]))] + FramesOf(codec, ms[1..])
  }

  /** The send calls that put a list of messages on the wire. */
  function PlannedSends(codec: Codec, ms: seq<Respond>): seq<Buf>
    requires CanSend(codec, ms)
  {
    Wire(FramesOf(codec, ms), MAXIMUM_PACKAGE_BUFFER_SIZE)
  }

  /** What the client's `consume` prints of a message: its first `size` rows, if it is a result. An
    unset kind reads as the schema's default kind. None stands for reading past the rows. */
  function Shown(m: Respond, default: Kind): Option<seq<Row>> {
    var kind := if m.kind == UNSET then default else m.kind;
    if kind != RESULT then Some([])
    else if m.size <= |m.rows| then Some(m.rows[..m.size])
    else None
  }

  function ShownAll(ms: seq<Respond>, default: Kind): Option<seq<Row>> {
    if ms == [] then Some([])
    else
      match (Shown(ms[0], default), ShownAll(ms[1..], default))
      case (Some(a), Some(b)) => Some(a + b)
      case _ => None
  }

  // ---- Sender ----

  class ResultSet {
    const rows: seq<Row>
    var pos: nat

    ghost predicate Valid() reads this { pos <= |rows| }

    constructor (rows: seq<Row>)
      ensures Valid() && this.rows == rows && pos == 0
    {
      this.rows := rows;
      pos := 0;
    }

    predicate IsEndOfSet()
      requires Valid()
      reads this
    {
      pos == |rows|
    }

    method GetNextCSVRow() returns (row: Row)
      requires Valid() && !IsEndOfSet()
      modifies this
      ensures Valid() && pos == old(pos) + 1 && row == rows[old(pos)]
    {
      row := rows[pos];
      pos := pos + 1;
    }
  }

  /** What executing the query gives: a null result set, a result set, or an exception. */
  datatype Answer = NoResultSet | Rows(rows: seq<Row>) | Failed

  function AnswerMessages(answer: Answer): seq<Respond> {
    match answer
    case NoResultSet => [STATUS_REPLY]
    case Rows(rows) => ReplyMessages(rows, MAX_TRX_BUFFER_SZ)
    case Failed => []
  }

  lemma SentWhole(was: seq<Buf>, done: seq<Buf>, chunks: seq<Buf>, now: seq<Buf>)
    requires SentUpTo(was + done, chunks, now, true)
    ensures now == was + (done + chunks)
  {
  }

  lemma SentPart(was: seq<Buf>, done: seq<Buf>, chunks: seq<Buf>, tail: seq<Buf>, now: seq<Buf>)
    requires SentUpTo(was + done, chunks, now, false)
    ensures SentUpTo(was, done + chunks + tail, now, false)
  {
  }

  /** The sends that carry `rows`, the unsent end of a result set of `total` rows. */
  function RowsWire(codec: Codec, rows: seq<Row>, total: nat, max: nat): seq<Buf>
    requires max > 0 && CanSend(codec, Messages(Split(rows, max), total))
  {
    PlannedSends(codec, Messages(Split(rows, max), total))
  }

  lemma RowsWireEnd(codec: Codec, total: nat, max: nat)
    requires max > 0
    ensures CanSend(codec, Messages(Split([], max), total)) && RowsWire(codec, [], total, max) == []
  {
  }

  lemma RowsWireStep(codec: Codec, rows: seq<Row>, total: nat, max: nat)
    requires max > 0 && rows != [] && CanSend(codec, Messages(Split(rows, max), total))
    ensures var k := BulkLen(rows, 0, max);
      var m := BulkMessage(rows[..k], total, k == |rows|);
      && |codec.ser(m)| < WORD
      && CanSend(codec, Messages(Split(rows[k..], max), total))
      && RowsWire(codec, rows, total, max) ==
        Chunks(Encode(Frame(BulkFlags(k == |rows|), codec.ser(m))), MAXIMUM_PACKAGE_BUFFER_SIZE)
        + RowsWire(codec, rows[k..], total, max)
  {
  }

  class BulkDataOutStreamMngr {
    const socket: Socket
    const codec: Codec

    constructor (socket: Socket, codec: Codec)
      ensures this.socket == socket && this.codec == codec
    {
      this.socket := socket;
      this.codec := codec;
    }

    method SendBulk(m: Respond, flags: U32) returns (ok: bool)
      requires |codec.ser(m)| < WORD
      modifies socket`sends
      ensures var package := Encode(Frame(flags, codec.ser(m)));
        SentUpTo(old(socket.sends), Chunks(package, MAXIMUM_PACKAGE_BUFFER_SIZE), socket.sends, ok)
    {
      ok := socket.SendFrame(flags, codec.ser(m));
    }

    /** The inner loop: move rows into `m` until the bulk holds `max` bytes or the set ends. */
    method FillBulk(rs: ResultSet, m: Respond, max: nat) returns (filled: Respond, count: nat)
      requires rs.Valid() && m.rows == []
      modifies rs
      ensures rs.Valid() && count == BulkLen(rs.rows[old(rs.pos)..], 0, max)
      ensures rs.pos == old(rs.pos) + count
      ensures filled == m.(rows := rs.rows[old(rs.pos)..rs.pos])
    {
      filled, count := m, 0;
      var totalBulkSz: nat := 0;
      while totalBulkSz < max && !rs.IsEndOfSet()
        invariant rs.Valid() && rs.pos == old(rs.pos) + count
        invariant filled == m.(rows := rs.rows[old(rs.pos)..rs.pos])
        invariant BulkLen(rs.rows[old(rs.pos)..], 0, max) == count + BulkLen(rs.rows[rs.pos..], totalBulkSz, max)
        decreases |rs.rows| - rs.pos
      {
        ghost var before := rs.rows[rs.pos..];
        var row := rs.GetNextCSVRow();
        assert before[1..] == rs.rows[rs.pos..];
        filled := filled.(rows := filled.rows + [row]);
        totalBulkSz := totalBulkSz + |row|;
        count := count + 1;
      }
    }

    /** Stream a whole result set as bulks of about `max` bytes. */
    method StreamRows(rs: ResultSet, max: nat) returns (ok: bool)
      requires max > 0 && rs.Valid() && rs.pos == 0
      requires CanSend(codec, ReplyMessages(rs.rows, max))
      modifies rs, socket`sends
      ensures SentUpTo(old(socket.sends), PlannedSends(codec, ReplyMessages(rs.rows, max)), socket.sends, ok)
      ensures rs.Valid() && (ok ==> rs.IsEndOfSet())
    {
      hide Chunks, Encode, FramesOf, Split, Messages, BulkLen;
      var total := |rs.rows|;
      ghost var was, done := socket.sends, [];
      ghost var goal := RowsWire(codec, rs.rows, total, max);
      var m := NewBulk(total);
      var flags: U32 := MSG_CONT + PROTOCOL_PROTOBUF;
      assert rs.rows[rs.pos..] == rs.rows;
      while !rs.IsEndOfSet()
        invariant rs.Valid()
        invariant m == NewBulk(total)
        invariant !rs.IsEndOfSet() ==> flags == MSG_CONT + PROTOCOL_PROTOBUF
        invariant CanSend(codec, Messages(Split(rs.rows[rs.pos..], max), total))
        invariant socket.sends == was + done
        invariant goal == done + RowsWire(codec, rs.rows[rs.pos..], total, max)
        decreases |rs.rows| - rs.pos
      {
        ghost var rest := rs.rows[rs.pos..];
        RowsWireStep(codec, rest, total, max);
        var count;
        m, count := FillBulk(rs, m, max);
        assert m.rows == rest[..count] && rs.rows[rs.pos..] == rest[count..];
        m := m.(size := count);
        if rs.IsEndOfSet() {
          m := m.(hasQueryTime := true);
          flags := PROTOCOL_PROTOBUF;
        }
        ghost var chunks := Chunks(Encode(Frame(flags, codec.ser(m))), MAXIMUM_PACKAGE_BUFFER_SIZE);
        ghost var tail := RowsWire(codec, rest[count..], total, max);
        assert m == BulkMessage(rest[..count], total, count == |rest|) && flags == BulkFlags(count == |rest|);
        assert RowsWire(codec, rest, total, max) == chunks + tail;
        assert goal == done + chunks + tail;
        ok := SendBulk(m, flags);
        if !ok {
          SentPart(was, done, chunks, tail, socket.sends);
          return;
        }
        SentWhole(was, done, chunks, socket.sends);
        done := done + chunks;
        m := NewBulk(total);
      }
      assert rs.rows[rs.pos..] == [];
      RowsWireEnd(codec, total, max);
      ok := true;
    }

    /** Run the reply for what the query gave. An exception while sending ends the reply early. */
    method HandleProtoBuffSend(answer: Answer) returns (ok: bool)
      requires CanSend(codec, AnswerMessages(answer))
      modifies socket`sends
      ensures SentUpTo(old(socket.sends), PlannedSends(codec, AnswerMessages(answer)), socket.sends, ok)
    {
      match answer
      case NoResultSet =>
        ghost var fs := FramesOf(codec, [STATUS_REPLY]);
        assert fs[1..] == [];
        assert Wire(fs, MAXIMUM_PACKAGE_BUFFER_SIZE) == Chunks(Encode(fs[0]), MAXIMUM_PACKAGE_BUFFER_SIZE);
        ok := SendBulk(STATUS_REPLY, PROTOCOL_PROTOBUF);
      case Rows(rows) =>
        var rs := new ResultSet(rows);
        ok := StreamRows(rs, MAX_TRX_BUFFER_SZ);
      case Failed =>
        ok := true;
    }
  }

  // ---- Receiver ----

  datatype End = Finished | Disconnected | BadMessage

  /** The messages a receiver hands to its consumer from the bytes that arrive, why it stops, and
    the bytes it leaves unread. */
  datatype Delivery = Delivery(ms: seq<Respond>, end: End, rest: Buf)

  function Deliver(codec: Codec, b: Buf): Delivery {
    Consume(codec, ParseStream(b))
  }

  function Consume(codec: Codec, p: Parsed): Delivery
    decreases |p.frames|
  {
    if p.frames == [] then Delivery([], Disconnected, p.rest)
    else
      match codec.parse(p.frames[0].payload)
      case None => Delivery([], BadMessage, p.rest)
      case Some(m) =>
        if |p.frames| == 1 && p.done then Delivery([m], Finished, p.rest)
        else
          var d := Consume(codec, Parsed(p.frames[1..], p.done, p.rest));
          Delivery([m] + d.ms, d.end, d.rest)
  }

  /** `goal` is what was consumed so far plus what the bytes `b` still give. */
  ghost predicate Continues(codec: Codec, b: Buf, seen: seq<Respond>, goal: Delivery) {
    var d := Deliver(codec, b);
    goal == Delivery(seen + d.ms, d.end, d.rest)
  }

  lemma FinishedGivesMessage(codec: Codec, b: Buf)
    ensures Deliver(codec, b).end == Finished ==> Deliver(codec, b).ms != []
  {
  }

  lemma DeliverStops(codec: Codec, b: Buf)
    ensures Decode(b) == None ==> Deliver(codec, b) == Delivery([], Disconnected, b)
    ensures Decode(b).Some? && codec.parse(Decode(b).value.0.payload) == None ==>
      Deliver(codec, b).ms == [] && Deliver(codec, b).end == BadMessage
  {
  }

  lemma DeliverStep(codec: Codec, b: Buf, seen: seq<Respond>, goal: Delivery, m: Respond)
    requires Continues(codec, b, seen, goal)
    requires Decode(b).Some? && codec.parse(Decode(b).value.0.payload) == Some(m)
    ensures var (f, rest) := Decode(b).value;
      if HasCont(f.flags) then Continues(codec, rest, seen + [m], goal)
      else goal == Delivery(seen + [m], Finished, rest)
  {
  }

  /** `now` is `was` plus all of the delivery, or, after an exception (`end` is None), plus an
    initial part that is never the whole of a finished reply. */
  ghost predicate Received(was: seq<Respond>, d: Delivery, now: seq<Respond>, end: Option<End>) {
    match end
    case Some(e) => now == was + d.ms && e == d.end
    case None => was <= now <= was + d.ms && (d.end == Finished ==> now != was + d.ms)
  }

  class BulkDataInStreamMngr {
    const socket: Socket
    const codec: Codec
    /** The messages given to the registered consumer. */
    var consumed: seq<Respond>

    constructor (socket: Socket, codec: Codec)
      ensures this.socket == socket && this.codec == codec && consumed == []
    {
      this.socket := socket;
      this.codec := codec;
      consumed := [];
    }

    /** Receive a reply. None stands for a socket exception, after which only whole messages have
      been consumed and never the final one. */
    method HandleProtoBuffRecv() returns (end: Option<End>)
      modifies this`consumed, socket`incoming
      ensures Received(old(consumed), Deliver(codec, old(socket.incoming)), consumed, end)
      ensures end == Some(Finished) ==> socket.incoming == Deliver(codec, old(socket.incoming)).rest
    {
      hide Deliver, Decode, HasCont;
      ghost var was, goal, seen := consumed, Deliver(codec, socket.incoming), [];
      var more := true;
      while more
        invariant consumed == was + seen
        invariant more ==> Continues(codec, socket.incoming, seen, goal)
        invariant !more ==> goal == Delivery(seen, Finished, socket.incoming)
        decreases |socket.incoming|
      {
        ghost var b := socket.incoming;
        FinishedGivesMessage(codec, b);
        DeliverStops(codec, b);
        var readEnd, frame := socket.RecvFrame();
        if readEnd != Full {
          end := if readEnd == Eof then Some(Disconnected) else None;
          return;
        }
        match codec.parse(frame.payload)
        case None =>
          end := Some(BadMessage);
          return;
        case Some(m) =>
          DeliverStep(codec, b, seen, goal, m);
          consumed := consumed + [m];
          seen := seen + [m];
          more := HasCont(frame.flags);
      }
      end := Some(Finished);
    }
  }
}
