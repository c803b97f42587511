/** The request path, and a whole conversation: one query out, one reply back. */
module QueryPath {
  import opened Bytes
  import opened Frames
  import opened Sockets
  import opened BulkStream
  import opened Reply

  /** A request message; only an SQL query is served. */
  datatype Request = Request(isQuery: bool, isSql: bool, sql: string)

  datatype RequestCodec = RequestCodec(ser: Request -> Buf, parse: Buf -> Option<Request>)

  ghost predicate LosslessRequests(codec: RequestCodec) {
    forall r :: codec.parse(codec.ser(r)) == Some(r)
  }

  type Database = string -> Answer

  /** The client's half: frame the query and send it. */
  method SendQuery(sock: Socket, codec: RequestCodec, sql: string) returns (ok: bool)
    requires |codec.ser(Request(true, true, sql))| < WORD
    modifies sock`sends
    ensures SentUpTo(old(sock.sends), QuerySends(codec, sql), sock.sends, ok)
  {
    ok := sock.SendFrame(PROTOCOL_PROTOBUF, codec.ser(Request(true, true, sql)));
  }

  function QuerySends(codec: RequestCodec, sql: string): seq<Buf>
    requires |codec.ser(Request(true, true, sql))| < WORD
  {
    Chunks(Encode(Frame(PROTOCOL_PROTOBUF, codec.ser(Request(true, true, sql)))), MAXIMUM_PACKAGE_BUFFER_SIZE)
  }

  /** The reply messages the server makes for the request at the front of `b`; none for a request
    that is incomplete, unreadable or not an SQL query. */
  function Served(codec: RequestCodec, db: Database, b: Buf): seq<Respond> {
    match Decode(b)
    case None => []
    case Some((f, _)) =>
      match codec.parse(f.payload)
      case None => []
      case Some(r) => if r.isQuery && r.isSql then AnswerMessages(db(r.sql)) else []
  }

  /** The server's half. `end` is how reading the request ended; `ok` is false after a socket exception.
    An SQL query is answered with what the database gives for it; nothing is sent for a message that
    cannot be read, is not a query or is not SQL. With the request read, nothing behind it was read,
    whether or not the reply gets out. */
  method ExecuteTask(sock: Socket, codec: RequestCodec, replies: Codec, db: Database) returns (end: ReadEnd, ok: bool)
    requires CanSend(replies, Served(codec, db, sock.incoming))
    modifies sock
    ensures var planned := PlannedSends(replies, Served(codec, db, old(sock.incoming)));
      && |old(sock.sends)| <= |sock.sends| <= |old(sock.sends)| + |planned|
      && sock.sends == old(sock.sends) + planned[..|sock.sends| - |old(sock.sends)|]
      && (ok ==> sock.sends == old(sock.sends) + planned)
    ensures end == Full ==> Decode(old(sock.incoming)).Some? && sock.incoming == Decode(old(sock.incoming)).value.1
    ensures end == Eof ==> Decode(old(sock.incoming)) == None && ok
    ensures end == Threw ==> !ok
    ensures end != Full ==> sock.sends == old(sock.sends)
    ensures end == Full ==>
      match codec.parse(Decode(old(sock.incoming)).value.0.payload)
      case Some(Request(true, true, sql)) =>
        CanSend(replies, AnswerMessages(db(sql)))
        && SentUpTo(old(sock.sends), PlannedSends(replies, AnswerMessages(db(sql))), sock.sends, ok)
      case _ => ok && sock.sends == old(sock.sends)
    ensures |sock.incoming| <= |old(sock.incoming)|
    ensures sock.incoming == old(sock.incoming)[|old(sock.incoming)| - |sock.incoming|..]
    ensures Decode(old(sock.incoming)).Some? ==> |Decode(old(sock.incoming)).value.1| <= |sock.incoming|
  {
    var frame;
    end, frame := sock.RecvFrame();
    if end != Full {
      return end, end == Eof;
    }
    match codec.parse(frame.payload)
    case None => return Full, true;
    case Some(r) =>
      if !r.isQuery || !r.isSql {
        return Full, true;
      }
      var manager := new BulkDataOutStreamMngr(sock, replies);
      ok := manager.HandleProtoBuffSend(db(r.sql));
  }

  /** For every query and however the bytes are cut on the way, the server reads back the payload the
    client framed and nothing behind it; the request takes ceil(n / 1024) sends, all full but
    possibly the last. */
  lemma RequestPath(codec: RequestCodec, sql: string, extra: Buf)
    requires |codec.ser(Request(true, true, sql))| < WORD
    ensures var payload := codec.ser(Request(true, true, sql));
      var sends := QuerySends(codec, sql);
      && Decode(Concat(sends) + extra) == Some((Frame(1, payload), extra))
      && |sends| == (8 + |payload| + 1024 - 1) / 1024
      && forall i :: 0 <= i < |sends| - 1 ==> |sends[i]| == 1024
  {
    var f := Frame(PROTOCOL_PROTOBUF, codec.ser(Request(true, true, sql)));
    ChunksShape(Encode(f), MAXIMUM_PACKAGE_BUFFER_SIZE);
    DecodeEncode(f, extra);
  }

  /** The server reads the query the client sent. */
  lemma QueryServed(codec: RequestCodec, db: Database, sql: string)
    requires LosslessRequests(codec) && |codec.ser(Request(true, true, sql))| < WORD
    ensures Served(codec, db, Concat(QuerySends(codec, sql))) == AnswerMessages(db(sql))
  {
    hide QuerySends, Decode, AnswerMessages;
    RequestPath(codec, sql, []);
    assert Concat(QuerySends(codec, sql)) + [] == Concat(QuerySends(codec, sql));
    assert codec.parse(codec.ser(Request(true, true, sql))) == Some(Request(true, true, sql));
  }

  /** The client gets the whole answer, and finishes exactly if it has a message. */
  lemma AnswerShown(replies: Codec, answer: Answer, default: Kind)
    requires Lossless(replies) && CanSend(replies, AnswerMessages(answer))
    ensures var ms := AnswerMessages(answer);
      var d := Deliver(replies, Concat(PlannedSends(replies, ms)));
      && (d.end == Finished <==> ms != [])
      && d.ms == ms
      && (answer.Rows? ==> (ms == [] <==> answer.rows == []) && ShownAll(ms, default) == Some(answer.rows))
      && (answer.NoResultSet? ==> ShownAll(ms, default) == Some([]))
  {
    hide Deliver, ShownAll, Wire, ReplyMessages, CanSend;
    var ms := AnswerMessages(answer);
    var fs := FramesOf(replies, ms);
    WireIsStream(fs, MAXIMUM_PACKAGE_BUFFER_SIZE);
    if ms == [] {
      NothingDelivered(replies);
    } else {
      DeliverAll(replies, ms, []);
      assert Stream(fs) + [] == Stream(fs);
    }
    StatusShowsNothing(default);
    if answer.Rows? {
      EndToEnd(replies, answer.rows, MAX_TRX_BUFFER_SZ, [], default);
      NoneForNothing(answer.rows, ms);
    }
  }

  lemma StatusShowsNothing(default: Kind)
    ensures ShownAll([STATUS_REPLY], default) == Some([])
  {
    var none: seq<Buf> := [];
    assert [STATUS_REPLY][1..] == [] && none + none == none;
  }

  lemma NothingDelivered(replies: Codec)
    ensures Stream([]) == [] && Deliver(replies, []) == Delivery([], Disconnected, [])
  {
  }

  lemma NoneForNothing(rows: seq<Buf>, ms: seq<Respond>)
    requires ms == ReplyMessages(rows, MAX_TRX_BUFFER_SZ)
    ensures ms == [] <==> rows == []
  {
  }

  /** A whole conversation. The server, given the client's sends, plans the reply to that query; the
    client, given those sends, finishes exactly if the reply has a message, and then shows the rows
    the database gave. */
  lemma Conversation(codec: RequestCodec, replies: Codec, db: Database, sql: string, default: Kind)
    requires LosslessRequests(codec) && Lossless(replies)
    requires |codec.ser(Request(true, true, sql))| < WORD
    requires CanSend(replies, AnswerMessages(db(sql)))
    ensures Served(codec, db, Concat(QuerySends(codec, sql))) == AnswerMessages(db(sql))
    ensures var d := Deliver(replies, Concat(PlannedSends(replies, AnswerMessages(db(sql)))));
      && (d.end == Finished <==> db(sql).NoResultSet? || (db(sql).Rows? && db(sql).rows != []))
      && d.ms == AnswerMessages(db(sql))
      && (db(sql).Rows? ==> ShownAll(d.ms, default) == Some(db(sql).rows))
      && (db(sql).Rows? ==> forall m <- d.ms :: m.kind == RESULT && m.rowsCount == |db(sql).rows|)
      && (db(sql).NoResultSet? ==> ShownAll(d.ms, default) == Some([]))
  {
    hide QuerySends, Deliver, ShownAll, PlannedSends, Served, ReplyMessages, CanSend, Concat;
    QueryServed(codec, db, sql);
    AnswerShown(replies, db(sql), default);
    AnswerSays(db(sql));
  }
}
