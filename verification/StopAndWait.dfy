/** The producer and consumer processes as one state machine. The producer numbers its messages and
  waits for an answer after each; the consumer handles and acknowledges them one by one, and may
  crash and be restarted at any step. */
module StopAndWait {
  import opened Bytes

  const LISTEN_BACKLOG: nat := 10

  /** One socket connection: the data under way in each direction, and which ends are open. Data
    already written stays readable after the writer's end closes. */
  datatype Conn = Conn(toConsumer: seq<nat>, toProducer: seq<nat>, producerOpen: bool, consumerOpen: bool)

  /** Where the producer is in its loop: before `connect`, before the write, or before the read of
    the acknowledgement. */
  datatype Phase = Connecting | Sending | Awaiting

  /** Where the consumer is: not running, at `accept`, reading from a connection, or holding a message
    it has yet to handle, or has handled and has yet to acknowledge. */
  datatype Place = Down | Accepting | Reading(conn: nat) | Handling(conn: nat, id: nat) | Acking(conn: nat, id: nat)

  datatype State = State(
    conns: seq<Conn>, backlog: seq<nat>,
    phase: Phase, index: nat, conn: Option<nat>, acks: seq<nat>,
    place: Place, handled: seq<nat>, crashes: nat)

  const INIT := State([], [], Connecting, 1, None, [], Down, [], 0)

  /** The steps of the producer (a `connect` that succeeds, finds itself connected, or fails and makes
    a new socket; the write; the read), of the consumer, and its crash and restart. */
  datatype Event =
    | ConnectNew | ConnectAlready | ConnectFail | SendMsg | ReadAck
    | Accept | ReadMsg | Handle | SendAck
    | Crash | Restart

  /** A read gives the oldest message there is; with none there and the peer's end closed it gives
    the default message, whose id is 0. Otherwise it blocks. */
  predicate CanRead(data: seq<nat>, peerOpen: bool) {
    data != [] || !peerOpen
  }

  function ReadFromSocket(data: seq<nat>): nat {
    if data != [] then data[0] else 0
  }

  function Rest(data: seq<nat>): seq<nat> {
    if data != [] then data[1..] else []
  }

  predicate OnConn(s: State) {
    s.conn.Some? && s.conn.value < |s.conns|
  }

  predicate Enabled(s: State, e: Event) {
    match e
    case ConnectNew => s.phase == Connecting && s.conn == None && s.place != Down && |s.backlog| < LISTEN_BACKLOG
    case ConnectAlready => s.phase == Connecting && OnConn(s)
    case ConnectFail => s.phase == Connecting && (OnConn(s) || s.conn == None)
    case SendMsg => s.phase == Sending && OnConn(s)
    case ReadAck => s.phase == Awaiting && OnConn(s) &&
      var c := s.conns[s.conn.value]; CanRead(c.toProducer, c.consumerOpen)
    case Accept => s.place == Accepting && s.backlog != []
    case ReadMsg => s.place.Reading? && s.place.conn < |s.conns| &&
      var c := s.conns[s.place.conn]; CanRead(c.toConsumer, c.producerOpen)
    case Handle => s.place.Handling?
    case SendAck => s.place.Acking? && s.place.conn < |s.conns|
    case Crash => s.place != Down
    case Restart => s.place == Down
  }

  function Step(s: State, e: Event): State
    requires Enabled(s, e)
  {
    match e
    case ConnectNew =>
      var k := |s.conns|;
      s.(conns := s.conns + [Conn([], [], true, true)], backlog := s.backlog + [k], conn := Some(k), phase := Sending)
    case ConnectAlready => s.(phase := Sending)
    case ConnectFail =>
      if s.conn == None then s
      else
        var k := s.conn.value;
        s.(conns := s.conns[k := s.conns[k].(producerOpen := false)], conn := None)
    case SendMsg =>
      var k := s.conn.value;
      var c := s.conns[k];
      var c' := if c.consumerOpen then c.(toConsumer := c.toConsumer + [s.index]) else c;
      s.(conns := s.conns[k := c'], phase := Awaiting)
    case ReadAck =>
      var k := s.conn.value;
      var c := s.conns[k];
      s.(conns := s.conns[k := c.(toProducer := Rest(c.toProducer))],
         acks := s.acks + [ReadFromSocket(c.toProducer)], index := s.index + 1, phase := Connecting)
    case Accept => s.(place := Reading(s.backlog[0]), backlog := s.backlog[1..])
    case ReadMsg =>
      var k := s.place.conn;
      var c := s.conns[k];
      var id := ReadFromSocket(c.toConsumer);
      var c' := c.(toConsumer := Rest(c.toConsumer));
      if id == 0 then s.(conns := s.conns[k := c'.(consumerOpen := false)], place := Accepting)
      else s.(conns := s.conns[k := c'], place := Handling(k, id))
    case Handle => s.(handled := s.handled + [s.place.id], place := Acking(s.place.conn, s.place.id))
    case SendAck =>
      var k := s.place.conn;
      var c := s.conns[k];
      var c' := if c.producerOpen then c.(toProducer := c.toProducer + [s.place.id]) else c;
      s.(conns := s.conns[k := c'], place := Reading(k))
    case Crash =>
      s.(conns := seq(|s.conns|, i requires 0 <= i < |s.conns| => s.conns[i].(consumerOpen := false)),
         backlog := [], place := Down, crashes := s.crashes + 1)
    case Restart => s.(place := Accepting)
  }

  ghost predicate IsRun(s: State, events: seq<Event>)
    decreases |events|
  {
    events != [] ==> Enabled(s, events[0]) && IsRun(Step(s, events[0]), events[1..])
  }

  function Run(s: State, events: seq<Event>): State
    requires IsRun(s, events)
    decreases |events|
  {
    if events == [] then s else Run(Step(s, events[0]), events[1..])
  }

  // ---- Invariant ----

  predicate Rising(ids: seq<nat>) {
    forall i, j :: 0 <= i < j < |ids| ==> ids[i] < ids[j]
  }

  /** The producer's own variables. */
  ghost predicate ProducerInv(s: State) {
    && s.index >= 1 && |s.acks| == s.index - 1
    && (forall i :: 0 <= i < |s.acks| ==> s.acks[i] == 0 || (s.acks[i] == i + 1 && i + 1 in s.handled))
    && (s.phase != Connecting ==> s.conn.Some?)
    && (s.conn.Some? ==> s.conn.value < |s.conns|)
    && forall k :: 0 <= k < |s.conns| ==> (s.conns[k].producerOpen <==> s.conn == Some(k))
  }

  /** The consumer's log: rising, and below the current id unless that message was handed over. */
  ghost predicate LogInv(s: State) {
    && Rising(s.handled)
    && (forall id <- s.handled :: 1 <= id <= s.index)
    && (s.phase != Awaiting ==> s.index !in s.handled)
  }

  /** Which connections the consumer still has: those in its backlog and the one it serves. */
  ghost predicate ConsumerInv(s: State) {
    && (forall i :: 0 <= i < |s.backlog| ==> s.backlog[i] < |s.conns|)
    && (forall i, j :: 0 <= i < j < |s.backlog| ==> s.backlog[i] != s.backlog[j])
    && (Serving(s) ==> s.place.conn < |s.conns| && s.place.conn !in s.backlog)
    && (s.place == Down ==> s.backlog == [])
    && forall k :: 0 <= k < |s.conns| ==>
      (s.conns[k].consumerOpen <==> k in s.backlog || (Serving(s) && s.place.conn == k))
  }

  predicate Serving(s: State) {
    s.place.Reading? || s.place.Handling? || s.place.Acking?
  }

  /** On the connection the producer waits on, with the consumer's end open, the current message is
    in exactly one place: under way, with the consumer before or after handling, or acknowledged. */
  ghost predicate Outstanding(s: State, c: Conn, k: nat) {
    || (c.toConsumer == [s.index] && c.toProducer == [] && s.index !in s.handled && !Holds(s))
    || (c.toConsumer == [] && c.toProducer == [] && s.index !in s.handled && s.place == Handling(k, s.index))
    || (c.toConsumer == [] && c.toProducer == [] && s.index in s.handled && s.place == Acking(k, s.index))
    || (c.toConsumer == [] && c.toProducer == [s.index] && s.index in s.handled && !Holds(s))
  }

  predicate Holds(s: State) {
    s.place.Handling? || s.place.Acking?
  }

  /** Nothing is under way, except on the connection the producer waits on. */
  ghost predicate TransitInv(s: State) {
    && (Holds(s) ==> s.phase == Awaiting && s.conn == Some(s.place.conn))
    && forall k :: 0 <= k < |s.conns| ==>
      var c := s.conns[k];
      if s.phase == Awaiting && s.conn == Some(k) then
        if c.consumerOpen then Outstanding(s, c, k)
        else c.toProducer == [] || (c.toProducer == [s.index] && s.index in s.handled)
      else
        && (s.conn == Some(k) ==> c.toProducer == [])
        && (c.consumerOpen ==> c.toConsumer == [])
  }

  ghost predicate Inv(s: State) {
    ProducerInv(s) && LogInv(s) && ConsumerInv(s) && TransitInv(s)
  }

  lemma StepKeepsProducer(s: State, e: Event)
    requires Inv(s) && Enabled(s, e)
    ensures ProducerInv(Step(s, e))
  {
  }

  /** A held message is the current one, and is in the log exactly once it was handled. */
  lemma HeldIsCurrent(s: State)
    requires Inv(s) && Holds(s)
    ensures s.phase == Awaiting && s.place.id == s.index && s.place.conn < |s.conns| && s.conn == Some(s.place.conn)
    ensures s.index in s.handled <==> s.place.Acking?
  {
  }

  lemma StepKeepsLog(s: State, e: Event)
    requires Inv(s) && Enabled(s, e)
    ensures LogInv(Step(s, e))
  {
    if e == Handle {
      HeldIsCurrent(s);
      forall i | 0 <= i < |s.handled| ensures s.handled[i] < s.index {
        assert s.handled[i] in s.handled;
      }
      assert Step(s, e).handled == s.handled + [s.index];
    }
  }

  lemma StepKeepsConsumer(s: State, e: Event)
    requires Inv(s) && Enabled(s, e)
    ensures ConsumerInv(Step(s, e))
  {
    hide ProducerInv, LogInv, TransitInv;
    match e
    case ConnectNew | ConnectAlready | ConnectFail | SendMsg | ReadAck => ProducerKeepsConsumer(s, e);
    case Accept | ReadMsg | Handle | SendAck | Crash | Restart =>
  }

  lemma ProducerKeepsConsumer(s: State, e: Event)
    requires ConsumerInv(s) && Enabled(s, e)
    requires e.ConnectNew? || e.ConnectAlready? || e.ConnectFail? || e.SendMsg? || e.ReadAck?
    ensures ConsumerInv(Step(s, e))
  {
  }

  lemma StepKeepsTransit(s: State, e: Event)
    requires Inv(s) && Enabled(s, e)
    ensures TransitInv(Step(s, e))
  {
    hide Inv, TransitInv, Step, Enabled;
    match e
    case ConnectNew | ConnectAlready | ConnectFail => ConnectKeepsTransit(s, e);
    case SendMsg | ReadAck => ExchangeKeepsTransit(s, e);
    case Accept | Handle | Crash | Restart => PlaceKeepsTransit(s, e);
    case ReadMsg | SendAck => AnswerKeepsTransit(s, e);
  }

  lemma ConnectKeepsTransit(s: State, e: Event)
    requires Inv(s) && Enabled(s, e) && (e.ConnectNew? || e.ConnectAlready? || e.ConnectFail?)
    ensures TransitInv(Step(s, e))
  {
  }

  lemma ExchangeKeepsTransit(s: State, e: Event)
    requires Inv(s) && Enabled(s, e) && (e.SendMsg? || e.ReadAck?)
    ensures TransitInv(Step(s, e))
  {
  }

  lemma PlaceKeepsTransit(s: State, e: Event)
    requires Inv(s) && Enabled(s, e) && (e.Accept? || e.Handle? || e.Crash? || e.Restart?)
    ensures TransitInv(Step(s, e))
  {
  }

  lemma AnswerKeepsTransit(s: State, e: Event)
    requires Inv(s) && Enabled(s, e) && (e.ReadMsg? || e.SendAck?)
    ensures TransitInv(Step(s, e))
  {
  }

  lemma StepKeepsInv(s: State, e: Event)
    requires Inv(s) && Enabled(s, e)
    ensures Inv(Step(s, e))
  {
    StepKeepsProducer(s, e);
    StepKeepsLog(s, e);
    StepKeepsConsumer(s, e);
    StepKeepsTransit(s, e);
  }

  /** The ids 1 to n. */
  function UpTo(n: nat): seq<nat> {
    seq(n, i => i + 1)
  }

  /** Without a crash a connection is closed by the consumer only after the producer closed it, and
    both logs are complete. */
  ghost predicate CrashFreeInv(s: State) {
    s.crashes == 0 ==>
      && (forall k :: 0 <= k < |s.conns| && s.conns[k].producerOpen ==> s.conns[k].consumerOpen)
      && s.acks == UpTo(|s.acks|)
      && s.handled == UpTo(if s.index in s.handled then |s.acks| + 1 else |s.acks|)
  }

  lemma StepKeepsCrashFree(s: State, e: Event)
    requires Inv(s) && CrashFreeInv(s) && Enabled(s, e)
    ensures CrashFreeInv(Step(s, e))
  {
    var s' := Step(s, e);
    if s'.crashes == 0 {
      if e == Handle {
        HeldIsCurrent(s);
        assert s'.handled == UpTo(s.index - 1) + [s.index] == UpTo(s.index);
      } else if e == ReadAck {
        var c := s.conns[s.conn.value];
        assert c.producerOpen && c.consumerOpen;
        assert Outstanding(s, c, s.conn.value);
        assert s'.acks == UpTo(s.index - 1) + [s.index] == UpTo(s.index);
      }
    }
  }

  lemma {:induction false} RunKeepsInv(s: State, events: seq<Event>)
    requires Inv(s) && CrashFreeInv(s) && IsRun(s, events)
    ensures Inv(Run(s, events)) && CrashFreeInv(Run(s, events))
    decreases |events|
  {
    if events == [] {
    } else {
      StepKeepsInv(s, events[0]);
      StepKeepsCrashFree(s, events[0]);
      RunKeepsInv(Step(s, events[0]), events[1..]);
    }
  }

  lemma InitInv()
    ensures Inv(INIT) && CrashFreeInv(INIT)
  {
    assert UpTo(0) == [];
  }

  // ---- Every run ----

  /** A message waits on connection `k` that the consumer can still read. */
  predicate Readable(s: State, k: int) {
    0 <= k < |s.conns| && s.conns[k].consumerOpen && s.conns[k].toConsumer != []
  }

  /** No two messages are with the consumer or on their way to it. */
  ghost predicate AtMostOneOutstanding(s: State) {
    && (forall k, l :: Readable(s, k) && Readable(s, l) ==> k == l)
    && (forall k :: Readable(s, k) ==> s.conns[k].toConsumer == [s.index] && s.index !in s.handled && !Holds(s))
  }

  /** At most once and in order, for every run with any crashes and reconnects: the handled ids rise,
    at most one message is outstanding and it is the current one, and the n-th answer the producer
    reads is n, and then message n was handled, or the 0 of a closed connection. */
  lemma AtMostOnceInOrder(events: seq<Event>)
    requires IsRun(INIT, events)
    ensures var s := Run(INIT, events);
      && Rising(s.handled)
      && AtMostOneOutstanding(s)
      && |s.acks| == s.index - 1
      && (forall i :: 0 <= i < |s.acks| ==> s.acks[i] == 0 || (s.acks[i] == i + 1 && i + 1 in s.handled))
  {
    InitInv();
    RunKeepsInv(INIT, events);
  }

  /** The consumer takes the hang-up branch only when the producer has closed the connection and
    nothing is left to read, and the producer reads a 0 only when the consumer's end is closed. */
  lemma ZeroMeansClosed(events: seq<Event>)
    requires IsRun(INIT, events)
    ensures var s := Run(INIT, events);
      && (Enabled(s, ReadMsg) && ReadFromSocket(s.conns[s.place.conn].toConsumer) == 0 ==>
        s.conns[s.place.conn].toConsumer == [] && !s.conns[s.place.conn].producerOpen)
      && (Enabled(s, ReadAck) && ReadFromSocket(s.conns[s.conn.value].toProducer) == 0 ==>
        s.conns[s.conn.value].toProducer == [] && !s.conns[s.conn.value].consumerOpen)
  {
    InitInv();
    RunKeepsInv(INIT, events);
    var s := Run(INIT, events);
    hide Run, Inv;
    if Enabled(s, ReadMsg) {
      HangUpMeansClosed(s);
    }
    if Enabled(s, ReadAck) {
      ZeroAckMeansClosed(s);
    }
  }

  lemma HangUpMeansClosed(s: State)
    requires Inv(s) && Enabled(s, ReadMsg)
    ensures var c := s.conns[s.place.conn];
      ReadFromSocket(c.toConsumer) == 0 ==> c.toConsumer == [] && !c.producerOpen
  {
  }

  lemma ZeroAckMeansClosed(s: State)
    requires Inv(s) && Enabled(s, ReadAck)
    ensures var c := s.conns[s.conn.value];
      ReadFromSocket(c.toProducer) == 0 ==> c.toProducer == [] && !c.consumerOpen
  {
  }

  /** The two processes never block each other: in every reachable state some step other than a crash
    or a failed connect is possible. */
  lemma NeverStuck(events: seq<Event>)
    requires IsRun(INIT, events)
    ensures exists e :: e != Crash && e != ConnectFail && Enabled(Run(INIT, events), e)
  {
    InitInv();
    RunKeepsInv(INIT, events);
    var e := SomeStep(Run(INIT, events));
  }

  lemma SomeStep(s: State) returns (e: Event)
    requires Inv(s)
    ensures e != Crash && e != ConnectFail && Enabled(s, e)
  {
    match s.place
    case Down => e := Restart;
    case Handling(_, _) => e := Handle;
    case Acking(_, _) => e := SendAck;
    case Accepting => e := if s.backlog != [] then Accept else ProducerStep(s);
    case Reading(k) =>
      if s.conn == Some(k) {
        e := if s.phase != Awaiting then ProducerStep(s) else if s.conns[k].toConsumer != [] then ReadMsg else ReadAck;
        assert s.conns[k].consumerOpen;
      } else {
        assert !s.conns[k].producerOpen;
        e := ReadMsg;
      }
  }

  function ProducerStep(s: State): Event {
    match s.phase
    case Connecting => if s.conn == None then ConnectNew else ConnectAlready
    case Sending => SendMsg
    case Awaiting => ReadAck
  }

  /** What the producer can read, and whether the end that could write more is open. */
  function AckAt(s: State): seq<nat> {
    if OnConn(s) then s.conns[s.conn.value].toProducer else []
  }

  predicate ConsumerOpenAt(s: State) {
    OnConn(s) && s.conns[s.conn.value].consumerOpen
  }

  /** What the consumer can read from the connection it serves, and whether its other end is open. */
  function MessageAt(s: State): seq<nat> {
    if s.place.Reading? && s.place.conn < |s.conns| then s.conns[s.place.conn].toConsumer else []
  }

  predicate ProducerOpenAt(s: State) {
    s.place.Reading? && s.place.conn < |s.conns| && s.conns[s.place.conn].producerOpen
  }

  lemma CanHappen(s: State)
    requires Inv(s)
    ensures
      && (Enabled(s, Crash) <==> s.place != Down)
      && (Enabled(s, Restart) <==> s.place == Down)
      && (Enabled(s, ConnectFail) <==> s.phase == Connecting)
      && (Enabled(s, ConnectAlready) <==> s.phase == Connecting && s.conn != None)
      && (Enabled(s, ConnectNew) <==> s.phase == Connecting && s.conn == None && s.place != Down && |s.backlog| < 10)
      && (Enabled(s, SendMsg) <==> s.phase == Sending)
      && (Enabled(s, Accept) <==> s.place == Accepting && s.backlog != [])
      && (Enabled(s, Handle) <==> s.place.Handling?)
      && (Enabled(s, SendAck) <==> s.place.Acking?)
      && (Enabled(s, ReadAck) <==> s.phase == Awaiting && (AckAt(s) != [] || !ConsumerOpenAt(s)))
      && (Enabled(s, ReadMsg) <==> s.place.Reading? && (MessageAt(s) != [] || !ProducerOpenAt(s)))
  {
    hide TransitInv, LogInv;
  }

  /** What can happen in a reachable state: the consumer can crash whenever it runs, a connect can fail
    whenever it is tried, reads wait for data or a closed peer, and everything else waits for nothing. */
  lemma WhatCanHappen(events: seq<Event>)
    requires IsRun(INIT, events)
    ensures var s := Run(INIT, events);
      && (Enabled(s, Crash) <==> s.place != Down)
      && (Enabled(s, Restart) <==> s.place == Down)
      && (Enabled(s, ConnectFail) <==> s.phase == Connecting)
      && (Enabled(s, ConnectAlready) <==> s.phase == Connecting && s.conn != None)
      && (Enabled(s, ConnectNew) <==> s.phase == Connecting && s.conn == None && s.place != Down && |s.backlog| < 10)
      && (Enabled(s, SendMsg) <==> s.phase == Sending)
      && (Enabled(s, Accept) <==> s.place == Accepting && s.backlog != [])
      && (Enabled(s, Handle) <==> s.place.Handling?)
      && (Enabled(s, SendAck) <==> s.place.Acking?)
      && (Enabled(s, ReadAck) <==> s.phase == Awaiting && (AckAt(s) != [] || !ConsumerOpenAt(s)))
      && (Enabled(s, ReadMsg) <==> s.place.Reading? && (MessageAt(s) != [] || !ProducerOpenAt(s)))
  {
    InitInv();
    RunKeepsInv(INIT, events);
    hide Run, Inv, Enabled, AckAt, MessageAt, ConsumerOpenAt, ProducerOpenAt;
    CanHappen(Run(INIT, events));
  }

  // ---- Runs without a crash ----

  /** Without a crash nothing is lost, however often the producer reconnects: the consumer has handled
    exactly 1 to n, and the producer has read the answers 1 to n or 1 to n - 1. */
  lemma CrashFreeExact(events: seq<Event>)
    requires IsRun(INIT, events) && Crash !in events
    ensures var s := Run(INIT, events);
      var n := |s.handled|;
      s.handled == UpTo(n) && (s.acks == UpTo(n) || (n > 0 && s.acks == UpTo(n - 1)))
  {
    InitInv();
    RunKeepsInv(INIT, events);
    NoCrashes(INIT, events);
  }

  lemma {:induction false} NoCrashes(s: State, events: seq<Event>)
    requires IsRun(s, events) && Crash !in events
    ensures Run(s, events).crashes == s.crashes
    decreases |events|
  {
    if events == [] {
    } else {
      assert events[0] in events && forall e <- events[1..] :: e in events;
      NoCrashes(Step(s, events[0]), events[1..]);
    }
  }

  // ---- What is answered ----

  /** A step that writes the acknowledgement of a message. */
  predicate Acknowledges(s: State, e: Event, id: nat) {
    e == SendAck && s.place.Acking? && s.place.id == id
  }

  /** Some step of a run writes the acknowledgement of a message. */
  ghost predicate Acknowledged(s: State, events: seq<Event>, id: nat)
    requires IsRun(s, events)
    decreases |events|
  {
    events != [] && (Acknowledges(s, events[0], id) || Acknowledged(Step(s, events[0]), events[1..], id))
  }

  /** The acknowledgement of the message the producer waits for is under way. */
  predicate AckUnderWay(s: State, id: nat) {
    s.phase == Awaiting && OnConn(s) && s.index == id && s.conns[s.conn.value].toProducer == [id]
  }

  lemma StepAnswers(s: State, e: Event, id: nat)
    requires Inv(s) && Enabled(s, e) && id >= s.index
    ensures var s' := Step(s, e);
      if e == ReadAck && id == s.index then
        |s'.acks| == id && !Acknowledges(s, e, id) && (s'.acks[id - 1] == id <==> AckUnderWay(s, id))
      else
        s'.index <= id && (AckUnderWay(s', id) <==> AckUnderWay(s, id) || Acknowledges(s, e, id))
  {
    match e
    case ConnectNew | ConnectAlready | ConnectFail =>
    case SendMsg =>
    case ReadAck =>
    case SendAck => HeldIsCurrent(s);
    case Accept | ReadMsg | Handle | Crash | Restart =>
  }

  lemma StepKeepsAnswers(s: State, e: Event)
    requires Enabled(s, e)
    ensures s.acks <= Step(s, e).acks && s.index <= Step(s, e).index
  {
  }

  lemma {:induction false} RunKeepsAnswers(s: State, events: seq<Event>)
    requires IsRun(s, events)
    ensures s.acks <= Run(s, events).acks
    decreases |events|
  {
    hide Step, Enabled;
    if events == [] {
    } else {
      StepKeepsAnswers(s, events[0]);
      RunKeepsAnswers(Step(s, events[0]), events[1..]);
    }
  }

  /** An id that is no longer current is never acknowledged again. */
  lemma {:induction false} AcknowledgesCurrent(s: State, events: seq<Event>, id: nat)
    requires Inv(s) && IsRun(s, events) && id < s.index
    ensures !Acknowledged(s, events, id)
    decreases |events|
  {
    hide Inv, Step, Enabled;
    if events == [] {
    } else {
      if Acknowledges(s, events[0], id) {
        HeldIsCurrent(s);
        assert false;
      }
      StepKeepsInv(s, events[0]);
      StepKeepsAnswers(s, events[0]);
      AcknowledgesCurrent(Step(s, events[0]), events[1..], id);
    }
  }

  lemma {:induction false} RunAnswers(s: State, events: seq<Event>, id: nat)
    requires Inv(s) && IsRun(s, events) && s.index <= id <= |Run(s, events).acks|
    ensures Run(s, events).acks[id - 1] == id <==> AckUnderWay(s, id) || Acknowledged(s, events, id)
    decreases |events|
  {
    hide Inv, Step, Enabled, AckUnderWay, Acknowledges;
    if events == [] {
      AnswersSoFar(s);
    } else {
      var e, s' := events[0], Step(s, events[0]);
      StepAnswers(s, e, id);
      StepKeepsInv(s, e);
      AnswersSoFar(s);
      if e == ReadAck && id == s.index {
        AnswersSoFar(s');
        AcknowledgesCurrent(s', events[1..], id);
        RunKeepsAnswers(s', events[1..]);
      } else {
        RunAnswers(s', events[1..], id);
      }
    }
  }

  lemma AnswersSoFar(s: State)
    requires Inv(s)
    ensures s.index >= 1 && |s.acks| == s.index - 1
  {
    hide LogInv, ConsumerInv, TransitInv;
  }

  /** What was acknowledged is read, crashes or not: the n-th answer is n if and only if some step of the
    run writes the acknowledgement of message n, and 0 otherwise. */
  lemma AcknowledgedIsRead(events: seq<Event>, n: nat)
    requires IsRun(INIT, events) && 1 <= n <= |Run(INIT, events).acks|
    ensures Run(INIT, events).acks[n - 1] == if Acknowledged(INIT, events, n) then n else 0
  {
    InitInv();
    AtMostOnceInOrder(events);
    RunAnswers(INIT, events, n);
  }

  // ---- Who is served ----

  /** Connections are accepted in the order in which they were made, and at most `LISTEN_BACKLOG` wait. */
  ghost predicate InTurn(s: State) {
    && |s.backlog| <= LISTEN_BACKLOG
    && (forall i, j :: 0 <= i < j < |s.backlog| ==> s.backlog[i] < s.backlog[j])
    && (Serving(s) ==> forall k <- s.backlog :: s.place.conn < k)
  }

  lemma StepKeepsTurn(s: State, e: Event)
    requires Inv(s) && InTurn(s) && Enabled(s, e)
    ensures InTurn(Step(s, e))
    ensures e == Accept ==> s.backlog != [] && Step(s, e).place == Reading(s.backlog[0])
  {
    hide ProducerInv, LogInv, TransitInv;
  }

  lemma {:induction false} RunKeepsTurn(s: State, events: seq<Event>)
    requires Inv(s) && InTurn(s) && IsRun(s, events)
    ensures InTurn(Run(s, events))
    decreases |events|
  {
    hide Inv, InTurn, Step, Enabled;
    if events == [] {
    } else {
      StepKeepsInv(s, events[0]);
      StepKeepsTurn(s, events[0]);
      RunKeepsTurn(Step(s, events[0]), events[1..]);
    }
  }

  /** In every run the connections that wait are in the order in which they were made, those before them
    have been served, and at most ten wait. */
  lemma ServedInTurn(events: seq<Event>)
    requires IsRun(INIT, events)
    ensures var s := Run(INIT, events);
      && |s.backlog| <= 10
      && (forall i, j :: 0 <= i < j < |s.backlog| ==> s.backlog[i] < s.backlog[j])
      && (Serving(s) ==> forall k <- s.backlog :: s.place.conn < k)
      && (Enabled(s, Accept) ==> forall k <- s.backlog :: Step(s, Accept).place.conn <= k)
  {
    InitInv();
    RunKeepsTurn(INIT, events);
  }

  // ---- What is lost ----

  /** The message sent last is under way to the consumer, or with it and not yet handled. */
  predicate Pending(s: State) {
    s.phase == Awaiting && OnConn(s) && s.conns[s.conn.value].consumerOpen && s.index !in s.handled
  }

  /** A step that loses a message: sending on a connection whose other end is closed, or a crash of the
    consumer while a message is pending. */
  predicate Drops(s: State, e: Event) {
    || (e == SendMsg && OnConn(s) && !s.conns[s.conn.value].consumerOpen)
    || (e == Crash && Pending(s))
  }

  /** How many steps of a run lose a message. */
  ghost function Dropped(s: State, events: seq<Event>): nat
    requires IsRun(s, events)
    decreases |events|
  {
    if events == [] then 0
    else (if Drops(s, events[0]) then 1 else 0) + Dropped(Step(s, events[0]), events[1..])
  }

  /** How many messages have been sent. */
  function Sent(s: State): int {
    s.index - 1 + if s.phase == Awaiting then 1 else 0
  }

  /** The messages sent that are neither in the log nor pending. */
  function Missing(s: State): int {
    Sent(s) - |s.handled| - if Pending(s) then 1 else 0
  }

  lemma StepMissing(s: State, e: Event)
    requires Inv(s) && Enabled(s, e)
    ensures Missing(Step(s, e)) == Missing(s) + if Drops(s, e) then 1 else 0
  {
    match e
    case Handle => HeldIsCurrent(s);
    case ReadMsg => HangUpMeansClosed(s);
    case _ =>
  }

  lemma {:induction false} RunMissing(s: State, events: seq<Event>)
    requires Inv(s) && IsRun(s, events)
    ensures Missing(Run(s, events)) == Missing(s) + Dropped(s, events)
    decreases |events|
  {
    hide Inv, Missing, Drops;
    if events == [] {
    } else {
      StepKeepsInv(s, events[0]);
      StepMissing(s, events[0]);
      RunMissing(Step(s, events[0]), events[1..]);
    }
  }

  /** Nothing appears or vanishes but by a step that loses it: in every run the messages sent are those
    handled, those lost, and the one that may be pending. */
  lemma EveryMessageAccounted(events: seq<Event>)
    requires IsRun(INIT, events)
    ensures var s := Run(INIT, events);
      |s.handled| + Dropped(INIT, events) + (if Pending(s) then 1 else 0) == Sent(s)
  {
    InitInv();
    RunMissing(INIT, events);
  }

  /** The message was handled or is still pending. */
  predicate Accounted(s: State, id: nat) {
    id in s.handled || (id == s.index && Pending(s))
  }

  /** Every message sent was handled or is still pending. */
  ghost predicate NoneLost(s: State) {
    forall id: nat :: 1 <= id <= Sent(s) ==> Accounted(s, id)
  }

  ghost predicate NoStepDrops(s: State, events: seq<Event>)
    requires IsRun(s, events)
    decreases |events|
  {
    events != [] ==> !Drops(s, events[0]) && NoStepDrops(Step(s, events[0]), events[1..])
  }

  lemma {:induction false} NoneDropped(s: State, events: seq<Event>)
    requires IsRun(s, events)
    ensures NoStepDrops(s, events) <==> Dropped(s, events) == 0
    decreases |events|
  {
    if events == [] {
    } else {
      NoneDropped(Step(s, events[0]), events[1..]);
    }
  }

  /** A run loses no message if and only if it never sends on a connection whose other end is closed and
    the consumer never crashes while a message is pending; other crashes do no harm. */
  lemma NoneLostIff(events: seq<Event>)
    requires IsRun(INIT, events)
    ensures NoneLost(Run(INIT, events)) <==> NoStepDrops(INIT, events)
  {
    var s := Run(INIT, events);
    InitInv();
    RunKeepsInv(INIT, events);
    EveryMessageAccounted(events);
    NoneDropped(INIT, events);
    hide Run, Dropped, NoStepDrops;
    LogComplete(s);
  }

  /** With a rising log up to the current id, none is lost exactly if the numbers add up. */
  lemma LogComplete(s: State)
    requires Inv(s)
    ensures NoneLost(s) <==> |s.handled| + (if Pending(s) then 1 else 0) == Sent(s)
  {
    hide ProducerInv, ConsumerInv, TransitInv, Pending;
    var log := if Pending(s) then s.handled + [s.index] else s.handled;
    PendingIsNew(s);
    Complete(log, Sent(s));
    assert forall id: nat :: Accounted(s, id) <==> id in log;
  }

  lemma PendingIsNew(s: State)
    requires Inv(s)
    ensures s.index >= 1
    ensures Pending(s) ==> s.phase == Awaiting && s.index !in s.handled
    ensures forall id <- s.handled :: 1 <= id <= Sent(s)
  {
    hide ConsumerInv, TransitInv;
  }

  lemma UpToElements(n: nat)
    ensures forall id: nat :: id in Elements(UpTo(n)) <==> 1 <= id <= n
    ensures |Elements(UpTo(n))| == n
  {
    DistinctCount(UpTo(n));
    forall id: nat ensures id in UpTo(n) <==> 1 <= id <= n {
      assert 1 <= id <= n ==> UpTo(n)[id - 1] == id;
    }
  }

  /** Different ids from 1 to n are all of them exactly if there are n. */
  lemma Complete(ids: seq<nat>, n: nat)
    requires NoDuplicates(ids) && forall id <- ids :: 1 <= id <= n
    ensures (forall id: nat :: 1 <= id <= n ==> id in ids) <==> |ids| == n
  {
    hide Elements, UpTo;
    DistinctCount(ids);
    UpToElements(n);
    var missing := Elements(UpTo(n)) - Elements(ids);
    assert Elements(UpTo(n)) == Elements(ids) + missing;
    assert |missing| == n - |ids|;
    assert (forall id: nat :: 1 <= id <= n ==> id in ids) <==> missing == {};
  }

  lemma RunCons(s: State, e: Event, rest: seq<Event>)
    requires Enabled(s, e) && IsRun(Step(s, e), rest)
    ensures IsRun(s, [e] + rest) && Run(s, [e] + rest) == Run(Step(s, e), rest)
  {
    assert ([e] + rest)[1..] == rest;
  }

  lemma CrashRun()
    ensures var events := [Restart, ConnectNew, SendMsg, Crash, ReadAck];
      && IsRun(INIT, events)
      && var s := Run(INIT, events);
        s.acks == [0] && s.index == 2 && s.handled == [] && s.phase == Connecting
  {
    var s1 := Step(INIT, Restart);
    var s2 := Step(s1, ConnectNew);
    var s3 := Step(s2, SendMsg);
    var s4 := Step(s3, Crash);
    RunCons(s4, ReadAck, []);
    RunCons(s3, Crash, [ReadAck]);
    RunCons(s2, SendMsg, [Crash, ReadAck]);
    RunCons(s1, ConnectNew, [SendMsg, Crash, ReadAck]);
    RunCons(INIT, Restart, [ConnectNew, SendMsg, Crash, ReadAck]);
  }

  /** A crash while the first message is pending: it was not handled and no longer is pending, and the
    producer goes on with the next id whatever it read. */
  lemma CrashLosesMessage()
    ensures var events := [Restart, ConnectNew, SendMsg, Crash, ReadAck];
      && IsRun(INIT, events)
      && Dropped(INIT, events) == 1
      && var s := Run(INIT, events); s.acks == [0] && s.index == 2 && s.handled == [] && !NoneLost(s)
  {
    hide IsRun, Run, Dropped, Step;
    CrashRun();
    var events := [Restart, ConnectNew, SendMsg, Crash, ReadAck];
    EveryMessageAccounted(events);
    assert !Accounted(Run(INIT, events), 1);
  }
}
