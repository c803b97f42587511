/** The reply path as interleaved steps: the server's send calls, the client's `recv` calls, and a
  connection that may be cut after any byte. */
module BulkSteps {
  import opened Bytes
  import opened Frames
  import opened BulkSplit
  import opened BulkStream
  import opened Reply

  /** Where the receiver is: collecting a header, collecting a payload, past the last frame, or
    stopped by a closed connection. */
  datatype Rx = Header(got: Buf) | Body(size: U32, flags: U32, got: Buf) | Done | Lost

  /** `unsent` are the send calls still to come and `inFlight` the bytes between the two ends. */
  datatype State = State(unsent: seq<Buf>, inFlight: Buf, cut: bool, rx: Rx, consumed: seq<Frame>)

  /** A send call, a `recv` that gives `n` bytes, a `recv` that finds the connection closed, and a
    cut that lets only the first `kept` of the bytes in flight through. A server that closes the
    socket after its last send is a cut that keeps everything. */
  datatype Event = SendCall | RecvCall(n: nat) | RecvEof | Cut(kept: nat)

  function Init(fs: seq<Frame>, max: nat): State
    requires AllFit(fs) && max > 0
  {
    State(Wire(fs, max), [], false, Header([]), [])
  }

  /** How many bytes the receiver's next `recv` asks for. */
  function Asked(rx: Rx, max: nat): nat {
    match rx
    case Header(got) => if |got| < HEADER_SIZE then HEADER_SIZE - |got| else 0
    case Body(size, _, got) => if |got| < size then Min(size - |got|, max) else 0
    case _ => 0
  }

  predicate Enabled(s: State, e: Event, max: nat) {
    match e
    case SendCall => s.unsent != [] && !s.cut
    case RecvCall(n) => 1 <= n <= Min(Asked(s.rx, max), |s.inFlight|)
    case RecvEof => (s.rx.Header? || s.rx.Body?) && s.inFlight == [] && s.cut
    case Cut(kept) => !s.cut && kept <= |s.inFlight|
  }

  /** The receiver's own work once bytes have come: decode a full header, hand over a full frame,
    and start the next one if this one carries MSG_CONT. */
  function Settle(rx: Rx): (Rx, Option<Frame>) {
    match rx
    case Header(got) =>
      if |got| == HEADER_SIZE then SettleBody(NToHl(got[..4]), NToHl(got[4..8]), []) else (rx, None)
    case Body(size, flags, got) => SettleBody(size, flags, got)
    case _ => (rx, None)
  }

  function SettleBody(size: U32, flags: U32, got: Buf): (Rx, Option<Frame>) {
    if |got| == size then (if HasCont(flags) then Header([]) else Done, Some(Frame(flags, got)))
    else (Body(size, flags, got), None)
  }

  function More(rx: Rx, bytes: Buf): Rx
    requires rx.Header? || rx.Body?
  {
    rx.(got := rx.got + bytes)
  }

  function Step(s: State, e: Event, max: nat): State
    requires Enabled(s, e, max)
  {
    match e
    case SendCall => s.(unsent := s.unsent[1..], inFlight := s.inFlight + s.unsent[0])
    case RecvCall(n) =>
      var (rx, frame) := Settle(More(s.rx, s.inFlight[..n]));
      s.(inFlight := s.inFlight[n..], rx := rx,
         consumed := if frame == None then s.consumed else s.consumed + [frame.value])
    case RecvEof => s.(rx := Lost)
    case Cut(kept) => s.(cut := true, unsent := [], inFlight := s.inFlight[..kept])
  }

  ghost predicate IsRun(s: State, events: seq<Event>, max: nat)
    decreases |events|
  {
    events != [] ==> Enabled(s, events[0], max) && IsRun(Step(s, events[0], max), events[1..], max)
  }

  function Run(s: State, events: seq<Event>, max: nat): State
    requires IsRun(s, events, max)
    decreases |events|
  {
    if events == [] then s else Run(Step(s, events[0], max), events[1..], max)
  }

  // ---- Safety ----

  /** The bytes of the frame being read that the receiver holds. */
  function Held(rx: Rx): Buf {
    match rx
    case Header(got) => got
    case Body(size, flags, got) => HToNl(size) + HToNl(flags) + got
    case _ => []
  }

  ghost predicate Settled(rx: Rx) {
    match rx
    case Header(got) => |got| < HEADER_SIZE
    case Body(size, _, got) => |got| < size
    case _ => true
  }

  function OnTheWay(s: State): Buf {
    Held(s.rx) + s.inFlight + Concat(s.unsent)
  }

  ghost predicate Remains(consumed: seq<Frame>, cut: bool, way: Buf, fs: seq<Frame>)
    requires AllFit(fs)
  {
    && consumed <= fs
    && var rest := Stream(fs[|consumed|..]);
      if cut then way <= rest else way == rest
  }

  /** What was consumed is an initial part of the frames, and what the receiver holds, what is in
    flight and what is still to be sent make up the rest of the stream, or, after a cut, the front
    of that rest. */
  ghost predicate Inv(s: State, fs: seq<Frame>)
    requires AllFit(fs)
  {
    && s.consumed <= fs
    && (!s.rx.Lost? ==> Remains(s.consumed, s.cut, OnTheWay(s), fs))
    && Settled(s.rx)
    && (s.cut ==> s.unsent == [])
    && (s.rx.Done? <==> s.consumed == fs)
    && (s.rx.Lost? ==> s.cut)
  }

  lemma InitInv(fs: seq<Frame>, max: nat)
    requires AllFit(fs) && Terminated(fs) && max > 0
    ensures Inv(Init(fs, max), fs)
  {
    WireIsStream(fs, max);
    assert fs[0..] == fs;
  }

  /** The receiver's own work keeps the bytes: those of a frame it hands over, then those it still
    holds. */
  lemma SettleKeepsBytes(rx: Rx)
    requires (rx.Header? && |rx.got| <= HEADER_SIZE) || (rx.Body? && |rx.got| <= rx.size)
    ensures var (rx', frame) := Settle(rx);
      && Settled(rx') && !rx'.Lost?
      && (frame.Some? ==> Fits(frame.value))
      && Held(rx) == (if frame.Some? then Encode(frame.value) else []) + Held(rx')
      && (frame.Some? ==> Held(rx') == [])
      && (rx'.Done? <==> frame.Some? && !HasCont(frame.value.flags))
  {
    if rx.Header? && |rx.got| == HEADER_SIZE {
      NetworkOfHost(rx.got[..4]);
      NetworkOfHost(rx.got[4..8]);
      assert rx.got == rx.got[..4] + rx.got[4..8] + [];
    }
  }

  /** The frame handed over is the next one of the stream. */
  lemma HandOver(f: Frame, later: Buf, fs: seq<Frame>, lost: Buf)
    requires Fits(f) && AllFit(fs) && Encode(f) + later + lost == Stream(fs)
    ensures fs != [] && f == fs[0] && later + lost == Stream(fs[1..])
  {
    assert Stream(fs) == Encode(f) + (later + lost);
    DecodeEncode(f, later + lost);
    DecodeEncode(fs[0], Stream(fs[1..]));
  }

  lemma HeldMore(rx: Rx, bytes: Buf)
    requires rx.Header? || rx.Body?
    ensures Held(More(rx, bytes)) == Held(rx) + bytes
  {
  }

  lemma Regroup(held: Buf, a: Buf, b: Buf, later: Buf, done: Buf, held': Buf)
    requires held + a == done + held'
    ensures held + (a + b) + later == done + (held' + b + later)
  {
    assert held + (a + b) + later == held + a + (b + later);
    assert done + (held' + b + later) == done + held' + (b + later);
  }

  /** The frame a `recv` completes is the next one of the reply. */
  lemma NextFrame(consumed: seq<Frame>, cut: bool, way: Buf, f: Frame, way': Buf, fs: seq<Frame>)
    requires AllFit(fs) && Terminated(fs) && Fits(f)
    requires way == Encode(f) + way' && Remains(consumed, cut, way, fs)
    ensures Remains(consumed + [f], cut, way', fs) && consumed + [f] <= fs
    ensures consumed + [f] == fs <==> !HasCont(f.flags)
  {
    var k := |consumed|;
    var lost := Stream(fs[k..])[|way|..];
    assert way + lost == Stream(fs[k..]);
    HandOver(f, way', fs[k..], lost);
    assert fs[k..][1..] == fs[k + 1..] && fs[k..][0] == fs[k];
    assert consumed + [f] == fs[..k + 1];
  }

  /** A `recv` and the work it causes keep the bytes of the reply: those of a frame that is handed over
    come first. */
  lemma RecvKeepsBytes(s: State, n: nat, max: nat)
    requires Settled(s.rx) && Enabled(s, RecvCall(n), max)
    ensures var (rx', frame) := Settle(More(s.rx, s.inFlight[..n]));
      && Settled(rx') && !rx'.Lost?
      && (frame.Some? ==> Fits(frame.value))
      && (rx'.Done? <==> frame.Some? && !HasCont(frame.value.flags))
      && OnTheWay(s) == (if frame.Some? then Encode(frame.value) else []) +
        (Held(rx') + s.inFlight[n..] + Concat(s.unsent))
  {
    hide Settle, Held, Encode, Concat, HasCont;
    var a, b := s.inFlight[..n], s.inFlight[n..];
    SettleKeepsBytes(More(s.rx, a));
    HeldMore(s.rx, a);
    assert s.inFlight == a + b;
    var (rx', frame) := Settle(More(s.rx, a));
    Regroup(Held(s.rx), a, b, Concat(s.unsent), if frame.Some? then Encode(frame.value) else [], Held(rx'));
  }

  lemma RecvKeepsInv(s: State, n: nat, fs: seq<Frame>, max: nat)
    requires AllFit(fs) && Terminated(fs)
    requires Inv(s, fs) && Enabled(s, RecvCall(n), max)
    ensures Inv(Step(s, RecvCall(n), max), fs)
  {
    hide Settle, Held, Encode, Concat, HasCont, Settled, Remains, Terminated, AllFit;
    RecvKeepsBytes(s, n, max);
    var (rx', frame) := Settle(More(s.rx, s.inFlight[..n]));
    var way := Held(rx') + s.inFlight[n..] + Concat(s.unsent);
    if frame.Some? {
      NextFrame(s.consumed, s.cut, OnTheWay(s), frame.value, way, fs);
    } else {
      assert [] + way == way;
    }
  }

  lemma SendKeepsInv(s: State, fs: seq<Frame>, max: nat)
    requires AllFit(fs) && Inv(s, fs) && Enabled(s, SendCall, max)
    ensures Inv(Step(s, SendCall, max), fs)
  {
    hide Held, Settled, Remains;
    var now := s.inFlight + s.unsent[0];
    assert s.inFlight + Concat(s.unsent) == now + Concat(s.unsent[1..]);
    assert OnTheWay(s) == Held(s.rx) + (s.inFlight + Concat(s.unsent));
    assert Held(s.rx) + now + Concat(s.unsent[1..]) == Held(s.rx) + (now + Concat(s.unsent[1..]));
  }

  lemma EofKeepsInv(s: State, fs: seq<Frame>, max: nat)
    requires AllFit(fs) && Inv(s, fs) && Enabled(s, RecvEof, max)
    ensures Inv(Step(s, RecvEof, max), fs)
  {
  }

  lemma CutKeepsInv(s: State, kept: nat, fs: seq<Frame>, max: nat)
    requires AllFit(fs) && Inv(s, fs) && Enabled(s, Cut(kept), max)
    ensures Inv(Step(s, Cut(kept), max), fs)
  {
    hide Held, Settled;
    var all, now := OnTheWay(s), Held(s.rx) + s.inFlight[..kept] + [];
    assert now == all[..|now|];
  }

  lemma StepKeepsInv(s: State, e: Event, fs: seq<Frame>, max: nat)
    requires AllFit(fs) && Terminated(fs) && max > 0
    requires Inv(s, fs) && Enabled(s, e, max)
    ensures Inv(Step(s, e, max), fs)
  {
    hide Inv, Step, Enabled, Terminated, AllFit;
    match e
    case SendCall => SendKeepsInv(s, fs, max);
    case RecvCall(n) => RecvKeepsInv(s, n, fs, max);
    case RecvEof => EofKeepsInv(s, fs, max);
    case Cut(kept) => CutKeepsInv(s, kept, fs, max);
  }

  lemma {:induction false} RunKeepsInv(s: State, events: seq<Event>, fs: seq<Frame>, max: nat)
    requires AllFit(fs) && Terminated(fs) && max > 0
    requires Inv(s, fs) && IsRun(s, events, max)
    ensures Inv(Run(s, events, max), fs)
    decreases |events|
  {
    if events == [] {
    } else {
      StepKeepsInv(s, events[0], fs, max);
      RunKeepsInv(Step(s, events[0], max), events[1..], fs, max);
    }
  }

  /** Prefix safety, in every interleaving and with the connection cut after any byte: the consumed
    frames are whole frames of the reply, in order from the first, and the receiver takes the reply
    to be over exactly when it has consumed all of it. Nothing of the reply is then left unread. */
  lemma PrefixSafety(fs: seq<Frame>, events: seq<Event>, max: nat)
    requires AllFit(fs) && Terminated(fs) && max > 0 && IsRun(Init(fs, max), events, max)
    ensures var s := Run(Init(fs, max), events, max);
      && s.consumed <= fs
      && (s.rx.Done? <==> s.consumed == fs)
      && (s.rx.Done? ==> s.inFlight == [] && Concat(s.unsent) == [])
  {
    InitInv(fs, max);
    RunKeepsInv(Init(fs, max), events, fs, max);
    assert fs[|fs|..] == [];
  }

  // ---- Progress ----

  /** Steps left: each send call adds its bytes, which are then received. */
  function Work(s: State): nat {
    |s.unsent| + |Concat(s.unsent)| + |s.inFlight|
    + (if s.cut then 0 else 1)
    + (if s.rx.Lost? || s.rx.Done? then 0 else 1)
  }

  lemma StepWorks(s: State, e: Event, max: nat)
    requires Enabled(s, e, max) && max > 0
    ensures Work(Step(s, e, max)) < Work(s)
  {
  }

  /** Every run is finite, with a bound known from the reply alone. */
  lemma {:induction false} RunsAreFinite(s: State, events: seq<Event>, max: nat)
    requires max > 0 && IsRun(s, events, max)
    ensures |events| + Work(Run(s, events, max)) <= Work(s)
    decreases |events|
  {
    if events == [] {
    } else {
      StepWorks(s, events[0], max);
      RunsAreFinite(Step(s, events[0], max), events[1..], max);
    }
  }

  ghost predicate Stuck(s: State, max: nat) {
    forall e :: Enabled(s, e, max) ==> e.Cut?
  }

  /** A run that nothing but a cut could continue has delivered the whole reply, or was cut and the
    receiver knows it. With `RunsAreFinite`: without a cut, every way of scheduling the two ends
    delivers the whole reply. */
  lemma StuckIsOver(fs: seq<Frame>, events: seq<Event>, max: nat)
    requires AllFit(fs) && Terminated(fs) && max > 0 && IsRun(Init(fs, max), events, max)
    requires Stuck(Run(Init(fs, max), events, max), max)
    ensures var s := Run(Init(fs, max), events, max);
      && (s.rx.Done? || s.rx.Lost?)
      && (!s.cut ==> s.rx.Done? && s.consumed == fs)
  {
    var s := Run(Init(fs, max), events, max);
    InitInv(fs, max);
    RunKeepsInv(Init(fs, max), events, fs, max);
    if s.rx.Header? || s.rx.Body? {
      assert !Enabled(s, RecvCall(1), max);
      assert Asked(s.rx, max) >= 1;
      assert s.inFlight == [];
      assert !Enabled(s, RecvEof, max);
      assert !Enabled(s, SendCall, max);
      NotOver(s, fs);
    }
  }

  /** What a receiver holds in the middle of a frame is not a whole frame. */
  lemma HoldsLess(rx: Rx, f: Frame, later: Buf)
    requires (rx.Header? || rx.Body?) && Settled(rx) && Fits(f)
    ensures Held(rx) != Encode(f) + later
  {
    hide NToHl, HToNl;
    if rx.Body? && Held(rx) == Encode(f) + later {
      assert Held(rx)[..4] == HToNl(rx.size) && (Encode(f) + later)[..4] == HToNl(|f.payload|);
      HostOfNetwork(rx.size);
      HostOfNetwork(|f.payload|);
    }
  }

  /** A receiver that has not finished and holds all there is has not been sent everything. */
  lemma NotOver(s: State, fs: seq<Frame>)
    requires AllFit(fs) && Inv(s, fs) && !s.cut && s.inFlight == [] && s.unsent == []
    ensures s.rx.Done?
  {
    hide Held, Settled, Encode;
    if !s.rx.Done? {
      var rest := fs[|s.consumed|..];
      assert rest != [];
      assert Held(s.rx) == Held(s.rx) + [] + Concat(s.unsent);
      HoldsLess(s.rx, rest[0], Stream(rest[1..]));
      assert false;
    }
  }

  // ---- What arrives ----

  /** What the steps so far say: how many sends were made, how many bytes were received, and, after a cut,
    how many bytes get through in all. */
  datatype Tally = Tally(sends: nat, taken: nat, limit: Option<nat>)

  function Count(t: Tally, events: seq<Event>): Tally
    decreases |events|
  {
    if events == [] then t
    else
      var t' :=
        match events[0]
        case SendCall => t.(sends := t.sends + 1)
        case RecvCall(n) => t.(taken := t.taken + n)
        case RecvEof => t
        case Cut(kept) => t.(limit := Some(t.taken + kept));
      Count(t', events[1..])
  }

  /** The bytes of the sends that were made. */
  function SentBytes(wire: seq<Buf>, n: nat): Buf
    requires n <= |wire|
  {
    Concat(wire[..n])
  }

  /** In flight are the bytes sent, up to where the connection was cut, and not yet received; consumed are
    the frames parsed from the bytes received. */
  ghost predicate Arrived(s: State, t: Tally, wire: seq<Buf>) {
    && t.sends <= |wire|
    && (s.cut <==> t.limit.Some?)
    && (!s.cut ==> s.unsent == wire[t.sends..])
    && (s.rx.Lost? ==> s.cut && s.inFlight == [])
    && Within(s, t, SentBytes(wire, t.sends))
  }

  ghost predicate Within(s: State, t: Tally, sent: Buf) {
    var end := if t.limit.Some? then t.limit.value else |sent|;
    && t.taken <= end <= |sent|
    && s.inFlight == sent[t.taken..end]
    && Reads(s, sent[..t.taken])
  }

  /** What the receiver has consumed and holds is what parsing the bytes it received gives. */
  ghost predicate Reads(s: State, received: Buf) {
    var p := ParseStream(received);
    && p.frames == s.consumed
    && (s.rx.Done? <==> p.done)
    && (!p.done && !s.rx.Lost? ==> p.rest == Held(s.rx))
    && Settled(s.rx)
  }

  lemma StillReads(s: State, s': State, received: Buf)
    requires Reads(s, received) && s'.rx == s.rx && s'.consumed == s.consumed
    ensures Reads(s', received)
  {
  }

  lemma OneChunk(b: Buf)
    ensures Concat([b]) == b
  {
    assert [b][1..] == [];
  }

  lemma SendArrives(s: State, t: Tally, wire: seq<Buf>, max: nat)
    requires Arrived(s, t, wire) && Enabled(s, SendCall, max)
    ensures Arrived(Step(s, SendCall, max), t.(sends := t.sends + 1), wire)
  {
    hide Reads;
    var n := t.sends;
    assert wire[n..][0] == wire[n] && wire[n..][1..] == wire[n + 1..] && wire[..n + 1] == wire[..n] + [wire[n]];
    ConcatAppend(wire[..n], [wire[n]]);
    OneChunk(wire[n]);
    var sent := SentBytes(wire, n);
    assert (sent + wire[n])[..t.taken] == sent[..t.taken];
    assert (sent + wire[n])[t.taken..] == sent[t.taken..] + wire[n];
    StillReads(s, Step(s, SendCall, max), sent[..t.taken]);
  }

  lemma HeldIncomplete(rx: Rx)
    requires (rx.Header? || rx.Body?) && Settled(rx)
    ensures ParseStream(Held(rx)) == Parsed([], false, Held(rx))
  {
    if rx.Body? {
      assert Held(rx)[..4] == HToNl(rx.size);
      HostOfNetwork(rx.size);
    }
  }

  lemma OneFrame(f: Frame)
    requires Fits(f)
    ensures ParseStream(Encode(f)) == Parsed([f], !HasCont(f.flags), [])
  {
    hide Decode, HasCont;
    DecodeEncode(f, []);
    assert Encode(f) + [] == Encode(f);
    NoFrame();
  }

  lemma NoFrame()
    ensures ParseStream([]) == Parsed([], false, [])
  {
  }

  /** A `recv` hands over the frame that parsing one more piece gives, if it gives one. */
  lemma RecvReads(s: State, n: nat, received: Buf, max: nat)
    requires Reads(s, received) && Enabled(s, RecvCall(n), max)
    ensures Reads(Step(s, RecvCall(n), max), received + s.inFlight[..n]) && !Step(s, RecvCall(n), max).rx.Lost?
  {
    hide Held, Settled, Encode, ParseStream, HasCont, Settle;
    var a := s.inFlight[..n];
    ReadyFor(s.rx, n, max, a);
    var (rx', frame) := Settle(More(s.rx, a));
    SettleKeepsBytes(More(s.rx, a));
    HeldMore(s.rx, a);
    ParseResumes(received, a);
    if frame.Some? {
      OneFrame(frame.value);
      assert Encode(frame.value) + [] == Encode(frame.value);
    } else {
      assert [] + Held(rx') == Held(rx');
      HeldIncomplete(rx');
    }
  }

  lemma ReadyFor(rx: Rx, n: nat, max: nat, a: Buf)
    requires Settled(rx) && 1 <= n <= Asked(rx, max) && |a| == n
    ensures rx.Header? || rx.Body?
    ensures var now := More(rx, a);
      (now.Header? && |now.got| <= HEADER_SIZE) || (now.Body? && |now.got| <= now.size)
  {
  }

  lemma NextPiece(b: Buf, from: nat, end: nat, n: nat)
    requires from + n <= end <= |b|
    ensures b[from..end][n..] == b[from + n..end]
    ensures b[..from + n] == b[..from] + b[from..end][..n]
  {
  }

  lemma RecvWithin(s: State, t: Tally, sent: Buf, n: nat, max: nat)
    requires Within(s, t, sent) && Enabled(s, RecvCall(n), max)
    ensures Within(Step(s, RecvCall(n), max), t.(taken := t.taken + n), sent)
    ensures !Step(s, RecvCall(n), max).rx.Lost?
  {
    hide Reads, Settle, More, Asked;
    RecvReads(s, n, sent[..t.taken], max);
    NextPiece(sent, t.taken, t.taken + |s.inFlight|, n);
  }

  lemma RecvArrives(s: State, t: Tally, wire: seq<Buf>, n: nat, max: nat)
    requires Arrived(s, t, wire) && Enabled(s, RecvCall(n), max)
    ensures Arrived(Step(s, RecvCall(n), max), t.(taken := t.taken + n), wire)
  {
    hide Within, Settle, More, Asked;
    RecvWithin(s, t, SentBytes(wire, t.sends), n, max);
  }

  lemma CutArrives(s: State, t: Tally, wire: seq<Buf>, kept: nat, max: nat)
    requires Arrived(s, t, wire) && Enabled(s, Cut(kept), max)
    ensures Arrived(Step(s, Cut(kept), max), t.(limit := Some(t.taken + kept)), wire)
  {
    hide Reads, Concat;
    StillReads(s, Step(s, Cut(kept), max), SentBytes(wire, t.sends)[..t.taken]);
  }

  lemma EofArrives(s: State, t: Tally, wire: seq<Buf>, max: nat)
    requires Arrived(s, t, wire) && Enabled(s, RecvEof, max)
    ensures Arrived(Step(s, RecvEof, max), t, wire)
  {
    hide Concat, ParseStream;
  }

  lemma {:induction false} RunArrives(s: State, t: Tally, events: seq<Event>, wire: seq<Buf>, max: nat)
    requires Arrived(s, t, wire) && IsRun(s, events, max)
    ensures Arrived(Run(s, events, max), Count(t, events), wire)
    decreases |events|
  {
    hide Arrived, Step, Enabled;
    if events == [] {
    } else {
      var e, s' := events[0], Step(s, events[0], max);
      match e
      case SendCall =>
        SendArrives(s, t, wire, max);
        RunArrives(s', t.(sends := t.sends + 1), events[1..], wire, max);
      case RecvCall(n) =>
        RecvArrives(s, t, wire, n, max);
        RunArrives(s', t.(taken := t.taken + n), events[1..], wire, max);
      case RecvEof =>
        EofArrives(s, t, wire, max);
        RunArrives(s', t, events[1..], wire, max);
      case Cut(kept) =>
        CutArrives(s, t, wire, kept, max);
        RunArrives(s', t.(limit := Some(t.taken + kept)), events[1..], wire, max);
    }
  }

  /** In every interleaving, cut after any byte: the frames consumed are those parsed from the bytes
    received, in flight are the bytes sent, up to the cut, and not yet received, and a receiver that gives
    up has received every byte that got through. */
  lemma RunIsParse(fs: seq<Frame>, events: seq<Event>, max: nat)
    requires AllFit(fs) && max > 0 && IsRun(Init(fs, max), events, max)
    ensures var s, t, wire := Run(Init(fs, max), events, max), Count(Tally(0, 0, None), events), Wire(fs, max);
      && t.sends <= |wire|
      && var sent := Concat(wire[..t.sends]);
        var end := if t.limit == None then |sent| else t.limit.value;
        && t.taken <= end <= |sent|
        && s.inFlight == sent[t.taken..end]
        && s.consumed == ParseStream(sent[..t.taken]).frames
        && (s.rx.Done? <==> ParseStream(sent[..t.taken]).done)
        && (s.rx.Lost? ==> t.taken == end)
  {
    var s0 := Init(fs, max);
    assert s0.unsent[0..] == s0.unsent;
    NoFrame();
    assert Arrived(s0, Tally(0, 0, None), Wire(fs, max));
    RunArrives(s0, Tally(0, 0, None), events, Wire(fs, max), max);
    hide Run, Count, Wire, ParseStream;
  }

  /** How many bytes of a frame are missing that is held up to here, in the header or, at most `max`, in the
    payload that the header announces. */
  function Missing(held: Buf, max: nat): int {
    if |held| < 8 then 8 - |held|
    else
      var left := NToHl(held[..4]) + 8 - |held|;
      if left < max then left else max
  }

  /** A `recv` may give any number of the bytes in flight, up to the missing ones. */
  lemma RecvAsks(s: State, n: nat, max: nat)
    requires (s.rx.Header? || s.rx.Body?) && Settled(s.rx)
    ensures Enabled(s, RecvCall(n), max) <==> 1 <= n <= |s.inFlight| && n <= Missing(Held(s.rx), max)
  {
    hide NToHl, HToNl;
    if s.rx.Body? {
      assert Held(s.rx)[..4] == HToNl(s.rx.size);
      HostOfNetwork(s.rx.size);
    }
  }

  // ---- Rows ----

  /** In every interleaving, with the connection cut after any byte, the client shows an initial part
    of the result set, bulk by bulk, and all of it exactly when it takes the reply to be over. */
  lemma RowsSafety(codec: Codec, rows: seq<Row>, limit: nat, events: seq<Event>, max: nat, default: Kind)
    requires Lossless(codec) && limit > 0 && max > 0 && rows != [] && CanSend(codec, ReplyMessages(rows, limit))
    requires IsRun(Init(FramesOf(codec, ReplyMessages(rows, limit)), max), events, max)
    ensures var s := Run(Init(FramesOf(codec, ReplyMessages(rows, limit)), max), events, max);
      var d := Consume(codec, Parsed(s.consumed, s.rx.Done?, []));
      && d.ms <= ReplyMessages(rows, limit) && |d.ms| == |s.consumed|
      && ShownAll(d.ms, default).Some? && ShownAll(d.ms, default).value <= rows
      && (s.rx.Done? <==> d.end == Finished)
      && (s.rx.Done? ==> ShownAll(d.ms, default) == Some(rows))
  {
    var ms := ReplyMessages(rows, limit);
    var fs := FramesOf(codec, ms);
    var s := Run(Init(fs, max), events, max);
    FramesTerminated(codec, ms);
    PrefixSafety(fs, events, max);
    assert s.consumed == fs[..|s.consumed|];
    ConsumeFrames(codec, ms, |s.consumed|, s.rx.Done?, []);
    ShownPart(rows, limit, ms[..|s.consumed|], default);
    if s.rx.Done? {
      EndToEnd(codec, rows, limit, [], default);
      assert ms[..|ms|] == ms;
    }
  }
}
