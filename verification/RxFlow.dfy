/**
  Receive flow control of an established server connection in libwebsockets: a callback
  may pause reception at any byte, what was read but not parsed is stashed, and a later
  service call drains the stash (libwebsocket_interpret_incoming_packet in parsers.c,
  libwebsocket_service_fd in service.c, _libwebsocket_rx_flow_control in server.c,
  libwebsocket_rx_flow_control and user_callback_handle_rxflow in libwebsockets.c).
*/
module RxFlow {
  import opened Bytes

  // rxflow_buffer, rxflow_len and rxflow_pos
  datatype Stash = NoStash | Stash(data: seq<byte>, pos: nat)

  // allow and pending are the two bits of rxflow_change_to; pollin and pollout those of
  // the descriptor's event mask.  received and parsed record what the socket delivered
  // and what libwebsocket_rx_sm was given.
  datatype Flow = Flow(open: bool, allow: bool, pending: bool, stash: Stash, pollin: bool, pollout: bool,
                       received: seq<byte>, parsed: seq<byte>)

  // What parsing one byte does: nothing visible, a protocol error, or a user callback
  // that makes these rx_flow_control requests and returns ret.
  datatype Reaction = Quiet | Fails | Calls(requests: seq<bool>, ret: int)

  // The POLLOUT event of a service call, and what recv gives.
  datatype Writeable = NotReady | FlushOnly | Notify(requests: seq<bool>, ret: int)
  datatype Recv = Data(bytes: seq<byte>) | Again | Error

  // AskWriteable: libwebsocket_callback_on_writable, called between service calls (a callback
  // that calls it has the same effect once it returns).
  datatype Act =
    | Outside(enable: bool)
    | AskWriteable
    | Service(out: Writeable, readable: bool, recv: Recv, reactions: seq<Reaction>)

  const OPENED := Flow(true, true, false, NoStash, true, false, [], [])

  /** libwebsocket_rx_flow_control */
  function Request(s: Flow, enable: bool): Flow {
    if enable == s.allow then s else s.(pending := true, allow := enable)
  }

  function Requests(s: Flow, requests: seq<bool>): Flow
    decreases |requests|
  {
    if requests == [] then s else Requests(Request(s, requests[0]), requests[1..])
  }

  lemma {:induction false} RequestsStash(s: Flow, requests: seq<bool>)
    ensures var s1 := Requests(s, requests); s1 == s.(allow := s1.allow, pending := s1.pending)
    decreases |requests|
  {
    if requests != [] { RequestsStash(Request(s, requests[0]), requests[1..]); }
  }

  /** _libwebsocket_rx_flow_control */
  function Apply(s: Flow): Flow {
    if !s.pending then s
    else if s.stash.Stash? then s.(pollout := true)
    else s.(pending := false, pollin := s.allow)
  }

  /** user_callback_handle_rxflow: requests only take effect when the callback returns 0. */
  function Callback(s: Flow, requests: seq<bool>, ret: int): Flow {
    if ret == 0 then Apply(Requests(s, requests)) else Requests(s, requests)
  }

  function ParseByte(s: Flow, c: byte, r: Reaction): Flow {
    var s1 := s.(parsed := s.parsed + [c],
                 stash := if s.stash.Stash? then s.stash.(pos := s.stash.pos + 1) else NoStash);
    if r.Calls? then Callback(s1, r.requests, r.ret) else s1
  }

  predicate Bails(r: Reaction) { r.Fails? || (r.Calls? && r.ret < 0) }

  datatype Result = Result(s: Flow, ret: int)

  /** libwebsocket_interpret_incoming_packet on buf, whose bytes cause these reactions. */
  function Interpret(s: Flow, buf: seq<byte>, reactions: seq<Reaction>): Result
    requires |buf| <= |reactions|
    decreases |buf|
  {
    if buf == [] then Result(s, 0)
    else if !s.allow then Result(if s.stash.NoStash? then s.(stash := Stash(buf, 0)) else s, 1)
    else
      var s1 := ParseByte(s, buf[0], reactions[0]);
      if Bails(reactions[0]) then Result(s1, -1) else Interpret(s1, buf[1..], reactions[1..])
  }

  function Close(s: Flow): Flow { s.(open := false) }

  /** The POLLOUT part of a service call. */
  function HandleOut(s: Flow, out: Writeable): (r: Flow)
    ensures r.stash == s.stash
  {
    match out
    case Notify(requests, ret) =>
      RequestsStash(s.(pollout := false), requests);
      var s1 := Callback(s.(pollout := false), requests, ret); if ret < 0 then Close(s1) else s1
    case _ => s
  }

  function Drain(s: Flow, reactions: seq<Reaction>): Flow
    requires s.stash.Stash? && s.stash.pos <= |s.stash.data| <= |reactions|
  {
    var r := Interpret(s, s.stash.data[s.stash.pos..], reactions);
    if r.ret < 0 then Close(r.s)
    else if r.s.stash.Stash? && r.s.stash.pos == |r.s.stash.data| then Apply(r.s.(stash := NoStash))
    else r.s
  }

  function Read(s: Flow, recv: Recv, reactions: seq<Reaction>): Flow
    requires recv.Data? ==> |recv.bytes| <= |reactions|
  {
    match recv
    case Again => s
    case Error => Close(s)
    case Data(bytes) =>
      if bytes == [] then Close(s)
      else var r := Interpret(s.(received := s.received + bytes), bytes, reactions);
        if r.ret < 0 then Close(r.s) else r.s
  }

  ghost predicate Enough(s: Flow, act: Act) {
    act.Service? ==>
      && (s.stash.Stash? ==> s.stash.pos <= |s.stash.data| <= |act.reactions|)
      && (act.recv.Data? ==> |act.recv.bytes| <= |act.reactions|)
  }

  function Step(s: Flow, act: Act): Flow
    requires Enough(s, act)
  {
    if !s.open then s
    else match act
      case Outside(enable) => Request(s, enable)
      case AskWriteable => s.(pollout := true)
      case Service(out, readable, recv, reactions) =>
        var s1 := HandleOut(s, out);
        if !s1.open then s1
        else if s1.stash.Stash? && s1.allow then Drain(s1, reactions)
        else if readable then Read(s1, recv, reactions)
        else s1
  }

  // --------------------------------------------------------------- conservation

  function Rest(stash: Stash): seq<byte> {
    if stash.Stash? && stash.pos <= |stash.data| then stash.data[stash.pos..] else []
  }

  /** Every byte received was parsed, once and in order, or waits in the stash. */
  predicate Conserved(s: Flow) { s.received == s.parsed + Rest(s.stash) }

  predicate Bounded(s: Flow) { s.stash.Stash? ==> s.stash.pos <= |s.stash.data| }

  lemma CallbackFrame(s: Flow, requests: seq<bool>, ret: int)
    ensures var s1 := Callback(s, requests, ret);
      s1 == s.(allow := s1.allow, pending := s1.pending, pollin := s1.pollin, pollout := s1.pollout)
  {
    RequestsStash(s, requests);
  }

  /** Fresh input: what is not parsed is stashed. */
  lemma {:induction false} FreshInput(s: Flow, buf: seq<byte>, reactions: seq<Reaction>)
    requires |buf| <= |reactions| && s.stash.NoStash?
    ensures var r := Interpret(s, buf, reactions);
      && r.s.received == s.received && r.s.open == s.open && Bounded(r.s)
      && (r.ret >= 0 ==>
            r.s.parsed + Rest(r.s.stash) == s.parsed + buf
            && (r.s.stash.Stash? ==> Rest(r.s.stash) != [] && !r.s.allow))
      && r.s.parsed <= s.parsed + buf
    decreases |buf|
  {
    if buf != [] && s.allow {
      var s1 := ParseByte(s, buf[0], reactions[0]);
      if reactions[0].Calls? {
        CallbackFrame(s.(parsed := s.parsed + [buf[0]]), reactions[0].requests, reactions[0].ret);
      }
      assert s1.parsed + buf[1..] == s.parsed + buf;
      if !Bails(reactions[0]) { FreshInput(s1, buf[1..], reactions[1..]); }
    } else if buf != [] {
      assert buf[0..] == buf;
    }
  }

  /** Draining: the stash position follows the bytes parsed. */
  lemma {:induction false} DrainInput(s: Flow, buf: seq<byte>, reactions: seq<Reaction>)
    requires |buf| <= |reactions| && s.stash.Stash? && Bounded(s) && buf == Rest(s.stash)
    ensures var r := Interpret(s, buf, reactions);
      && r.s.received == s.received && r.s.open == s.open && Bounded(r.s)
      && r.s.stash.Stash? && r.s.stash.data == s.stash.data && r.s.parsed + Rest(r.s.stash) == s.parsed + buf
      && (r.ret >= 0 ==> r.s.stash.pos == |r.s.stash.data| || !r.s.allow)
    decreases |buf|
  {
    if buf != [] && s.allow {
      var s0 := s.(parsed := s.parsed + [buf[0]], stash := s.stash.(pos := s.stash.pos + 1));
      var s1 := ParseByte(s, buf[0], reactions[0]);
      if reactions[0].Calls? { CallbackFrame(s0, reactions[0].requests, reactions[0].ret); }
      assert s1.parsed + buf[1..] == s.parsed + buf;
      if !Bails(reactions[0]) { DrainInput(s1, buf[1..], reactions[1..]); }
    }
  }

  lemma OutFrame(s: Flow, out: Writeable)
    ensures var s1 := HandleOut(s, out); s1.stash == s.stash && s1.received == s.received && s1.parsed == s.parsed
  {
    if out.Notify? { CallbackFrame(s.(pollout := false), out.requests, out.ret); }
  }

  /** A read meets a stash whose connection is paused. */
  predicate Collides(s: Flow, act: Act) {
    act.Service? && act.readable && act.recv.Data? && act.recv.bytes != []
    && var s1 := HandleOut(s, act.out); s1.stash.Stash? && !s1.allow
  }

  /** One service call loses bytes exactly when it reads although a paused stash exists. */
  lemma ServiceConservesExactly(s: Flow, act: Act)
    requires s.open && Bounded(s) && Conserved(s) && Enough(s, act) && Step(s, act).open
    ensures Bounded(Step(s, act)) && (Conserved(Step(s, act)) <==> !Collides(s, act))
  {
    if act.Service? {
      OutFrame(s, act.out);
      var s1 := HandleOut(s, act.out);
      if s1.stash.Stash? && s1.allow {
        DrainInput(s1, Rest(s1.stash), act.reactions);
      } else if act.readable && act.recv.Data? && act.recv.bytes != [] {
        var s2 := s1.(received := s1.received + act.recv.bytes);
        if s1.stash.NoStash? {
          assert s1.parsed + [] == s1.parsed;
          FreshInput(s2, act.recv.bytes, act.reactions);
        } else {
          assert |s2.received| > |s1.received|;
        }
      }
    }
  }

  // -------------------------------------------------------------- what closes it

  /** The parse of a chunk fails exactly at a byte that fails or whose callback returns less than 0, and stops there. */
  lemma {:induction false} InterpretFailsExactly(s: Flow, buf: seq<byte>, reactions: seq<Reaction>)
    requires |buf| <= |reactions|
    ensures var r := Interpret(s, buf, reactions);
      && s.parsed <= r.s.parsed <= s.parsed + buf
      && (r.ret < 0 <==> |s.parsed| < |r.s.parsed| && Bails(reactions[|r.s.parsed| - |s.parsed| - 1]))
      && forall k :: 0 <= k < |r.s.parsed| - |s.parsed| - 1 ==> !Bails(reactions[k])
    decreases |buf|
  {
    if buf != [] && s.allow {
      var s0 := s.(parsed := s.parsed + [buf[0]],
                   stash := if s.stash.Stash? then s.stash.(pos := s.stash.pos + 1) else NoStash);
      var s1 := ParseByte(s, buf[0], reactions[0]);
      if reactions[0].Calls? { CallbackFrame(s0, reactions[0].requests, reactions[0].ret); }
      assert s.parsed + buf == s.parsed + [buf[0]] + buf[1..];
      if !Bails(reactions[0]) { InterpretFailsExactly(s1, buf[1..], reactions[1..]); }
    }
  }

  /** Some byte was parsed, and the last of them ended the parse. */
  predicate Ended(s: Flow, s1: Flow, reactions: seq<Reaction>) {
    |s.parsed| < |s1.parsed| <= |s.parsed| + |reactions| && Bails(reactions[|s1.parsed| - |s.parsed| - 1])
  }

  /**
    A service call closes the connection exactly when its writeable callback returns less than 0,
    the last byte it parsed ends the parse, or, with nothing to drain, the socket reports an
    error or the end of the stream.
  */
  lemma ClosesExactly(s: Flow, act: Act)
    requires s.open && Bounded(s) && Enough(s, act) && act.Service?
    ensures !Step(s, act).open <==>
      || (act.out.Notify? && act.out.ret < 0)
      || Ended(s, Step(s, act), act.reactions)
      || (act.readable && !(s.stash.Stash? && HandleOut(s, act.out).allow)
          && (act.recv == Error || act.recv == Data([])))
  {
    OutFrame(s, act.out);
    OutOpen(s, act.out);
    var s1 := HandleOut(s, act.out);
    hide Callback, HandleOut, Drain, Read;
    if s1.open {
      if s1.stash.Stash? && s1.allow {
        DrainCloses(s1, act.reactions);
      } else if act.readable {
        ReadCloses(s1, act.recv, act.reactions);
      }
    }
  }

  lemma DrainCloses(s: Flow, reactions: seq<Reaction>)
    requires s.open && s.stash.Stash? && Bounded(s) && |s.stash.data| <= |reactions|
    ensures !Drain(s, reactions).open <==> Ended(s, Drain(s, reactions), reactions)
  {
    InterpretFailsExactly(s, Rest(s.stash), reactions);
    DrainInput(s, Rest(s.stash), reactions);
    DrainParsed(s, reactions);
  }

  lemma ReadCloses(s: Flow, recv: Recv, reactions: seq<Reaction>)
    requires s.open && (recv.Data? ==> |recv.bytes| <= |reactions|)
    ensures !Read(s, recv, reactions).open
      <==> Ended(s, Read(s, recv, reactions), reactions) || recv == Error || recv == Data([])
  {
    if recv.Data? && recv.bytes != [] {
      var s1 := s.(received := s.received + recv.bytes);
      InterpretFailsExactly(s1, recv.bytes, reactions);
      InterpretOpen(s1, recv.bytes, reactions);
    }
  }

  lemma OutOpen(s: Flow, out: Writeable)
    ensures HandleOut(s, out).open == (s.open && !(out.Notify? && out.ret < 0))
  {
    if out.Notify? { CallbackFrame(s.(pollout := false), out.requests, out.ret); }
  }

  lemma DrainParsed(s: Flow, reactions: seq<Reaction>)
    requires s.stash.Stash? && Bounded(s) && |s.stash.data| <= |reactions|
    ensures Drain(s, reactions).parsed == Interpret(s, Rest(s.stash), reactions).s.parsed
    ensures s.open ==> (Drain(s, reactions).open <==> Interpret(s, Rest(s.stash), reactions).ret >= 0)
  {
    DrainInput(s, Rest(s.stash), reactions);
  }

  lemma {:induction false} InterpretOpen(s: Flow, buf: seq<byte>, reactions: seq<Reaction>)
    requires |buf| <= |reactions|
    ensures Interpret(s, buf, reactions).s.open == s.open
    decreases |buf|
  {
    if buf != [] && s.allow {
      var s0 := s.(parsed := s.parsed + [buf[0]],
                   stash := if s.stash.Stash? then s.stash.(pos := s.stash.pos + 1) else NoStash);
      if reactions[0].Calls? { CallbackFrame(s0, reactions[0].requests, reactions[0].ret); }
      if !Bails(reactions[0]) { InterpretOpen(ParseByte(s, buf[0], reactions[0]), buf[1..], reactions[1..]); }
    }
  }

  // ------------------------------------------------------------------ whole runs

  /** Between callbacks: a paused or stashed connection is not polled for input. */
  predicate Armed(s: Flow) {
    && Bounded(s)
    && (s.stash.Stash? ==> !s.pollin)
    && (!s.allow ==> !s.pollin)
    && (!s.pending ==> s.pollin == s.allow)
  }

  /** Flow is turned off only by callbacks that return 0. */
  predicate Polite(requests: seq<bool>, ret: int) { false in requests ==> ret == 0 }

  predicate PoliteReaction(r: Reaction) { r.Calls? ==> Polite(r.requests, r.ret) }

  /** What poll can report for the event mask, and flow is turned off only from the connection's own callbacks. */
  predicate Fair(s: Flow, act: Act) {
    match act
    case Outside(enable) => enable
    case AskWriteable => true
    case Service(out, readable, recv, reactions) =>
      && (readable ==> s.pollin) && (!out.NotReady? ==> s.pollout)
      && (out.Notify? ==> Polite(out.requests, out.ret))
      && forall k :: 0 <= k < |reactions| ==> PoliteReaction(reactions[k])
  }

  lemma {:induction false} RequestsArmed(s: Flow, requests: seq<bool>)
    ensures var s1 := Requests(s, requests);
      && (s1.pending || (s1.allow == s.allow && s1.pending == s.pending))
      && (false !in requests ==> s1.allow || s1 == s)
    decreases |requests|
  {
    if requests != [] {
      RequestsArmed(Request(s, requests[0]), requests[1..]);
      assert false in requests[1..] ==> false in requests;
      assert requests[0] in requests;
    }
  }

  lemma CallbackArmed(s: Flow, requests: seq<bool>, ret: int)
    requires Armed(s) && Polite(requests, ret)
    ensures Armed(Callback(s, requests, ret))
  {
    RequestsArmed(s, requests);
    RequestsStash(s, requests);
  }

  lemma {:induction false} InterpretArmed(s: Flow, buf: seq<byte>, reactions: seq<Reaction>)
    requires Armed(s) && |buf| <= |reactions| && forall k :: 0 <= k < |reactions| ==> PoliteReaction(reactions[k])
    requires s.stash.Stash? ==> |buf| <= |s.stash.data| - s.stash.pos
    ensures Armed(Interpret(s, buf, reactions).s)
    decreases |buf|
  {
    if buf != [] && s.allow {
      var s0 := s.(parsed := s.parsed + [buf[0]],
                   stash := if s.stash.Stash? then s.stash.(pos := s.stash.pos + 1) else NoStash);
      if reactions[0].Calls? {
        CallbackArmed(s0, reactions[0].requests, reactions[0].ret);
        CallbackFrame(s0, reactions[0].requests, reactions[0].ret);
      }
      if !Bails(reactions[0]) { InterpretArmed(ParseByte(s, buf[0], reactions[0]), buf[1..], reactions[1..]); }
    }
  }

  /** What holds before and after every step. */
  predicate Sound(s: Flow) {
    s.parsed <= s.received && (s.open ==> Conserved(s) && Armed(s) && (s.stash.Stash? ==> Rest(s.stash) != []))
  }

  lemma DrainSound(s: Flow, reactions: seq<Reaction>)
    requires Sound(s) && s.open && s.stash.Stash? && s.allow && |s.stash.data| <= |reactions|
    requires forall k :: 0 <= k < |reactions| ==> PoliteReaction(reactions[k])
    ensures Sound(Drain(s, reactions))
    ensures Drain(s, reactions).open && Drain(s, reactions).stash.NoStash?
      ==> Drain(s, reactions).pollin == Drain(s, reactions).allow && !Drain(s, reactions).pending
  {
    var buf := Rest(s.stash);
    DrainInput(s, buf, reactions);
    InterpretArmed(s, buf, reactions);
    DrainPending(s, buf, reactions);
  }

  /** A pending change stays pending while there is a stash. */
  lemma {:induction false} DrainPending(s: Flow, buf: seq<byte>, reactions: seq<Reaction>)
    requires s.stash.Stash? && s.pending && |buf| <= |reactions|
    ensures Interpret(s, buf, reactions).s.pending
    decreases |buf|
  {
    if buf != [] && s.allow {
      var s0 := s.(parsed := s.parsed + [buf[0]], stash := s.stash.(pos := s.stash.pos + 1));
      if reactions[0].Calls? { RequestsArmed(s0, reactions[0].requests); RequestsStash(s0, reactions[0].requests); }
      if !Bails(reactions[0]) { DrainPending(ParseByte(s, buf[0], reactions[0]), buf[1..], reactions[1..]); }
    }
  }

  lemma ReadSound(s: Flow, recv: Recv, reactions: seq<Reaction>)
    requires Sound(s) && s.open && s.stash.NoStash? && (recv.Data? ==> |recv.bytes| <= |reactions|)
    requires forall k :: 0 <= k < |reactions| ==> PoliteReaction(reactions[k])
    ensures Sound(Read(s, recv, reactions))
  {
    if recv.Data? && recv.bytes != [] {
      var s1 := s.(received := s.received + recv.bytes);
      assert s.parsed + [] == s.parsed;
      FreshInput(s1, recv.bytes, reactions);
      InterpretArmed(s1, recv.bytes, reactions);
    }
  }

  lemma StepSound(s: Flow, act: Act)
    requires Sound(s) && Enough(s, act) && Fair(s, act)
    ensures Sound(Step(s, act))
  {
    if s.open && act.Service? {
      OutFrame(s, act.out);
      if act.out.Notify? { CallbackArmed(s.(pollout := false), act.out.requests, act.out.ret); }
      var s1 := HandleOut(s, act.out);
      if s1.open && s1.stash.Stash? && s1.allow { DrainSound(s1, act.reactions); }
      else if s1.open && act.readable { ReadSound(s1, act.recv, act.reactions); }
    }
  }

  ghost predicate FairRun(s: Flow, acts: seq<Act>)
    decreases |acts|
  {
    acts == [] || (Enough(s, acts[0]) && Fair(s, acts[0]) && FairRun(Step(s, acts[0]), acts[1..]))
  }

  ghost function Run(s: Flow, acts: seq<Act>): Flow
    requires FairRun(s, acts)
    decreases |acts|
  {
    if acts == [] then s else Run(Step(s, acts[0]), acts[1..])
  }

  /**
    Over any run of arrivals, pauses, resumes and partial drains, every received byte reaches
    the parser once and in order or waits in the stash, and POLLIN is off while it does.
  */
  lemma {:induction false} RunConserves(s: Flow, acts: seq<Act>)
    requires Sound(s) && FairRun(s, acts)
    ensures Sound(Run(s, acts))
    decreases |acts|
  {
    if acts != [] {
      StepSound(s, acts[0]);
      RunConserves(Step(s, acts[0]), acts[1..]);
    }
  }

  lemma StartsSound()
    ensures Sound(OPENED)
  {}

  // ----------------------------------------------------- where the promises end

  function PausedLive(a: byte): Flow { Flow(true, false, true, NoStash, true, false, [a], [a]) }

  function StashedLive(a: byte, b: byte): Flow { Flow(true, false, true, Stash([b], 0), true, false, [a, b], [a]) }

  /**
    A receive callback that pauses and returns 1 leaves POLLIN on: the next read is stashed, the
    one after it dropped.
  */
  lemma ImpolitePauseLoses(a: byte, b: byte, c: byte)
    ensures Step(OPENED, Service(NotReady, true, Data([a]), [Calls([false], 1)])) == PausedLive(a)
    ensures Step(PausedLive(a), Service(NotReady, true, Data([b]), [Quiet])) == StashedLive(a, b)
    ensures Step(StashedLive(a, b), Service(NotReady, true, Data([c]), [Quiet]))
      == StashedLive(a, b).(received := [a, b, c])
    ensures Conserved(StashedLive(a, b)) && !Conserved(StashedLive(a, b).(received := [a, b, c]))
  {
    assert [false][1..] == [] && [a][1..] == [] && [b][0..] == [b];
    assert [] + [a] == [a] && [a] + [b] == [a, b] && [a, b] + [c] == [a, b, c];
    var s0 := OPENED.(received := [a], parsed := [a]);
    assert Requests(s0, [false]) == Requests(Request(s0, false), []) == PausedLive(a);
    assert Interpret(OPENED.(received := [a]), [a], [Calls([false], 1)]) == Result(PausedLive(a), 0);
  }

  // ------------------------------------------------------- resuming from outside

  /** A service call that poll has a reason for. */
  ghost predicate Serviced(s: Flow, act: Act) {
    act.Service? && Enough(s, act) && Fair(s, act) && (act.readable || !act.out.NotReady?)
  }

  /**
    Resumed from outside its own callbacks, a paused connection with or without a stash can
    be serviced again exactly when POLLOUT happens to be on: the request touches no poll mask.
  */
  lemma ResumedServicedExactly(s: Flow)
    requires Sound(s) && s.open && !s.allow
    ensures (exists act :: Serviced(Request(s, true), act)) <==> s.pollout
  {
    var s1 := Request(s, true);
    if s.pollout {
      var quiet := seq(if s.stash.Stash? then |s.stash.data| else 0, _ => Quiet);
      assert Serviced(s1, Service(FlushOnly, false, Again, quiet));
    }
  }

  /** Resumed, with nothing left to poll for. */
  predicate Stalled(s: Flow) { s.open && s.allow && s.pending && !s.pollin && !s.pollout }

  /** In a run of events, poll reports each service call's reason. */
  ghost predicate EventRun(s: Flow, acts: seq<Act>)
    decreases |acts|
  {
    acts == [] || (Enough(s, acts[0]) && Fair(s, acts[0]) && (acts[0].Service? ==> Serviced(s, acts[0]))
                   && EventRun(Step(s, acts[0]), acts[1..]))
  }

  /**
    A stalled connection stays as it is until someone asks for a writeable event: no service call
    comes before that.
  */
  lemma {:induction false} StallsUntilAsked(s: Flow, acts: seq<Act>, k: nat)
    requires Stalled(s) && EventRun(s, acts) && k < |acts| && acts[k].Service?
    ensures exists j :: 0 <= j < k && acts[j].AskWriteable?
    decreases k
  {
    if !acts[0].AskWriteable? {
      assert Step(s, acts[0]) == s;
      StallsUntilAsked(s, acts[1..], k - 1);
      var j :| 0 <= j < k - 1 && acts[1..][j].AskWriteable?;
      assert acts[j + 1].AskWriteable?;
    }
  }

  /**
    What the first event after an outside resume brings: the poll for input is back exactly
    when the connection was not paused anew and either had a stash to drain or its writeable
    callback returned 0.
  */
  lemma EventResumesExactly(s: Flow, act: Act)
    requires Sound(s) && s.open && !s.allow && Serviced(Request(s, true), act)
    requires Step(Request(s, true), act).open
    ensures var s1 := Step(Request(s, true), act);
      && (s1.pollin <==> s1.allow && (s.stash.Stash? || (act.out.Notify? && act.out.ret == 0)))
      && (s1.allow && s.stash.Stash? ==> s1.stash.NoStash? && s1.parsed == s1.received && !s1.pending)
      && (s.stash.NoStash? ==> s1.stash.NoStash? && s1.parsed == s.parsed)
  {
    var s0 := Request(s, true);
    StepSound(s0, act);
    OutFrame(s0, act.out);
    var s1 := HandleOut(s0, act.out);
    if act.out.Notify? {
      CallbackArmed(s0.(pollout := false), act.out.requests, act.out.ret);
      RequestsArmed(s0.(pollout := false), act.out.requests);
      RequestsStash(s0.(pollout := false), act.out.requests);
    }
    if s1.stash.Stash? && s1.allow {
      DrainSound(s1, act.reactions);
      DrainInput(s1, Rest(s1.stash), act.reactions);
    }
  }

  /** With nobody pausing it again, the event drains the stash completely. */
  lemma UndisturbedEventDrains(s: Flow, act: Act)
    requires Sound(s) && s.open && !s.allow && s.stash.Stash? && Serviced(Request(s, true), act)
    requires act.out.Notify? ==> false !in act.out.requests
    requires forall k :: 0 <= k < |act.reactions| && act.reactions[k].Calls? ==> false !in act.reactions[k].requests
    requires Step(Request(s, true), act).open
    ensures var s1 := Step(Request(s, true), act); s1.stash.NoStash? && s1.parsed == s1.received && s1.pollin
  {
    var s0 := Request(s, true);
    if act.out.Notify? {
      RequestsArmed(s0.(pollout := false), act.out.requests);
      RequestsStash(s0.(pollout := false), act.out.requests);
    }
    OutFrame(s0, act.out);
    StaysAllowed(HandleOut(s0, act.out), Rest(s.stash), act.reactions);
    EventResumesExactly(s, act);
  }

  lemma {:induction false} StaysAllowed(s: Flow, buf: seq<byte>, reactions: seq<Reaction>)
    requires |buf| <= |reactions| && s.allow && s.stash.Stash?
    requires forall k :: 0 <= k < |reactions| && reactions[k].Calls? ==> false !in reactions[k].requests
    ensures Interpret(s, buf, reactions).s.allow
    decreases |buf|
  {
    if buf != [] {
      var s0 := s.(parsed := s.parsed + [buf[0]], stash := s.stash.(pos := s.stash.pos + 1));
      if reactions[0].Calls? {
        RequestsArmed(s0, reactions[0].requests);
        RequestsStash(s0, reactions[0].requests);
      }
      if !Bails(reactions[0]) { StaysAllowed(ParseByte(s, buf[0], reactions[0]), buf[1..], reactions[1..]); }
    }
  }

  /** The callback for the first byte pauses and returns 0; the connection is then resumed from outside. */
  function PauseThenResume(bytes: seq<byte>): seq<Act>
  {
    [Service(NotReady, true, Data(bytes), [Calls([false], 0)] + seq(|bytes|, _ => Quiet)), Outside(true)]
  }

  /** From a new connection to the stall, with a stash when more than the first byte was read, without one otherwise. */
  lemma OutsideResumeStalls(bytes: seq<byte>)
    requires bytes != []
    ensures FairRun(OPENED, PauseThenResume(bytes)) && EventRun(OPENED, PauseThenResume(bytes))
    ensures var s := Run(OPENED, PauseThenResume(bytes));
      Stalled(s) && s.parsed == bytes[..1] && s.stash == (if |bytes| == 1 then NoStash else Stash(bytes[1..], 0))
  {
    var acts, quiet := PauseThenResume(bytes), seq(|bytes|, _ => Quiet);
    var read := acts[0];
    assert read.reactions[0] == Calls([false], 0) && read.reactions[1..] == quiet;
    assert forall k :: 0 < k < |read.reactions| ==> read.reactions[k] == Quiet;
    assert [false][1..] == [];
    var s0 := OPENED.(received := OPENED.received + bytes);
    assert s0.received == bytes && [] + [bytes[0]] == bytes[..1];
    var s1 := s0.(parsed := bytes[..1]);
    assert Requests(s1, [false]) == Requests(Request(s1, false), []) == s1.(allow := false, pending := true);
    var s2 := s1.(allow := false, pollin := false);
    assert ParseByte(s0, bytes[0], read.reactions[0]) == s2;
    assert Interpret(s0, bytes, read.reactions) == Interpret(s2, bytes[1..], quiet);
    var s3 := Step(OPENED, read);
    assert s3 == s2.(stash := if |bytes| == 1 then NoStash else Stash(bytes[1..], 0));
    assert acts[1..] == [Outside(true)] && acts[1..][1..] == [];
    assert Run(OPENED, acts) == Run(s3, [Outside(true)]) == Run(Request(s3, true), []);
  }

  // -------------------------------------------------------------- the functions

  class Receiver {
    var open: bool
    var allow: bool               // LWS_RXFLOW_ALLOW of rxflow_change_to
    var pending: bool             // LWS_RXFLOW_PENDING_CHANGE
    var rxflowBuffer: array?<byte>
    var rxflowLen: nat
    var rxflowPos: nat
    var pollin: bool
    var pollout: bool
    ghost var received: seq<byte>
    ghost var parsed: seq<byte>

    ghost predicate Valid()
      reads this, rxflowBuffer
    {
      rxflowBuffer != null ==> rxflowPos <= rxflowLen == rxflowBuffer.Length
    }

    ghost function View(): Flow
      reads this, rxflowBuffer
    {
      var stash := if rxflowBuffer == null then NoStash else Stash(rxflowBuffer[..], rxflowPos);
      Flow(open, allow, pending, stash, pollin, pollout, received, parsed)
    }

    constructor ()
      ensures Valid() && View() == OPENED
    {
      open, allow, pending, pollin, pollout := true, true, false, true, false;
      rxflowBuffer, rxflowLen, rxflowPos := null, 0, 0;
      received, parsed := [], [];
    }

    /** libwebsocket_rx_flow_control */
    method RxFlowControl(enable: bool)
      modifies this`allow, this`pending
      ensures View() == Request(old(View()), enable)
    {
      if enable == allow { return; }
      pending, allow := true, enable;
    }

    /** libwebsocket_callback_on_writable */
    method CallbackOnWritable()
      modifies this`pollout
      ensures View() == old(View()).(pollout := true)
    {
      pollout := true;
    }

    /** _libwebsocket_rx_flow_control */
    method ApplyRxFlow() returns (ret: int)
      modifies this`pending, this`pollin, this`pollout
      ensures View() == Apply(old(View())) && ret >= 0
    {
      if !pending { return 0; }
      if rxflowBuffer != null {
        CallbackOnWritable();
        return 0;
      }
      pending := false;
      if allow { pollin := true; } else { pollin := false; }
      return 1;
    }

    /** user_callback_handle_rxflow around a callback that makes these requests and returns cb. */
    method UserCallback(requests: seq<bool>, cb: int) returns (n: int)
      modifies this`allow, this`pending, this`pollin, this`pollout
      ensures View() == Callback(old(View()), requests, cb) && (n < 0 <==> cb < 0)
    {
      var k := 0;
      while k < |requests|
        invariant k <= |requests| && Requests(View(), requests[k..]) == Requests(old(View()), requests)
        invariant pollin == old(pollin) && pollout == old(pollout)
      {
        RxFlowControl(requests[k]);
        k := k + 1;
      }
      n := cb;
      if n == 0 { n := ApplyRxFlow(); }
    }

    /** libwebsocket_rx_sm as far as flow control sees it. */
    method RxSm(c: byte, r: Reaction) returns (m: int)
      modifies this`allow, this`pending, this`pollin, this`pollout, this`parsed
      ensures View() == (var s1 := old(View()).(parsed := old(parsed) + [c]);
        if r.Calls? then Callback(s1, r.requests, r.ret) else s1)
      ensures m < 0 <==> Bails(r)
    {
      parsed := parsed + [c];
      match r {
        case Quiet => m := 0;
        case Fails => m := -1;
        case Calls(requests, cb) => m := UserCallback(requests, cb);
      }
    }

    /** The byte is accounted for in the stash, if there is one, and parsed. */
    method ParseNext(c: byte, r: Reaction) returns (m: int)
      requires Valid() && (rxflowBuffer != null ==> rxflowPos < rxflowLen)
      modifies this`allow, this`pending, this`pollin, this`pollout, this`parsed, this`rxflowPos
      ensures Valid() && View() == ParseByte(old(View()), c, r) && (m < 0 <==> Bails(r))
      ensures rxflowBuffer != null ==> rxflowPos == old(rxflowPos) + 1
    {
      hide Callback;
      if rxflowBuffer != null { rxflowPos := rxflowPos + 1; }
      m := RxSm(c, r);
    }

    /** Stashes buf[from..to], unless an earlier stash is still there. */
    method StashRest(buf: array<byte>, from: nat, to: nat)
      requires Valid() && from < to <= buf.Length
      modifies this`rxflowBuffer, this`rxflowLen, this`rxflowPos
      ensures Valid() && View()
        == (if old(rxflowBuffer) == null then old(View()).(stash := Stash(buf[from..to], 0)) else old(View()))
    {
      if rxflowBuffer == null {
        var stash := new byte[to - from];
        forall i | 0 <= i < to - from { stash[i] := buf[from + i]; }
        assert stash[..] == buf[from..to];
        rxflowBuffer, rxflowLen, rxflowPos := stash, to - from, 0;
      }
    }

    /** libwebsocket_interpret_incoming_packet on buf[at..at + len] */
    method InterpretPacket(buf: array<byte>, at: nat, len: nat, reactions: seq<Reaction>) returns (ret: int)
      requires Valid() && at + len <= buf.Length && len <= |reactions|
      requires rxflowBuffer != null && allow ==> len <= rxflowLen - rxflowPos
      modifies this`allow, this`pending, this`pollin, this`pollout, this`parsed, this`rxflowBuffer, this`rxflowLen
      modifies this`rxflowPos
      ensures Valid() && Result(View(), ret) == Interpret(old(View()), buf[at..at + len], reactions)
    {
      hide ParseByte;
      var n := 0;
      ghost var input := buf[at..at + len];
      while n < len
        invariant n <= len && Valid() && rxflowBuffer == old(rxflowBuffer)
          && (if n == 0 then allow == old(allow) else old(allow))
        invariant rxflowBuffer != null ==> rxflowPos == old(rxflowPos) + n
        invariant Interpret(View(), input[n..], reactions[n..]) == Interpret(old(View()), input, reactions)
      {
        ghost var rest, later := input[n..], reactions[n..];
        assert rest[1..] == input[n + 1..] && later[1..] == reactions[n + 1..];
        if !allow {
          StashRest(buf, at + n, at + len);
          assert buf[at + n..at + len] == rest;
          return 1;
        }
        var m := ParseNext(buf[at + n], reactions[n]);
        n := n + 1;
        if m < 0 { return -1; }
      }
      return 0;
    }

    /** The drain of libwebsocket_service_fd. */
    method DrainStash(reactions: seq<Reaction>)
      requires Valid() && rxflowBuffer != null && rxflowLen <= |reactions|
      modifies this
      ensures Valid() && View() == Drain(old(View()), reactions)
    {
      hide Interpret, Apply;
      DrainInput(View(), Rest(View().stash), reactions);
      assert rxflowBuffer[rxflowPos..rxflowPos + (rxflowLen - rxflowPos)] == rxflowBuffer[..][rxflowPos..];
      var n := InterpretPacket(rxflowBuffer, rxflowPos, rxflowLen - rxflowPos, reactions);
      if n < 0 { open := false; return; }
      if rxflowBuffer != null && rxflowPos == rxflowLen {
        rxflowBuffer := null;
        var ignored := ApplyRxFlow();
      }
    }

    /** A recv into the service buffer, parsed at once. */
    method ReadSocket(serviceBuffer: array<byte>, recv: Recv, reactions: seq<Reaction>)
      requires Valid() && rxflowBuffer != serviceBuffer
        && (recv.Data? ==> |recv.bytes| <= |reactions| && |recv.bytes| <= serviceBuffer.Length)
      requires rxflowBuffer == null || !allow
      modifies this, serviceBuffer
      ensures Valid() && View() == Read(old(View()), recv, reactions)
    {
      hide Interpret;
      match recv {
        case Again =>
        case Error => open := false;
        case Data(bytes) =>
          if bytes == [] { open := false; return; }
          forall i | 0 <= i < |bytes| { serviceBuffer[i] := bytes[i]; }
          received := received + bytes;
          assert serviceBuffer[0..|bytes|] == bytes;
          assert rxflowBuffer != null ==> rxflowBuffer[..] == old(rxflowBuffer[..]);
          ghost var before := View();
          assert before == old(View()).(received := old(received) + bytes);
          var n := InterpretPacket(serviceBuffer, 0, |bytes|, reactions);
          assert Result(View(), n) == Interpret(before, bytes, reactions);
          if n < 0 { open := false; }
      }
    }

    /** The established-connection part of libwebsocket_service_fd. */
    method ServiceFd(out: Writeable, readable: bool, serviceBuffer: array<byte>, recv: Recv, reactions: seq<Reaction>)
      requires Valid() && open && rxflowBuffer != serviceBuffer
        && Enough(View(), Service(out, readable, recv, reactions))
      requires recv.Data? ==> |recv.bytes| <= serviceBuffer.Length
      modifies this, serviceBuffer
      ensures Valid() && View() == Step(old(View()), Service(out, readable, recv, reactions))
    {
      hide Drain, Read, Callback;
      if out.Notify? {
        pollout := false;
        var n := UserCallback(out.requests, out.ret);
        if n < 0 { open := false; return; }
      }
      if rxflowBuffer != null && allow {
        DrainStash(reactions);
      } else if readable {
        ReadSocket(serviceBuffer, recv, reactions);
      }
    }
  }
}
