/**
  From libwebsocket_write through truncated sends, failed sends and POLLOUT flushes to the
  parser of the other end: when what is on the socket and what is still pending are together
  the frames of the messages written, so that the other end hands them over.
*/
module WsTransmission {
  import opened Bytes
  import opened WsFrame
  import opened WsReceive
  import opened WsRoundTrip
  import opened WsSend
  import opened WsControl
  import opened WsConnection

  // What an application and its event loop do: write a message, for which the random source
  // gave a key (a server needs none), or serve a POLLOUT event; res is the socket's answer.
  datatype Sending = Write(m: Message, key: Key, res: SendResult) | Flush(res: SendResult)

  // The writing end; clean is the choice not to buffer all partial sends.
  datatype Link = Link(client: bool, lp64: bool, clean: bool)

  // Its transmit side, and inside_frame.
  datatype Side = Side(tx: TxState, inside: bool)

  /** A data message or a control frame; control frames are not fragmented. */
  predicate Writes(m: Message) {
    (IsData(m.opcode) && m.payload != []) || (IsControl(m.opcode) && m.fin)
  }

  ghost predicate AllWrite(xs: seq<Sending>) { forall i :: 0 <= i < |xs| && xs[i].Write? ==> Writes(xs[i].m) }

  function Frame(x: Sending, link: Link): seq<byte>
    requires x.Write? && Writes(x.m)
  {
    if link.client then ClientFrame(x.m, x.key, link.lp64) else ServerFrame(x.m, link.lp64)
  }

  /** What a write puts together: inside a frame it takes the payload for more of that frame. */
  function Laid(x: Sending, inside: bool, link: Link): seq<byte>
    requires x.Write? && Writes(x.m)
  {
    if inside then x.m.payload else Frame(x, link)
  }

  /** The call of lws_issue_raw it comes down to. */
  function Call(x: Sending, s: Side, link: Link): TxOp
    requires x.Write? ==> Writes(x.m)
  {
    match x
    case Write(_, _, res) => var laid := Laid(x, s.inside, link); Issue(laid, link.clean, Clamp(res, |laid|))
    case Flush(res) => Pollout(Clamp(res, |s.tx.pending|))
  }

  /** No write comes while an earlier one is pending, which lws_issue_raw asserts. */
  predicate Proper(x: Sending, s: Side) { x.Write? ==> s.tx.pending == [] }

  /** A data write is inside a frame if the socket failed it, and outside if the socket took it. */
  function NextInside(x: Sending, inside: bool): bool {
    if x.Write? && IsData(x.m.opcode) then x.res.SocketError? else inside
  }

  function After(x: Sending, s: Side, link: Link): Side
    requires (x.Write? ==> Writes(x.m)) && Proper(x, s)
  {
    Side(Apply(s.tx, Call(x, s, link)).tx, NextInside(x, s.inside))
  }

  ghost predicate AllProper(xs: seq<Sending>, s: Side, link: Link)
    requires AllWrite(xs)
    decreases |xs|
  {
    xs == [] || (Proper(xs[0], s) && AllProper(xs[1..], After(xs[0], s, link), link))
  }

  /** The transmit side after all of it. */
  ghost function AfterAll(xs: seq<Sending>, s: Side, link: Link): Side
    requires AllWrite(xs) && AllProper(xs, s, link)
    decreases |xs|
  {
    if xs == [] then s else AfterAll(xs[1..], After(xs[0], s, link), link)
  }

  /** A write the socket did not fail, whose caller was told it was sent. */
  predicate Succeeds(x: Sending) { x.Write? && !x.res.SocketError? }

  predicate FailedData(x: Sending) { x.Write? && IsData(x.m.opcode) && x.res.SocketError? }

  ghost function Messages(xs: seq<Sending>): seq<Message> {
    if xs == [] then [] else (if Succeeds(xs[0]) then [xs[0].m] else []) + Messages(xs[1..])
  }

  ghost function Keys(xs: seq<Sending>): (keys: seq<Key>)
    ensures |keys| == |Messages(xs)|
  {
    if xs == [] then [] else (if Succeeds(xs[0]) then [xs[0].key] else []) + Keys(xs[1..])
  }

  /** The frames of all messages taken. */
  ghost function Frames(xs: seq<Sending>, link: Link): seq<byte>
    requires AllWrite(xs)
  {
    if xs == [] then [] else (if Succeeds(xs[0]) then Frame(xs[0], link) else []) + Frames(xs[1..], link)
  }

  lemma {:induction false} FramesAreStream(xs: seq<Sending>, link: Link)
    requires AllWrite(xs)
    ensures forall i :: 0 <= i < |Messages(xs)| ==> Messages(xs)[i].opcode < 16
    ensures Frames(xs, link)
      == if link.client then ClientStream(Messages(xs), Keys(xs), link.lp64) else ServerStream(Messages(xs), link.lp64)
  {
    hide ClientFrame, ServerFrame;
    if xs != [] {
      FramesAreStream(xs[1..], link);
      if Succeeds(xs[0]) {
        assert Messages(xs)[1..] == Messages(xs[1..]) && Keys(xs)[1..] == Keys(xs[1..]);
        assert Messages(xs)[0] == xs[0].m && Keys(xs)[0] == xs[0].key;
        assert forall i :: 0 < i < |Messages(xs)| ==> Messages(xs)[i] == Messages(xs[1..])[i - 1];
      } else {
        assert Messages(xs) == Messages(xs[1..]) && Keys(xs) == Keys(xs[1..])
          && Frames(xs, link) == Frames(xs[1..], link);
      }
    }
  }

  // ----------------------------------------------------------------- what is sent

  /** The socket takes a part of the frame, not all of it. */
  predicate Cut(x: Sending, link: Link)
    requires x.Write? ==> Writes(x.m)
  {
    x.Write? && 0 < Taken(x.res) < |Frame(x, link)|
  }

  /** A write taken of which the other end cannot get the frame. */
  predicate Loss(x: Sending, inside: bool, link: Link)
    requires x.Write? ==> Writes(x.m)
  {
    Succeeds(x) && (inside || (link.clean && Cut(x, link)))
  }

  ghost predicate Loses(xs: seq<Sending>, inside: bool, link: Link)
    requires AllWrite(xs)
    decreases |xs|
  {
    xs != [] && (Loss(xs[0], inside, link) || Loses(xs[1..], NextInside(xs[0], inside), link))
  }

  lemma FrameIsLonger(x: Sending, link: Link)
    requires x.Write? && Writes(x.m)
    ensures |x.m.payload| < |Frame(x, link)| <= |x.m.payload| + 14
  {}

  /** One write or flush adds the frame of a write taken, or less than it exactly when that is lost. */
  lemma AfterAdds(x: Sending, s: Side, link: Link)
    requires (x.Write? ==> Writes(x.m)) && Proper(x, s)
    ensures var t, t1, frame := s.tx, After(x, s, link).tx, if Succeeds(x) then Frame(x, link) else [];
      && (!Loss(x, s.inside, link) ==> t1.wire + t1.pending == t.wire + t.pending + frame)
      && (Loss(x, s.inside, link) ==> |t1.wire + t1.pending| < |t.wire + t.pending + frame|)
  {
    hide Frame;
    if x.Write? { FrameIsLonger(x, link); }
    StepConserves(s.tx, Call(x, s, link));
    assert s.tx.wire + s.tx.pending + [] == s.tx.wire + s.tx.pending;
  }

  lemma {:induction false} FramesSent(xs: seq<Sending>, s: Side, link: Link)
    requires AllWrite(xs) && AllProper(xs, s, link)
    ensures var t1, all := AfterAll(xs, s, link).tx, s.tx.wire + s.tx.pending + Frames(xs, link);
      && (t1.wire + t1.pending == all <==> !Loses(xs, s.inside, link))
      && (Loses(xs, s.inside, link) ==> |t1.wire + t1.pending| < |all|)
    decreases |xs|
  {
    hide Frame, After, Loss;
    if xs != [] {
      var s1, frame := After(xs[0], s, link), if Succeeds(xs[0]) then Frame(xs[0], link) else [];
      AfterAdds(xs[0], s, link);
      NextInsideIs(xs[0], s, link);
      FramesSent(xs[1..], s1, link);
      assert s.tx.wire + s.tx.pending + Frames(xs, link) == s.tx.wire + s.tx.pending + frame + Frames(xs[1..], link);
    }
  }

  lemma NextInsideIs(x: Sending, s: Side, link: Link)
    requires (x.Write? ==> Writes(x.m)) && Proper(x, s)
    ensures After(x, s, link).inside == NextInside(x, s.inside)
  {}

  ghost predicate AnyCut(xs: seq<Sending>, link: Link)
    requires AllWrite(xs)
  {
    xs != [] && (Cut(xs[0], link) || AnyCut(xs[1..], link))
  }

  predicate AnySuccess(xs: seq<Sending>) { xs != [] && (Succeeds(xs[0]) || AnySuccess(xs[1..])) }

  /** Some write is taken behind a data write that failed. */
  predicate SuccessAfterFailure(xs: seq<Sending>) {
    xs != [] && ((FailedData(xs[0]) && AnySuccess(xs[1..])) || SuccessAfterFailure(xs[1..]))
  }

  lemma {:induction false} LosesExactly(xs: seq<Sending>, inside: bool, link: Link)
    requires AllWrite(xs)
    ensures Loses(xs, inside, link) <==>
      (link.clean && AnyCut(xs, link)) || (inside && AnySuccess(xs)) || SuccessAfterFailure(xs)
    decreases |xs|
  {
    hide Frame;
    if xs != [] { LosesExactly(xs[1..], NextInside(xs[0], inside), link); }
  }

  /**
    Over any run of writes and flushes, whatever the socket takes or fails, the socket and the
    pending buffer hold exactly the frames of the writes taken, unless a clean buffer was cut
    (noBufferAllPartialTx rules that out) or a write was taken behind a failed data write.
  */
  lemma FramesSentExactly(xs: seq<Sending>, t: TxState, link: Link)
    requires AllWrite(xs) && AllProper(xs, Side(t, false), link)
    ensures var t1 := AfterAll(xs, Side(t, false), link).tx;
      t1.wire + t1.pending == t.wire + t.pending + Frames(xs, link)
      <==> !(link.clean && AnyCut(xs, link)) && !SuccessAfterFailure(xs)
  {
    FramesSent(xs, Side(t, false), link);
    LosesExactly(xs, false, link);
  }

  const EMPTY_TX := TxState([], [])

  /** Such a run: the socket fails one data write and takes the next, whose payload goes out bare. */
  lemma BareAfterFailure(first: Message, second: Message, key: Key, link: Link)
    requires IsData(first.opcode) && IsData(second.opcode) && first.payload != [] && second.payload != []
    ensures var xs := [Write(first, key, SocketError), Write(second, key, Accepted(|second.payload|))];
      && AllWrite(xs) && AllProper(xs, Side(EMPTY_TX, false), link)
      && AfterAll(xs, Side(EMPTY_TX, false), link) == Side(TxState(second.payload, []), false)
      && Messages(xs) == [second]
  {
    hide ClientFrame, ServerFrame;
    var x, y := Write(first, key, SocketError), Write(second, key, Accepted(|second.payload|));
    FrameIsLonger(x, link);
    var s1 := Side(EMPTY_TX, true);
    assert After(x, Side(EMPTY_TX, false), link) == s1;
    assert [] + second.payload == second.payload && second.payload[..|second.payload|] == second.payload;
    assert After(y, s1, link) == Side(TxState(second.payload, []), false);
    var s2 := Side(TxState(second.payload, []), false);
    assert [x, y][1..] == [y] && [y][1..] == [];
    assert AllProper([], s2, link) && AfterAll([], s2, link) == s2;
    assert AllProper([y], s1, link) && AfterAll([y], s1, link) == s2;
    assert Messages([]) == [] && Messages([y]) == [second] + [];
    assert Messages([x, y]) == [] + Messages([y]);
  }

  /**
    End to end: after any writes and flushes on a new client connection without clean buffers,
    none taken behind a failed data write, what the socket took, and behind it what is pending,
    makes an idle server deal with exactly the messages taken; once nothing is pending, what
    the socket took does.
  */
  lemma WrittenIsDelivered(s: RxState, cfg: Config, xs: seq<Sending>)
    requires AllWrite(xs) && AllProper(xs, Side(EMPTY_TX, false), Link(true, cfg.lp64, false))
    requires Idle(s) && AllMixable(Messages(xs), MASK_LIMIT) && !SuccessAfterFailure(xs)
    ensures var t := AfterAll(xs, Side(EMPTY_TX, false), Link(true, cfg.lp64, false)).tx;
      && Settled(true, Run(Server(cfg), s, t.wire + t.pending), Messages(xs), s.binary, cfg)
      && (t.pending == [] ==> Settled(true, Run(Server(cfg), s, t.wire), Messages(xs), s.binary, cfg))
  {
    hide AfterAll, Settled, Run;
    var link := Link(true, cfg.lp64, false);
    var t := AfterAll(xs, Side(EMPTY_TX, false), link).tx;
    FramesSentExactly(xs, EMPTY_TX, link);
    FramesAreStream(xs, link);
    assert [] + [] + Frames(xs, link) == Frames(xs, link);
    assert t.wire + [] == t.wire;
    MixedRoundTrip(s, cfg, Messages(xs), Keys(xs));
  }

  /** The same from a server to a client. */
  lemma ServedIsDelivered(s: RxState, cfg: Config, xs: seq<Sending>)
    requires AllWrite(xs) && AllProper(xs, Side(EMPTY_TX, false), Link(false, cfg.lp64, false))
    requires Idle(s) && AllMixable(Messages(xs), LengthLimit(cfg.lp64)) && !SuccessAfterFailure(xs)
    ensures var t := AfterAll(xs, Side(EMPTY_TX, false), Link(false, cfg.lp64, false)).tx;
      && Settled(false, Run(Client(cfg), s, t.wire + t.pending), Messages(xs), s.binary, cfg)
      && (t.pending == [] ==> Settled(false, Run(Client(cfg), s, t.wire), Messages(xs), s.binary, cfg))
  {
    hide AfterAll, Settled, Run;
    var link := Link(false, cfg.lp64, false);
    var t := AfterAll(xs, Side(EMPTY_TX, false), link).tx;
    FramesSentExactly(xs, EMPTY_TX, link);
    FramesAreStream(xs, link);
    assert [] + [] + Frames(xs, link) == Frames(xs, link);
    assert t.wire + [] == t.wire;
    ClientMixedRoundTrip(s, cfg, Messages(xs));
  }

  // ---------------------------------------------------------------- the connection

  function KindOf(opcode: byte): WriteKind
    requires IsData(opcode) || IsControl(opcode)
  {
    if opcode == TEXT then WriteText else if opcode == BINARY then WriteBinary
    else if opcode == CONTINUATION then WriteContinuation else if opcode == PING then WritePing
    else if opcode == PONG then WritePong else WriteCloseFrame
  }

  ghost function LinkOf(c: Connection): Link { Link(c.isClient, c.lp64, !c.noBufferAllPartialTx) }

  ghost function SideOf(c: Connection): Side
    reads c
  {
    Side(c.Tx(), c.insideFrame)
  }

  /** A connection an application may write to. */
  ghost predicate Ready(c: Connection)
    reads c, c.truncatedSend
  {
    c.TxValid() && c.state == Established && c.closeReason == 0 && |c.pending| < 0x8000_0000
  }

  lemma {:induction false} AfterAllSnoc(xs: seq<Sending>, x: Sending, s: Side, link: Link)
    requires AllWrite(xs + [x]) && AllWrite(xs) && AllProper(xs, s, link) && Proper(x, AfterAll(xs, s, link))
    requires x.Write? ==> Writes(x.m)
    ensures AllProper(xs + [x], s, link)
    ensures AfterAll(xs + [x], s, link) == After(x, AfterAll(xs, s, link), link)
    decreases |xs|
  {
    hide After;
    if xs == [] {
      assert (xs + [x])[1..] == [];
    } else {
      assert (xs + [x])[1..] == xs[1..] + [x];
      AfterAllSnoc(xs[1..], x, After(xs[0], s, link), link);
    }
  }

  /**
    An application's writes on a connection, whatever comes of them: each message is put
    behind the padding of buf and written; a write that would come while something is pending
    ends the run after n sendings.  The fields then stand for the run so far.
  */
  method Transmit(c: Connection, buf: array<byte>, xs: seq<Sending>) returns (n: nat)
    requires Ready(c) && buf != c.truncatedSend && buf != c.rxUserBuffer
    requires AllWrite(xs) && buf.Length < 0x8000_0000
    requires forall i :: 0 <= i < |xs| && xs[i].Write? ==> PRE_PADDING + |xs[i].m.payload| + POST_PADDING <= buf.Length
    modifies c, c.truncatedSend, buf
    ensures Ready(c) && n <= |xs| && AllWrite(xs[..n])
    ensures AllProper(xs[..n], old(SideOf(c)), LinkOf(c))
    ensures SideOf(c) == AfterAll(xs[..n], old(SideOf(c)), LinkOf(c))
    ensures n < |xs| ==> xs[n].Write? && c.pending != []
  {
    hide AfterAll, AllProper, ClientFrame, After;
    n := 0;
    AfterNone(SideOf(c), LinkOf(c));
    assert xs[..0] == [];
    while n < |xs|
      invariant n <= |xs| && Ready(c) && AllWrite(xs[..n])
      invariant c.truncatedSend == old(c.truncatedSend) || fresh(c.truncatedSend)
      invariant AllProper(xs[..n], old(SideOf(c)), LinkOf(c))
        && SideOf(c) == AfterAll(xs[..n], old(SideOf(c)), LinkOf(c))
    {
      var done := SendOne(c, buf, xs[n]);
      if !done { return; }
      OneMore(xs, n, old(SideOf(c)), LinkOf(c));
      n := n + 1;
    }
  }

  lemma AfterNone(s: Side, link: Link)
    ensures AllProper([], s, link) && AfterAll([], s, link) == s
  {}

  lemma OneMore(xs: seq<Sending>, n: nat, s: Side, link: Link)
    requires n < |xs| && AllWrite(xs) && AllWrite(xs[..n]) && AllProper(xs[..n], s, link)
    requires Proper(xs[n], AfterAll(xs[..n], s, link))
    ensures AllWrite(xs[..n + 1]) && AllProper(xs[..n + 1], s, link)
    ensures AfterAll(xs[..n + 1], s, link) == After(xs[n], AfterAll(xs[..n], s, link), link)
  {
    assert xs[..n + 1] == xs[..n] + [xs[n]];
    assert AllWrite(xs[..n + 1]);
    hide AfterAll, AllProper, After;
    AfterAllSnoc(xs[..n], xs[n], s, link);
  }

  /** One sending, unless it is a write and something is pending. */
  method SendOne(c: Connection, buf: array<byte>, x: Sending) returns (done: bool)
    requires Ready(c) && buf != c.truncatedSend && buf.Length < 0x8000_0000
    requires x.Write? ==> Writes(x.m) && PRE_PADDING + |x.m.payload| + POST_PADDING <= buf.Length
    modifies c`insideFrame, c`cleanBuffer, c`frameMaskingNonce, c`frameMaskIndex
    modifies c`wire, c`truncatedSend, c`truncatedSendOffset, c`truncatedSendLen, c`pending, c`pollout, c.truncatedSend
    modifies buf
    ensures Ready(c) && (c.truncatedSend == old(c.truncatedSend) || fresh(c.truncatedSend))
    ensures done == Proper(x, old(SideOf(c)))
    ensures SideOf(c) == if done then After(x, old(SideOf(c)), LinkOf(c)) else old(SideOf(c))
  {
    hide After;
    assert |c.pending| == c.truncatedSendLen;
    match x {
      case Flush(res) =>
        FlushOne(c, res);
        done := true;
      case Write(_, _, _) =>
        if c.truncatedSendLen > 0 { return false; }
        WriteOne(c, buf, x);
        done := true;
    }
  }

  /** A POLLOUT event */
  method FlushOne(c: Connection, res: SendResult)
    requires Ready(c)
    modifies c`wire, c`truncatedSend, c`truncatedSendOffset, c`truncatedSendLen, c`pending, c`pollout, c.truncatedSend
    ensures Ready(c) && (c.truncatedSend == old(c.truncatedSend) || fresh(c.truncatedSend))
    ensures SideOf(c) == After(Flush(res), old(SideOf(c)), LinkOf(c))
  {
    assert |c.pending| == c.truncatedSendLen;
    c.HandlePollout(Clamp(res, c.truncatedSendLen));
  }

  /** One message, written while nothing is pending. */
  method WriteOne(c: Connection, buf: array<byte>, x: Sending)
    requires Ready(c) && buf != c.truncatedSend && buf.Length < 0x8000_0000 && c.truncatedSendLen == 0
    requires x.Write? && Writes(x.m) && PRE_PADDING + |x.m.payload| + POST_PADDING <= buf.Length
    modifies c`insideFrame, c`cleanBuffer, c`frameMaskingNonce, c`frameMaskIndex
    modifies c`wire, c`truncatedSend, c`truncatedSendOffset, c`truncatedSendLen, c`pending, c`pollout, c.truncatedSend
    modifies buf
    ensures Ready(c) && (c.truncatedSend == old(c.truncatedSend) || fresh(c.truncatedSend))
    ensures Proper(x, old(SideOf(c))) && SideOf(c) == After(x, old(SideOf(c)), LinkOf(c))
  {
    hide ClientFrame, ServerFrame, IssueFresh;
    var p := x.m.payload;
    LoadPayload(buf, p);
    var protocol := Protocol(KindOf(x.m.opcode), !x.m.fin);
    assert Outgoing(protocol, p, 0) == x.m;
    FrameIsLonger(x, LinkOf(c));
    ghost var laid := Laid(x, c.insideFrame, LinkOf(c));
    var ret := c.Write(buf, PRE_PADDING, |p|, protocol, x.key, x.res);
    FreshIssued(old(c.Tx()), laid, !c.noBufferAllPartialTx, Clamp(x.res, |laid|));
  }

  lemma FreshIssued(t: TxState, buf: seq<byte>, clean: bool, res: SendResult)
    requires Possible(res, |buf|) && t.pending == []
    ensures var r := IssueFresh(t, buf, clean, res);
      |r.tx.pending| <= |buf| && (r.ret < 0 <==> buf != [] && res.SocketError?)
  {}

  method LoadPayload(buf: array<byte>, p: seq<byte>)
    requires PRE_PADDING + |p| <= buf.Length
    modifies buf
    ensures buf[PRE_PADDING..PRE_PADDING + |p|] == p
  {
    forall i | 0 <= i < |p| { buf[PRE_PADDING + i] := p[i]; }
  }
}
