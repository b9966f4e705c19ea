/**
  The transmit side of a connection (output.c): lws_issue_raw with its buffer for
  truncated sends, the flush on POLLOUT (service.c) and what libwebsocket_write
  makes of a partial send.  No extension is active and the socket's answers are
  arbitrary.
*/
module WsSend {
  import opened Bytes
  import opened WsFrame

  /** What the socket did with a buffer. */
  datatype SendResult = Accepted(n: nat) | WouldBlock | SocketError

  predicate Possible(res: SendResult, len: nat) { res.Accepted? ==> res.n <= len }

  /** A socket willing to take n bytes takes at most what it is offered. */
  function Clamp(res: SendResult, len: nat): (r: SendResult)
    ensures Possible(r, len)
  {
    if res.Accepted? && res.n > len then Accepted(len) else res
  }

  function Taken(res: SendResult): nat { if res.Accepted? then res.n else 0 }

  /** Bytes the socket has taken, and bytes buffered to go first next time. */
  datatype TxState = TxState(wire: seq<byte>, pending: seq<byte>)

  datatype Issued = Issued(tx: TxState, ret: int)

  /** lws_issue_raw on a fresh buffer; a clean buffer that was sent in part is left to the caller. */
  function IssueFresh(t: TxState, buf: seq<byte>, clean: bool, res: SendResult): Issued
    requires Possible(res, |buf|)
  {
    if buf == [] then Issued(t, 0)
    else if res.SocketError? then Issued(t, -1)
    else
      var n := Taken(res);
      var wire := t.wire + buf[..n];
      if n == |buf| || (n > 0 && clean) then Issued(TxState(wire, t.pending), n)
      else Issued(TxState(wire, buf[n..]), |buf|)
  }

  /** lws_issue_raw on its own pending buffer, as POLLOUT does. */
  function Flush(t: TxState, res: SendResult): Issued
    requires Possible(res, |t.pending|)
  {
    if t.pending == [] then Issued(t, 0)
    else if res.SocketError? then Issued(t, -1)
    else
      var n := Taken(res);
      Issued(TxState(t.wire + t.pending[..n], t.pending[n..]), n)
  }

  datatype TxOp = Issue(buf: seq<byte>, clean: bool, res: SendResult) | Pollout(res: SendResult)

  /** A new send while one is pending trips the assert in lws_issue_raw. */
  predicate Legal(t: TxState, op: TxOp) {
    match op
    case Issue(buf, _, res) => t.pending == [] && Possible(res, |buf|)
    case Pollout(res) => Possible(res, |t.pending|)
  }

  function Apply(t: TxState, op: TxOp): Issued
    requires Legal(t, op)
  {
    match op
    case Issue(buf, clean, res) => IssueFresh(t, buf, clean, res)
    case Pollout(res) => Flush(t, res)
  }

  /** What a call reports as consumed of a buffer handed in. */
  function AcceptedBytes(t: TxState, op: TxOp): seq<byte>
    requires Legal(t, op)
  {
    var r := Apply(t, op).ret;
    if op.Issue? && 0 <= r <= |op.buf| then op.buf[..r] else []
  }

  ghost predicate LegalRun(t: TxState, ops: seq<TxOp>)
    decreases |ops|
  {
    ops != [] ==> Legal(t, ops[0]) && LegalRun(Apply(t, ops[0]).tx, ops[1..])
  }

  ghost function RunTx(t: TxState, ops: seq<TxOp>): TxState
    requires LegalRun(t, ops)
    decreases |ops|
  {
    if ops == [] then t else RunTx(Apply(t, ops[0]).tx, ops[1..])
  }

  ghost function AllAccepted(t: TxState, ops: seq<TxOp>): seq<byte>
    requires LegalRun(t, ops)
    decreases |ops|
  {
    if ops == [] then [] else AcceptedBytes(t, ops[0]) + AllAccepted(Apply(t, ops[0]).tx, ops[1..])
  }

  /** A call's result is a count of the buffer handed in, or -1. */
  lemma IssueReturns(t: TxState, buf: seq<byte>, clean: bool, res: SendResult)
    requires Possible(res, |buf|)
    ensures var r := IssueFresh(t, buf, clean, res);
      -1 <= r.ret <= |buf| && (r.ret == -1 <==> buf != [] && res.SocketError?)
  {}

  lemma StepConserves(t: TxState, op: TxOp)
    requires Legal(t, op)
    ensures var t' := Apply(t, op).tx; t'.wire + t'.pending == t.wire + t.pending + AcceptedBytes(t, op)
  {
    match op {
      case Issue(buf, clean, res) =>
        var n := Taken(res);
        assert n <= |buf| ==> buf[..n] + buf[n..] == buf;
      case Pollout(res) =>
        var n := Taken(res);
        assert n <= |t.pending| ==> t.pending[..n] + t.pending[n..] == t.pending;
    }
  }

  /**
    Truncated-send conservation: over any run of sends and flushes, whatever the socket
    accepts, the bytes on the wire followed by the pending buffer are exactly the
    accepted prefixes of the issued buffers, in order.
  */
  lemma {:induction false} RunConserves(t: TxState, ops: seq<TxOp>)
    requires LegalRun(t, ops)
    ensures var t' := RunTx(t, ops); t'.wire + t'.pending == t.wire + t.pending + AllAccepted(t, ops)
    decreases |ops|
  {
    if ops != [] {
      StepConserves(t, ops[0]);
      RunConserves(Apply(t, ops[0]).tx, ops[1..]);
      assert t.wire + t.pending + AcceptedBytes(t, ops[0]) + AllAccepted(Apply(t, ops[0]).tx, ops[1..])
        == t.wire + t.pending + AllAccepted(t, ops);
    }
  }

  function Flushes(ops: seq<SendResult>): seq<TxOp> {
    if ops == [] then [] else [Pollout(ops[0])] + Flushes(ops[1..])
  }

  /** Once the flushes have accepted as many bytes as were pending, nothing is pending and all of it is on the wire. */
  lemma {:induction false} FlushesDrain(t: TxState, ops: seq<SendResult>)
    requires LegalRun(t, Flushes(ops))
    ensures var t' := RunTx(t, Flushes(ops)); t'.wire + t'.pending == t.wire + t.pending && |t.wire| <= |t'.wire|
    ensures RunTx(t, Flushes(ops)).pending == [] ==> RunTx(t, Flushes(ops)).wire == t.wire + t.pending
    decreases |ops|
  {
    RunConserves(t, Flushes(ops));
    FlushesAcceptNothing(t, ops);
    if ops != [] {
      assert Flushes(ops)[1..] == Flushes(ops[1..]);
      FlushesDrain(Apply(t, Pollout(ops[0])).tx, ops[1..]);
    }
  }

  lemma {:induction false} FlushesAcceptNothing(t: TxState, ops: seq<SendResult>)
    requires LegalRun(t, Flushes(ops))
    ensures AllAccepted(t, Flushes(ops)) == []
    decreases |ops|
  {
    if ops != [] {
      assert Flushes(ops)[1..] == Flushes(ops[1..]);
      FlushesAcceptNothing(Apply(t, Pollout(ops[0])).tx, ops[1..]);
    }
  }

  // ------------------------------------------------------ new sends while one is pending

  // What lws_issue_raw leaves when its assert is compiled out; Past is a pending buffer whose
  // remaining length has wrapped around zero.
  datatype Dispatch = Kept(issued: Issued) | Past(wire: seq<byte>, ret: int)

  /** A new buffer while one is pending: its bytes go out and are counted off the pending ones. */
  function IssueLate(t: TxState, buf: seq<byte>, res: SendResult): Dispatch
    requires Possible(res, |buf|)
  {
    if buf == [] then Kept(Issued(t, 0))
    else if res.SocketError? then Kept(Issued(t, -1))
    else
      var n := Taken(res);
      var wire := t.wire + buf[..n];
      if n > |t.pending| then Past(wire, n)
      else Kept(Issued(TxState(wire, t.pending[n..]), if n == |t.pending| then |buf| else n))
  }

  /** The socket can do this, whether or not something is pending. */
  predicate PossibleOp(t: TxState, op: TxOp) {
    match op
    case Issue(buf, _, res) => Possible(res, |buf|)
    case Pollout(res) => Possible(res, |t.pending|)
  }

  function ApplyAny(t: TxState, op: TxOp): Dispatch
    requires PossibleOp(t, op)
  {
    if op.Issue? && t.pending != [] then IssueLate(t, op.buf, op.res) else Kept(Apply(t, op))
  }

  function AcceptedOfAny(t: TxState, op: TxOp): seq<byte>
    requires PossibleOp(t, op)
  {
    var o := ApplyAny(t, op);
    var r := if o.Kept? then o.issued.ret else o.ret;
    if op.Issue? && 0 <= r <= |op.buf| then op.buf[..r] else []
  }

  /** The socket takes bytes of a new buffer while an older one is pending. */
  predicate Intrudes(t: TxState, op: TxOp) { op.Issue? && t.pending != [] && Taken(op.res) > 0 }

  /** The bytes on the socket and behind them the pending ones are these. */
  predicate Holds(o: Dispatch, bytes: seq<byte>) { o.Kept? && o.issued.tx.wire + o.issued.tx.pending == bytes }

  predicate Short(o: Dispatch, bytes: seq<byte>) {
    o.Past? || |o.issued.tx.wire + o.issued.tx.pending| < |bytes|
  }

  /** A send or flush keeps the bytes exactly if it does not intrude; if it does, bytes are missing. */
  lemma AnyStepConservesExactly(t: TxState, op: TxOp)
    requires PossibleOp(t, op)
    ensures var bytes := t.wire + t.pending + AcceptedOfAny(t, op);
      && (Holds(ApplyAny(t, op), bytes) <==> !Intrudes(t, op))
      && (Intrudes(t, op) ==> Short(ApplyAny(t, op), bytes))
  {
    if op.Issue? && t.pending != [] {
      if !Intrudes(t, op) { assert t.wire + [] == t.wire && t.wire + t.pending + [] == t.wire + t.pending; }
    } else {
      StepConserves(t, op);
    }
  }

  /** What a call offers the socket. */
  function Offered(t: TxState, op: TxOp): seq<byte> { if op.Issue? then op.buf else t.pending }

  function WireOf(o: Dispatch): seq<byte> { if o.Kept? then o.issued.tx.wire else o.wire }

  function ReturnOf(o: Dispatch): int { if o.Kept? then o.issued.ret else o.ret }

  /**
    Whatever is pending, a send or flush puts on the socket exactly what that takes, from the
    front of what it was offered; it answers -1 exactly if there was something to offer and the
    socket failed, and 0 if there was nothing.
  */
  lemma SentExactly(t: TxState, op: TxOp)
    requires PossibleOp(t, op)
    ensures var o, n := ApplyAny(t, op), Taken(op.res);
      && WireOf(o) == t.wire + Offered(t, op)[..n]
      && (ReturnOf(o) == -1 <==> Offered(t, op) != [] && op.res.SocketError?) && ReturnOf(o) >= -1
      && (Offered(t, op) == [] ==> ReturnOf(o) == 0)
      && (op.Pollout? && ReturnOf(o) >= 0 ==> ReturnOf(o) == n)
  {
    assert t.wire + [] == t.wire;
    if Taken(op.res) == 0 { assert Offered(t, op)[..0] == []; }
  }

  /** What an intruding send does: its bytes stand where the next pending ones belong. */
  lemma LateOverwrites(t: TxState, buf: seq<byte>, res: SendResult)
    requires Possible(res, |buf|) && buf != [] && !res.SocketError? && Taken(res) <= |t.pending|
    ensures var tx, n := IssueLate(t, buf, res).issued.tx, Taken(res);
      && tx.wire + tx.pending == t.wire + (buf[..n] + t.pending[n..])
      && (tx.wire + tx.pending == t.wire + t.pending <==> buf[..n] == t.pending[..n])
      && tx.wire + tx.pending != t.wire + t.pending + buf
  {
    var n := Taken(res);
    Overwritten(t.wire, t.pending, buf[..n]);
    assert |t.wire + (buf[..n] + t.pending[n..])| == |t.wire + t.pending|;
  }

  lemma Overwritten(wire: seq<byte>, pending: seq<byte>, b: seq<byte>)
    requires |b| <= |pending|
    ensures wire + b + pending[|b|..] == wire + (b + pending[|b|..])
    ensures wire + (b + pending[|b|..]) == wire + pending <==> b == pending[..|b|]
  {
    var n, w := |b|, |wire|;
    assert pending == pending[..n] + pending[n..];
    if wire + (b + pending[n..]) == wire + pending {
      assert (wire + (b + pending[n..]))[w..][..n] == b && (wire + pending)[w..][..n] == pending[..n];
    }
  }

  ghost predicate PossibleRun(t: TxState, ops: seq<TxOp>)
    decreases |ops|
  {
    ops == [] || (PossibleOp(t, ops[0])
      && (ApplyAny(t, ops[0]).Kept? ==> PossibleRun(ApplyAny(t, ops[0]).issued.tx, ops[1..])))
  }

  /** A run that takes whatever is issued; it ends where the pending length wraps. */
  ghost function RunAny(t: TxState, ops: seq<TxOp>): Dispatch
    requires PossibleRun(t, ops)
    decreases |ops|
  {
    if ops == [] then Kept(Issued(t, 0))
    else
      var o := ApplyAny(t, ops[0]);
      if o.Past? then o else RunAny(o.issued.tx, ops[1..])
  }

  ghost function AcceptedInAny(t: TxState, ops: seq<TxOp>): seq<byte>
    requires PossibleRun(t, ops)
    decreases |ops|
  {
    if ops == [] then []
    else
      var o := ApplyAny(t, ops[0]);
      AcceptedOfAny(t, ops[0]) + if o.Past? then [] else AcceptedInAny(o.issued.tx, ops[1..])
  }

  /** Some send of the run intrudes. */
  ghost predicate AnyIntrudes(t: TxState, ops: seq<TxOp>)
    requires PossibleRun(t, ops)
    decreases |ops|
  {
    ops != [] && (Intrudes(t, ops[0])
      || (ApplyAny(t, ops[0]).Kept? && AnyIntrudes(ApplyAny(t, ops[0]).issued.tx, ops[1..])))
  }

  /**
    Over any run of sends and flushes, also of pongs and closes issued while something is
    pending: the bytes reported as taken are on the socket or pending, in order, exactly when
    the socket took no byte of a new buffer in front of a pending one.
  */
  lemma {:induction false} AnyRunConservesExactly(t: TxState, ops: seq<TxOp>)
    requires PossibleRun(t, ops)
    ensures var bytes := t.wire + t.pending + AcceptedInAny(t, ops);
      && (Holds(RunAny(t, ops), bytes) <==> !AnyIntrudes(t, ops))
      && (AnyIntrudes(t, ops) ==> Short(RunAny(t, ops), bytes))
    decreases |ops|
  {
    hide ApplyAny, AcceptedOfAny, Intrudes;
    if ops == [] {
      assert t.wire + t.pending + [] == t.wire + t.pending;
    } else {
      var o, first := ApplyAny(t, ops[0]), AcceptedOfAny(t, ops[0]);
      AnyStepConservesExactly(t, ops[0]);
      if o.Kept? {
        var rest := AcceptedInAny(o.issued.tx, ops[1..]);
        AnyRunConservesExactly(o.issued.tx, ops[1..]);
        assert t.wire + t.pending + AcceptedInAny(t, ops) == t.wire + t.pending + first + rest;
      }
    }
  }

  // ------------------------------------------------- what libwebsocket_write reports

  /** lws_issue_raw_ext_access without extensions: everything, unless the socket failed. */
  function IssueExtAccess(t: TxState, buf: seq<byte>, clean: bool, res: SendResult): Issued
    requires Possible(res, |buf|)
  {
    var r := IssueFresh(t, buf, clean, res);
    if r.ret < 0 then Issued(r.tx, -1) else Issued(r.tx, |buf|)
  }

  /**
    The wrapper answers "all of it" even when lws_issue_raw left a clean buffer to its
    caller.  Its answer is true exactly when that did not happen.
  */
  lemma ReportedSendExactly(t: TxState, buf: seq<byte>, clean: bool, res: SendResult)
    requires Possible(res, |buf|) && t.pending == [] && !res.SocketError?
    ensures IssueExtAccess(t, buf, clean, res).ret == |buf|
    ensures var t' := IssueExtAccess(t, buf, clean, res).tx;
      t'.wire + t'.pending == t.wire + buf <==> !(clean && 0 < Taken(res) < |buf|)
  {
    var n, t' := Taken(res), IssueExtAccess(t, buf, clean, res).tx;
    StepConserves(t, Issue(buf, clean, res));
    assert t.wire + [] == t.wire;
    if clean && 0 < n < |buf| {
      assert |t'.wire + t'.pending| == |t.wire| + n;
    } else if buf != [] {
      assert AcceptedBytes(t, Issue(buf, clean, res)) == buf;
    }
  }

  /** The wrapper fails exactly when the socket does. */
  lemma ReportedFailureExactly(t: TxState, buf: seq<byte>, clean: bool, res: SendResult)
    requires Possible(res, |buf|) && buf != []
    ensures IssueExtAccess(t, buf, clean, res).ret == (if res.SocketError? then -1 else |buf|)
  {
    IssueReturns(t, buf, clean, res);
  }
}
