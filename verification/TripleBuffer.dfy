/**
  The lock-free exchange of telemetry between the iRacing SDK server
  (irsdk_memserver.cpp) and a client (irsdk_getNewData in irsdk_utils.cpp): the
  server fills three buffers in turn and stamps each with a tick, the client picks
  the newest tick, copies the buffer byte by byte and keeps the copy if the tick
  has not changed.  Every memory access is a step of its own and steps of the two
  sides interleave freely.
*/
module TripleBuffer {
  import opened Bytes

  const INT_MAX := 0x7fff_ffff

  /** curBuf and count; stamped after the tick of curBuf is written and before the switch. */
  datatype Writer = Writer(curBuf: nat, count: nat, stamped: bool)

  datatype Reader =
    | Idle
    // the scan loop compares varBuf[latest] with varBuf[i], reading both ticks in either order
    | Scan(i: nat, latest: nat, a: int, haveA: bool, b: int, haveB: bool)
    | Newer(latest: nat)                 // lastTickCount < varBuf[latest].tickCount ?
    | Older(latest: nat)                 // lastTickCount > varBuf[latest].tickCount ?
    | Rewind(latest: nat)                // lastTickCount = varBuf[latest].tickCount
    | Sample(latest: nat, attempt: nat)  // curTickCount = varBuf[latest].tickCount
    | Copy(latest: nat, attempt: nat, curTick: int, data: seq<byte>, seen: nat)

  /**
    A copy handed to the caller; seen is the server's count when the last byte was read, asked
    the last tick published when the call that gave it started.
  */
  datatype Copied = Copied(tick: int, data: seq<byte>, seen: nat, asked: int)

  /**
    The client's calls so far: the last tick published when the latest call that found the server
    online started, the highest tick its scan has read, and the last tick published when the call
    that rewound started, INT_MAX while none has since the client saw the server offline.
  */
  datatype Calls = Calls(asked: int, met: int, joined: int)

  /**
    Shared memory (bufs, tick, connected), both programs' variables, and the history:
    published[t] is the data stamped with tick t, written[t] the (place, value) pairs
    stored while count was t, accepted the copies since the client last saw the server offline.
  */
  datatype State = State(
    bufs: seq<seq<byte>>, tick: seq<int>, connected: bool,
    w: Writer, r: Reader, lastTick: int,
    published: seq<seq<byte>>, written: seq<set<(nat, byte)>>, accepted: seq<Copied>, lastBuf: nat, calls: Calls)

  datatype Action =
    | Store(k: nat, v: byte)     // resetSampleVars, setVar or pollSampleVars writes one byte
    | Stamp | Switch             // the end of pollSampleVars
    | SetStatus(on: bool)
    | Start | ReadLatest | ReadOther | Compare
    | TestNewer | TestOlder | DoRewind | TakeTick | CopyByte | Confirm

  predicate Enabled(s: State, a: Action)
    requires Shaped(s)
  {
    match a
    case Store(k, v) => !s.w.stamped && k < |s.bufs[s.w.curBuf]|
    case Stamp => !s.w.stamped && s.w.count < INT_MAX
    case Switch => s.w.stamped
    case SetStatus(on) => true
    case Start => s.r.Idle?
    case ReadLatest => s.r.Scan? && !s.r.haveA
    case ReadOther => s.r.Scan? && !s.r.haveB
    case Compare => s.r.Scan? && s.r.haveA && s.r.haveB
    case TestNewer => s.r.Newer?
    case TestOlder => s.r.Older?
    case DoRewind => s.r.Rewind?
    case TakeTick => s.r.Sample?
    case CopyByte => s.r.Copy? && |s.r.data| < |s.bufs[s.r.latest]|
    case Confirm => s.r.Copy? && |s.r.data| == |s.bufs[s.r.latest]|
  }

  predicate Shaped(s: State) {
    && |s.bufs| == |s.tick| == 3 && s.w.curBuf < 3 && s.w.count < |s.written|
    && (s.r.Scan? ==> 1 <= s.r.i < 3)
    && (!s.r.Idle? ==> s.r.latest < 3)
  }

  function Met(c: Calls, tick: int): Calls { if tick > c.met then c.(met := tick) else c }

  function Next(s: State, a: Action): State
    requires Shaped(s) && Enabled(s, a)
  {
    match a
    case Store(k, v) =>
      var row: seq<byte> := s.bufs[s.w.curBuf];
      s.(bufs := s.bufs[s.w.curBuf := row[k := v]],
         written := s.written[s.w.count := s.written[s.w.count] + {(k, v)}])
    case Stamp =>
      s.(tick := s.tick[s.w.curBuf := s.w.count], published := s.published + [s.bufs[s.w.curBuf]],
        w := s.w.(stamped := true))
    case Switch =>
      s.(w := Writer((s.w.curBuf + 1) % 3, s.w.count + 1, false), written := s.written + [{}])
    case SetStatus(on) => s.(connected := on)
    case Start =>
      if !s.connected then s.(lastTick := INT_MAX, accepted := [], calls := s.calls.(joined := INT_MAX))
      else s.(r := Scan(1, 0, 0, false, 0, false), calls := s.calls.(asked := |s.published| - 1, met := -1))
    case ReadLatest => s.(r := s.r.(a := s.tick[s.r.latest], haveA := true), calls := Met(s.calls, s.tick[s.r.latest]))
    case ReadOther => s.(r := s.r.(b := s.tick[s.r.i], haveB := true), calls := Met(s.calls, s.tick[s.r.i]))
    case Compare =>
      var latest := if s.r.a < s.r.b then s.r.i else s.r.latest;
      s.(r := if s.r.i == 2 then Newer(latest) else Scan(s.r.i + 1, latest, 0, false, 0, false))
    case TestNewer => s.(r := if s.lastTick < s.tick[s.r.latest] then Sample(s.r.latest, 0) else Older(s.r.latest))
    case TestOlder => s.(r := if s.lastTick > s.tick[s.r.latest] then Rewind(s.r.latest) else Idle)
    case DoRewind =>
      s.(r := Idle, lastTick := s.tick[s.r.latest], lastBuf := s.r.latest,
        calls := s.calls.(joined := s.calls.asked))
    case TakeTick => s.(r := Copy(s.r.latest, s.r.attempt, s.tick[s.r.latest], [], s.w.count))
    case CopyByte => s.(r := s.r.(data := s.r.data + [s.bufs[s.r.latest][|s.r.data|]], seen := s.w.count))
    case Confirm =>
      if s.r.curTick == s.tick[s.r.latest] then
        s.(r := Idle, lastTick := s.r.curTick, lastBuf := s.r.latest,
          accepted := s.accepted + [Copied(s.r.curTick, s.r.data, s.r.seen, s.calls.asked)])
      else if s.r.attempt == 0 then s.(r := Sample(s.r.latest, 1))
      else s.(r := Idle)
  }

  /** Fresh after finalizeHeader: no tick published, the client not started. */
  predicate Initial(s: State, len: nat) {
    && |s.bufs| == 3 && (forall b :: 0 <= b < 3 ==> |s.bufs[b]| == len) && s.tick == [-1, -1, -1]
    && s.w == Writer(0, 0, false) && s.r == Idle && s.lastTick == INT_MAX
    && s.published == [] && s.written == [{}] && s.accepted == [] && s.lastBuf == 0 && s.calls == Calls(-1, -1, INT_MAX)
  }

  ghost predicate Run(s: State, actions: seq<Action>, t: State)
    decreases |actions|
  {
    if actions == [] then s == t
    else Shaped(s) && Enabled(s, actions[0]) && Run(Next(s, actions[0]), actions[1..], t)
  }

  // ------------------------------------------------------------------ invariant

  /** The last of the ticks 0..n-1 that belong to buffer b, or -1. */
  function LastTickOf(b: nat, n: nat): int {
    if n == 0 then -1 else if (n - 1) % 3 == b then n - 1 else LastTickOf(b, n - 1)
  }

  /** v may stand at place k of a buffer stamped c: it was published, or the refill for tick c + 3 put it there. */
  predicate FromTick(s: State, c: int, k: nat, v: byte) {
    && 0 <= c < |s.published| && k < |s.published[c]|
    && (v == s.published[c][k] || (c + 3 < |s.written| && (k, v) in s.written[c + 3]))
  }

  ghost predicate WriterInv(s: State, len: nat) {
    && Shaped(s)
    && s.w.count <= INT_MAX && s.w.curBuf == s.w.count % 3 && |s.written| == s.w.count + 1
    && |s.published| == s.w.count + (if s.w.stamped then 1 else 0) && |s.published| <= INT_MAX
    && (forall b :: 0 <= b < 3 ==> |s.bufs[b]| == len)
    && (forall t :: 0 <= t < |s.published| ==> |s.published[t]| == len)
    && (forall b :: 0 <= b < 3 ==> s.tick[b] == LastTickOf(b, |s.published|))
    && (forall b :: 0 <= b < 3 && s.tick[b] >= 0 ==> BufferInv(s, b))
  }

  ghost predicate BufferInv(s: State, b: nat)
    requires Shaped(s) && b < 3
  {
    forall k :: 0 <= k < |s.bufs[b]| ==> FromTick(s, s.tick[b], k, s.bufs[b][k])
  }

  /** What the client holds is backed by ticks that only grow. */
  ghost predicate ReaderInv(s: State)
    requires Shaped(s)
  {
    && s.lastBuf < 3 && s.lastTick >= -1 && (s.lastTick != INT_MAX ==> s.lastTick <= s.tick[s.lastBuf])
    && match s.r
       case Idle => true
       case Scan(i, latest, a, haveA, b, haveB) =>
         && (haveA ==> a <= s.tick[latest]) && (haveB ==> b <= s.tick[i])
         && (haveA && s.lastTick != INT_MAX && Seen(s.lastBuf, i) ==> s.lastTick <= a)
         && (haveB && s.lastTick != INT_MAX && s.lastBuf == i ==> s.lastTick <= b)
         && (s.lastTick != INT_MAX && Seen(s.lastBuf, i) ==> s.lastTick <= s.tick[latest])
       case Newer(latest) => s.lastTick != INT_MAX ==> s.lastTick <= s.tick[latest]
       case Older(latest) => s.lastTick != INT_MAX ==> s.lastTick <= s.tick[latest]
       case Rewind(latest) => s.lastTick == INT_MAX
       case Sample(latest, attempt) => s.lastTick < s.tick[latest]
       case Copy(latest, attempt, curTick, data, seen) => s.lastTick < curTick <= s.tick[latest] && CopyInv(s)
  }

  /** The buffers the scan has dealt with before it looks at i. */
  predicate Seen(b: nat, i: nat) { b < i }

  ghost predicate CopyInv(s: State)
    requires Shaped(s) && s.r.Copy?
  {
    s.r.curTick == s.tick[s.r.latest] ==> CopyOk(s, s.r.curTick, s.r.data, s.r.seen)
  }

  ghost predicate CopyOk(s: State, c: int, data: seq<byte>, seen: nat) {
    && 0 <= c < |s.published| && |data| <= |s.published[c]| && seen <= s.w.count
    && (forall k :: 0 <= k < |data| ==> FromTick(s, c, k, data[k]))
    && (seen < c + 3 ==> data == s.published[c][..|data|])
  }

  ghost predicate AcceptedInv(s: State, len: nat) {
    && (forall i :: 0 <= i < |s.accepted| ==> Whole(s, s.accepted[i], len))
    && (forall i, j :: 0 <= i < j < |s.accepted| ==> s.accepted[i].tick < s.accepted[j].tick)
    && (s.accepted != [] ==> s.lastTick == s.accepted[|s.accepted| - 1].tick < INT_MAX)
  }

  ghost predicate Whole(s: State, c: Copied, len: nat) {
    CopyOk(s, c.tick, c.data, c.seen) && |c.data| == len
  }

  ghost predicate Inv(s: State, len: nat) {
    WriterInv(s, len) && ReaderInv(s) && AcceptedInv(s, len)
  }

  // ---------------------------------------------------------------- preservation

  lemma {:induction false} LastTickBelow(b: nat, n: nat)
    ensures -1 <= LastTickOf(b, n) < n && (LastTickOf(b, n) >= 0 ==> LastTickOf(b, n) % 3 == b)
  {
    if n > 0 && (n - 1) % 3 != b { LastTickBelow(b, n - 1); }
  }

  /** The buffer whose turn it is was stamped three ticks ago, if ever. */
  lemma TurnOf(n: nat)
    ensures LastTickOf(n % 3, n) == if n < 3 then -1 else n - 3
  {
    if n < 3 {
      assert LastTickOf(n % 3, 0) == -1;
      if n > 0 { assert LastTickOf(n % 3, 1) == -1; }
    } else {
      assert (n - 1) % 3 != n % 3 && (n - 2) % 3 != n % 3 && (n - 3) % 3 == n % 3;
      assert LastTickOf(n % 3, n) == LastTickOf(n % 3, n - 1) == LastTickOf(n % 3, n - 2) == n - 3;
    }
  }

  lemma InitialInv(s: State, len: nat)
    requires Initial(s, len)
    ensures Inv(s, len)
  {}

  /** History only grows: what came from a tick still does. */
  lemma FromTickStays(s: State, t: State, c: int, k: nat, v: byte)
    requires FromTick(s, c, k, v) && History(s, t)
    ensures FromTick(t, c, k, v)
  {}

  ghost predicate History(s: State, t: State) {
    && s.published <= t.published && |s.written| <= |t.written| && s.w.count <= t.w.count
    && forall i :: 0 <= i < |s.written| ==> s.written[i] <= t.written[i]
  }

  lemma CopyStays(s: State, t: State, c: int, data: seq<byte>, seen: nat)
    requires CopyOk(s, c, data, seen) && History(s, t)
    ensures CopyOk(t, c, data, seen)
  {
    forall k | 0 <= k < |data| ensures FromTick(t, c, k, data[k]) { FromTickStays(s, t, c, k, data[k]); }
  }

  lemma AcceptedStays(s: State, t: State, len: nat)
    requires AcceptedInv(s, len) && History(s, t) && t.accepted == s.accepted && t.lastTick == s.lastTick
    ensures AcceptedInv(t, len)
  {
    forall i | 0 <= i < |t.accepted| ensures Whole(t, t.accepted[i], len) {
      assert Whole(s, s.accepted[i], len);
      CopyStays(s, t, s.accepted[i].tick, s.accepted[i].data, s.accepted[i].seen);
    }
  }

  /** The server's side of a step leaves the client's variables alone and lets ticks only grow. */
  ghost predicate ServerMoves(s: State, t: State)
    requires Shaped(s) && Shaped(t)
  {
    && History(s, t) && t.r == s.r && t.lastTick == s.lastTick && t.accepted == s.accepted && t.lastBuf == s.lastBuf
    && forall b :: 0 <= b < 3 ==> s.tick[b] <= t.tick[b] && (s.tick[b] == t.tick[b] || t.tick[b] >= |s.published|)
  }

  lemma ReaderStays(s: State, t: State, len: nat)
    requires WriterInv(s, len) && ReaderInv(s) && Shaped(t) && ServerMoves(s, t)
    ensures ReaderInv(t)
  {
    if s.r.Copy? && s.r.curTick == t.tick[s.r.latest] {
      assert s.tick[s.r.latest] == LastTickOf(s.r.latest, |s.published|);
      LastTickBelow(s.r.latest, |s.published|);
      CopyStays(s, t, s.r.curTick, s.r.data, s.r.seen);
    }
  }

  lemma StoreKeeps(s: State, len: nat, k: nat, v: byte)
    requires Inv(s, len) && Enabled(s, Store(k, v))
    ensures Inv(Next(s, Store(k, v)), len)
  {
    var t := Next(s, Store(k, v));
    assert History(s, t);
    TurnOf(s.w.count);
    forall b | 0 <= b < 3 && t.tick[b] >= 0 ensures BufferInv(t, b) {
      assert BufferInv(s, b);
      forall j | 0 <= j < |t.bufs[b]| ensures FromTick(t, t.tick[b], j, t.bufs[b][j]) {
        if b != s.w.curBuf || j != k { FromTickStays(s, t, s.tick[b], j, s.bufs[b][j]); }
      }
    }
    ReaderStays(s, t, len);
    AcceptedStays(s, t, len);
  }

  lemma StampKeeps(s: State, len: nat)
    requires Inv(s, len) && Enabled(s, Stamp)
    ensures Inv(Next(s, Stamp), len)
  {
    var t, n := Next(s, Stamp), s.w.count;
    assert History(s, t) && |s.published| == n;
    TurnOf(n);
    forall b | 0 <= b < 3 ensures t.tick[b] == LastTickOf(b, n + 1) {}
    forall b | 0 <= b < 3 && t.tick[b] >= 0 ensures BufferInv(t, b) {
      if b != s.w.curBuf {
        assert BufferInv(s, b);
        forall j | 0 <= j < |t.bufs[b]|
          ensures FromTick(t, t.tick[b], j, t.bufs[b][j])
        {
          FromTickStays(s, t, s.tick[b], j, s.bufs[b][j]);
        }
      }
    }
    ReaderStays(s, t, len);
    AcceptedStays(s, t, len);
  }

  lemma SwitchKeeps(s: State, len: nat)
    requires Inv(s, len) && Enabled(s, Switch)
    ensures Inv(Next(s, Switch), len)
  {
    var t := Next(s, Switch);
    assert History(s, t) && t.bufs == s.bufs && t.tick == s.tick;
    forall b | 0 <= b < 3 && t.tick[b] >= 0 ensures BufferInv(t, b) {
      assert BufferInv(s, b);
      forall j | 0 <= j < |t.bufs[b]|
        ensures FromTick(t, t.tick[b], j, t.bufs[b][j])
      {
        FromTickStays(s, t, s.tick[b], j, s.bufs[b][j]);
      }
    }
    ReaderStays(s, t, len);
    AcceptedStays(s, t, len);
  }

  /** A step of the client: the server's part of the state is untouched. */
  lemma WriterStays(s: State, t: State, len: nat)
    requires WriterInv(s, len) && Shaped(t)
    requires t.bufs == s.bufs && t.tick == s.tick && t.w == s.w && t.published == s.published && t.written == s.written
    ensures WriterInv(t, len)
  {
    forall b | 0 <= b < 3 && t.tick[b] >= 0 ensures BufferInv(t, b) {
      assert BufferInv(s, b);
      forall j | 0 <= j < |t.bufs[b]|
        ensures FromTick(t, t.tick[b], j, t.bufs[b][j])
      {
        FromTickStays(s, t, s.tick[b], j, s.bufs[b][j]);
      }
    }
  }

  predicate ScanAction(a: Action) {
    a.SetStatus? || a.Start? || a.ReadLatest? || a.ReadOther? || a.Compare? || a.TestNewer? || a.TestOlder?
      || a.DoRewind?
  }

  lemma TicksInRange(s: State, len: nat, b: nat)
    requires WriterInv(s, len) && b < 3
    ensures -1 <= s.tick[b] < INT_MAX
  {
    LastTickBelow(b, |s.published|);
    assert s.tick[b] == LastTickOf(b, |s.published|);
  }

  /** One comparison of the scan: the candidate still carries at least lastTickCount. */
  lemma CompareReader(s: State)
    requires Shaped(s) && ReaderInv(s) && Enabled(s, Compare)
    ensures Shaped(Next(s, Compare)) && ReaderInv(Next(s, Compare))
  {}

  lemma ScanReader(s: State, len: nat, a: Action)
    requires WriterInv(s, len) && ReaderInv(s) && Enabled(s, a) && ScanAction(a) && !a.Compare?
    ensures Shaped(Next(s, a)) && ReaderInv(Next(s, a))
  {
    TicksInRange(s, len, 0);
    TicksInRange(s, len, 1);
    TicksInRange(s, len, 2);
    match a {
      case Start =>
      case ReadLatest =>
      case ReadOther =>
      case TestNewer =>
      case TestOlder =>
      case DoRewind =>
      case _ =>
    }
  }

  lemma ScanKeeps(s: State, len: nat, a: Action)
    requires Inv(s, len) && Enabled(s, a) && ScanAction(a)
    ensures Inv(Next(s, a), len)
  {
    var t := Next(s, a);
    if a.Compare? { CompareReader(s); } else { ScanReader(s, len, a); }
    WriterStays(s, t, len);
    if t.accepted != [] { AcceptedStays(s, t, len); }
  }

  lemma TakeTickKeeps(s: State, len: nat)
    requires Inv(s, len) && Enabled(s, TakeTick)
    ensures Inv(Next(s, TakeTick), len)
  {
    var t := Next(s, TakeTick);
    WriterStays(s, t, len);
    AcceptedStays(s, t, len);
    TicksInRange(s, len, s.r.latest);
    LastTickBelow(s.r.latest, |s.published|);
  }

  lemma CopyByteKeeps(s: State, len: nat)
    requires Inv(s, len) && Enabled(s, CopyByte)
    ensures Inv(Next(s, CopyByte), len)
  {
    var t, b, c, k := Next(s, CopyByte), s.r.latest, s.r.curTick, |s.r.data|;
    WriterStays(s, t, len);
    AcceptedStays(s, t, len);
    if c == s.tick[b] {
      assert CopyOk(s, c, s.r.data, s.r.seen);
      assert BufferInv(s, b) && FromTick(s, c, k, s.bufs[b][k]);
      CopyStays(s, t, c, s.r.data, s.r.seen);
      assert FromTick(t, c, k, s.bufs[b][k]);
      assert t.r.data[..k] == s.r.data;
    }
  }

  lemma AppendAccepted(s: State, t: State, len: nat, c: Copied)
    requires AcceptedInv(s, len) && History(s, t) && t.accepted == s.accepted + [c] && t.lastTick == c.tick < INT_MAX
    requires Whole(t, c, len) && (s.accepted != [] ==> s.lastTick < c.tick)
    ensures AcceptedInv(t, len)
  {
    forall i | 0 <= i < |t.accepted| ensures Whole(t, t.accepted[i], len) {
      if i < |s.accepted| {
        assert Whole(s, s.accepted[i], len);
        CopyStays(s, t, s.accepted[i].tick, s.accepted[i].data, s.accepted[i].seen);
      }
    }
  }

  lemma ConfirmReader(s: State, len: nat)
    requires WriterInv(s, len) && ReaderInv(s) && Enabled(s, Confirm)
    ensures Shaped(Next(s, Confirm)) && ReaderInv(Next(s, Confirm))
  {
    hide CopyInv, BufferInv, LastTickOf;
  }

  lemma ConfirmKeeps(s: State, len: nat)
    requires Inv(s, len) && Enabled(s, Confirm)
    ensures Inv(Next(s, Confirm), len)
  {
    var t := Next(s, Confirm);
    ConfirmReader(s, len);
    WriterStays(s, t, len);
    TicksInRange(s, len, s.r.latest);
    hide WriterInv, BufferInv;
    if s.r.curTick == s.tick[s.r.latest] {
      CopyStays(s, t, s.r.curTick, s.r.data, s.r.seen);
      AppendAccepted(s, t, len, Copied(s.r.curTick, s.r.data, s.r.seen, s.calls.asked));
    } else {
      AcceptedStays(s, t, len);
    }
  }

  lemma NextKeeps(s: State, len: nat, a: Action)
    requires Inv(s, len) && Enabled(s, a)
    ensures Inv(Next(s, a), len)
  {
    match a {
      case Store(k, v) => StoreKeeps(s, len, k, v);
      case Stamp => StampKeeps(s, len);
      case Switch => SwitchKeeps(s, len);
      case TakeTick => TakeTickKeeps(s, len);
      case CopyByte => CopyByteKeeps(s, len);
      case Confirm => ConfirmKeeps(s, len);
      case _ => ScanKeeps(s, len, a);
    }
  }

  lemma {:induction false} RunKeeps(s: State, len: nat, actions: seq<Action>, t: State)
    requires Inv(s, len) && Run(s, actions, t)
    ensures Inv(t, len)
    decreases |actions|
  {
    if actions != [] {
      NextKeeps(s, len, actions[0]);
      RunKeeps(Next(s, actions[0]), len, actions[1..], t);
    }
  }

  // -------------------------------------------------------------------- theorems

  /**
    Every copy the client keeps, in every interleaving: each byte was published with the
    copy's tick or stored by the refill for the tick three later, and if fewer than two
    more polls had completed when the last byte was read, the copy is exactly the data
    published with that tick.
  */
  lemma AcceptedCopies(s: State, len: nat, actions: seq<Action>, t: State, i: nat)
    requires Initial(s, len) && Run(s, actions, t) && i < |t.accepted|
    ensures var c := t.accepted[i];
      && 0 <= c.tick < |t.published| && |c.data| == |t.published[c.tick]| == len
      && (forall k :: 0 <= k < len ==>
            c.data[k] == t.published[c.tick][k]
            || (c.tick + 3 < |t.written| && (k, c.data[k]) in t.written[c.tick + 3]))
      && (c.seen <= c.tick + 2 ==> c.data == t.published[c.tick])
  {
    InitialInv(s, len);
    RunKeeps(s, len, actions, t);
    var c := t.accepted[i];
    assert Whole(t, c, len);
    forall k | 0 <= k < len
      ensures c.data[k] == t.published[c.tick][k]
        || (c.tick + 3 < |t.written| && (k, c.data[k]) in t.written[c.tick + 3])
    { assert FromTick(t, c.tick, k, c.data[k]); }
    assert t.published[c.tick][..len] == t.published[c.tick];
  }

  /** While the client sees the server connected, the ticks it is given strictly increase. */
  lemma AcceptedTicksIncrease(s: State, len: nat, actions: seq<Action>, t: State, i: nat, j: nat)
    requires Initial(s, len) && Run(s, actions, t) && i < j < |t.accepted|
    ensures t.accepted[i].tick < t.accepted[j].tick
  {
    InitialInv(s, len);
    RunKeeps(s, len, actions, t);
  }

  // ------------------------------------------------------ the assumption is needed

  lemma {:induction false} RunJoin(s: State, a: seq<Action>, t: State, b: seq<Action>, u: State)
    requires Run(s, a, t) && Run(t, b, u)
    ensures Run(s, a + b, u)
    decreases |a|
  {
    if a == [] {
      assert a + b == b;
    } else {
      assert (a + b)[0] == a[0] && (a + b)[1..] == a[1..] + b;
      RunJoin(Next(s, a[0]), a[1..], t, b, u);
    }
  }

  lemma RunOne(s: State, a: Action)
    requires Shaped(s) && Enabled(s, a)
    ensures Run(s, [a], Next(s, a))
  {
    assert [a][1..] == [];
  }

  // A one-byte exchange: nothing published yet; the client just rewound; the client copying tick 0.
  const QUIET := State([[0], [0], [0]], [-1, -1, -1], true, Writer(0, 0, false), Idle, INT_MAX, [], [{}], [], 0,
    Calls(-1, -1, INT_MAX))

  const REWOUND := QUIET.(lastTick := -1, calls := Calls(-1, -1, -1))

  const ONE_PUBLISHED :=
    State([[0], [0], [0]], [0, -1, -1], true, Writer(1, 1, false), Idle, -1, [[0]], [{}, {}], [], 0,
      Calls(-1, -1, -1))

  const COPYING := ONE_PUBLISHED.(r := Copy(0, 0, 0, [], 1), calls := Calls(0, 0, -1))

  const OVERTAKEN := State([[0], [0], [0]], [0, 1, 2], true, Writer(0, 3, false), Copy(0, 0, 0, [], 1), -1,
    [[0], [0], [0]], [{}, {}, {}, {}], [], 0, Calls(0, 0, -1))

  function ScanOnce(): seq<Action> {
    [Start, ReadLatest, ReadOther, Compare, ReadLatest, ReadOther, Compare, TestNewer]
  }

  lemma ScanRuns(s: State)
    requires Shaped(s) && s.r.Idle? && s.connected && s.tick[0] >= s.tick[1] && s.tick[0] >= s.tick[2]
    requires s.tick[0] >= -1 && s.calls.met == -1
    ensures var calls := Calls(|s.published| - 1, s.tick[0], s.calls.joined);
      Run(s, ScanOnce(), s.(calls := calls, r := if s.lastTick < s.tick[0] then Sample(0, 0) else Older(0)))
  {
    var c, d := s.calls.(asked := |s.published| - 1, met := -1), Calls(|s.published| - 1, s.tick[0], s.calls.joined);
    var s1 := s.(calls := c, r := Scan(1, 0, 0, false, 0, false));
    var s2 := s.(calls := d, r := Scan(1, 0, s.tick[0], true, 0, false));
    var s3 := s.(calls := d, r := Scan(1, 0, s.tick[0], true, s.tick[1], true));
    var s4 := s.(calls := d, r := Scan(2, 0, 0, false, 0, false));
    assert Next(s1, ReadLatest) == s2;
    RunOne(s, Start);
    RunOne(s1, ReadLatest);
    RunOne(s2, ReadOther);
    RunOne(s3, Compare);
    RunJoin(s, [Start], s1, [ReadLatest], s2);
    RunJoin(s, [Start] + [ReadLatest], s2, [ReadOther], s3);
    RunJoin(s, [Start] + [ReadLatest] + [ReadOther], s3, [Compare], s4);
    var s5 := s4.(r := Scan(2, 0, s.tick[0], true, 0, false));
    var s6 := s4.(r := Scan(2, 0, s.tick[0], true, s.tick[2], true));
    var s7 := s4.(r := Newer(0));
    RunOne(s4, ReadLatest);
    RunOne(s5, ReadOther);
    RunOne(s6, Compare);
    RunOne(s7, TestNewer);
    RunJoin(s4, [ReadLatest], s5, [ReadOther], s6);
    RunJoin(s4, [ReadLatest] + [ReadOther], s6, [Compare], s7);
    RunJoin(s4, [ReadLatest] + [ReadOther] + [Compare], s7, [TestNewer], Next(s7, TestNewer));
    RunJoin(s, [Start] + [ReadLatest] + [ReadOther] + [Compare], s4,
      [ReadLatest] + [ReadOther] + [Compare] + [TestNewer], Next(s7, TestNewer));
  }

  lemma QuietRewinds()
    ensures Run(QUIET, ScanOnce() + [TestOlder] + [DoRewind], REWOUND)
  {
    ScanRuns(QUIET);
    var s1, s2 := QUIET.(r := Older(0)), QUIET.(r := Rewind(0));
    RunOne(s1, TestOlder);
    RunOne(s2, DoRewind);
    RunJoin(QUIET, ScanOnce(), s1, [TestOlder], s2);
    RunJoin(QUIET, ScanOnce() + [TestOlder], s2, [DoRewind], REWOUND);
  }

  lemma PublishRuns(s: State)
    requires Shaped(s) && !s.w.stamped && s.w.count < INT_MAX
    ensures Run(s, [Stamp] + [Switch], Next(Next(s, Stamp), Switch))
  {
    RunOne(s, Stamp);
    RunOne(Next(s, Stamp), Switch);
    RunJoin(s, [Stamp], Next(s, Stamp), [Switch], Next(Next(s, Stamp), Switch));
  }

  lemma RewoundCopies()
    ensures Run(REWOUND, [Stamp] + [Switch] + ScanOnce() + [TakeTick], COPYING)
  {
    PublishRuns(REWOUND);
    assert Next(Next(REWOUND, Stamp), Switch) == ONE_PUBLISHED;
    ScanRuns(ONE_PUBLISHED);
    var s1 := ONE_PUBLISHED.(r := Sample(0, 0), calls := Calls(0, 0, -1));
    RunOne(s1, TakeTick);
    RunJoin(REWOUND, [Stamp] + [Switch], ONE_PUBLISHED, ScanOnce(), s1);
    RunJoin(REWOUND, [Stamp] + [Switch] + ScanOnce(), s1, [TakeTick], COPYING);
  }

  lemma CopyingIsOvertaken()
    ensures Run(COPYING, [Stamp] + [Switch] + ([Stamp] + [Switch]), OVERTAKEN)
  {
    PublishRuns(COPYING);
    var s1 := Next(Next(COPYING, Stamp), Switch);
    assert s1 == State([[0], [0], [0]], [0, 1, -1], true, Writer(2, 2, false), Copy(0, 0, 0, [], 1), -1, [[0], [0]],
      [{}, {}, {}], [], 0, Calls(0, 0, -1));
    PublishRuns(s1);
    assert Next(Next(s1, Stamp), Switch) == OVERTAKEN;
    RunJoin(COPYING, [Stamp] + [Switch], s1, [Stamp] + [Switch], OVERTAKEN);
  }

  const TORN := State([[1], [0], [0]], [0, 1, 2], true, Writer(0, 3, false), Idle, 0, [[0], [0], [0]],
    [{}, {}, {}, {(0, 1)}], [Copied(0, [1], 3, 0)], 0, Calls(0, 0, -1))

  lemma OvertakenTears()
    ensures Run(OVERTAKEN, [Store(0, 1)] + [CopyByte] + [Confirm], TORN)
  {
    var s1 := Next(OVERTAKEN, Store(0, 1));
    var s2 := Next(s1, CopyByte);
    RunOne(OVERTAKEN, Store(0, 1));
    RunOne(s1, CopyByte);
    RunOne(s2, Confirm);
    var row: seq<byte> := [0];
    assert OVERTAKEN.written[3] + {(0, 1)} == TORN.written[3];
    assert row[0 := 1] == [1] && s1.bufs == TORN.bufs && s1.written == TORN.written;
    assert s2.r.data == [1] && Next(s2, Confirm).accepted == TORN.accepted;
    assert Next(s2, Confirm) == TORN;
    RunJoin(OVERTAKEN, [Store(0, 1)], s1, [CopyByte], s2);
    RunJoin(OVERTAKEN, [Store(0, 1)] + [CopyByte], s2, [Confirm], TORN);
  }

  /** Without the bound on polls the promise fails: a run from the start keeps a copy that is no tick's data. */
  lemma TornCopyReachable() returns (actions: seq<Action>)
    ensures Initial(QUIET, 1) && Run(QUIET, actions, TORN)
    ensures TORN.accepted[0].data != TORN.published[TORN.accepted[0].tick]
  {
    hide Run;
    var a, b := ScanOnce() + [TestOlder] + [DoRewind], [Stamp] + [Switch] + ScanOnce() + [TakeTick];
    var c := [Stamp] + [Switch] + ([Stamp] + [Switch]);
    var d := [Store(0, 1)] + [CopyByte] + [Confirm];
    QuietRewinds();
    RewoundCopies();
    CopyingIsOvertaken();
    OvertakenTears();
    RunJoin(QUIET, a, REWOUND, b, COPYING);
    RunJoin(QUIET, a + b, COPYING, c, OVERTAKEN);
    RunJoin(QUIET, a + b + c, OVERTAKEN, d, TORN);
    actions := a + b + c + d;
  }
}
