/**
  What a call of irsdk_getNewData gives its caller: that the copy is no older than what was
  published when the call started, that nothing newer than the last copy is passed over, that
  a call left alone gives the newest buffer, and that every call ends.
*/
module TripleCalls {
  import opened Bytes
  import opened TripleBuffer

  // ------------------------------------------------------------------- freshness

  /** The buffer of the last tick published before the call carries it, or a later one. */
  ghost predicate Asked(s: State)
    requires Shaped(s)
  {
    -1 <= s.calls.asked < |s.published| && (s.calls.asked >= 0 ==> s.calls.asked <= s.tick[s.calls.asked % 3])
  }

  /** The candidate of the scan is at least v if buffer b is behind it, b being where v was. */
  ghost predicate Covers(s: State, v: int, b: nat)
    requires Shaped(s) && s.r.Scan?
  {
    && (b < s.r.i ==> v <= s.tick[s.r.latest] && (s.r.haveA ==> v <= s.r.a))
    && (b == s.r.i && s.r.haveB ==> v <= s.r.b)
  }

  ghost predicate CallInv(s: State)
    requires Shaped(s)
  {
    && Asked(s) && s.calls.met >= -1
    && match s.r
       case Idle => true
       case Scan(i, latest, a, haveA, b, haveB) =>
         && (s.calls.asked >= 0 ==> Covers(s, s.calls.asked, s.calls.asked % 3))
         && (s.calls.met <= (if haveA then a else s.tick[latest]) || (haveB && s.calls.met <= b))
       case Copy(latest, attempt, curTick, data, seen) => s.calls.asked <= curTick && s.calls.met <= curTick
       case _ => s.calls.asked <= s.tick[s.r.latest] && s.calls.met <= s.tick[s.r.latest]
  }

  /** The copies given since the client rewound are newer than all that was published before that call. */
  ghost predicate GivenInv(s: State) {
    && (s.calls.joined == INT_MAX <==> s.lastTick == INT_MAX) && s.calls.joined <= s.lastTick
    && forall k :: 0 <= k < |s.accepted| ==>
         s.accepted[k].asked <= s.accepted[k].tick && s.calls.joined < s.accepted[k].tick < INT_MAX
  }

  ghost predicate Current(s: State, len: nat) { Inv(s, len) && CallInv(s) && GivenInv(s) }

  lemma LastIsThere(n: nat)
    requires n > 0
    ensures LastTickOf((n - 1) % 3, n) == n - 1
  {}

  /** The server's steps only raise ticks. */
  lemma ServerKeepsCall(s: State, a: Action, len: nat)
    requires Inv(s, len) && CallInv(s) && GivenInv(s) && Enabled(s, a) && (a.Store? || a.Stamp? || a.Switch?)
    ensures CallInv(Next(s, a)) && GivenInv(Next(s, a))
  {
    hide BufferInv, ReaderInv, AcceptedInv;
    if a.Stamp? {
      TurnOf(s.w.count);
    }
  }

  lemma StartKeepsCall(s: State, len: nat)
    requires Inv(s, len) && CallInv(s) && GivenInv(s) && Enabled(s, Start)
    ensures CallInv(Next(s, Start)) && GivenInv(Next(s, Start))
  {
    hide BufferInv, AcceptedInv;
    TicksInRange(s, len, 0);
    var n := |s.published|;
    if n > 0 { LastIsThere(n); }
  }

  lemma ScanKeepsCall(s: State, a: Action, len: nat)
    requires Inv(s, len) && CallInv(s) && GivenInv(s) && Enabled(s, a)
    requires a.ReadLatest? || a.ReadOther? || a.Compare? || a.TestNewer? || a.TestOlder? || a.SetStatus?
    ensures CallInv(Next(s, a)) && GivenInv(Next(s, a))
  {
    hide BufferInv, AcceptedInv, CopyInv;
    TicksInRange(s, len, 0);
    TicksInRange(s, len, 1);
    TicksInRange(s, len, 2);
  }

  lemma CopyKeepsCall(s: State, a: Action, len: nat)
    requires Inv(s, len) && CallInv(s) && GivenInv(s) && Enabled(s, a)
    requires a.DoRewind? || a.TakeTick? || a.CopyByte? || a.Confirm?
    ensures CallInv(Next(s, a)) && GivenInv(Next(s, a))
  {
    hide BufferInv, CopyInv, Whole;
    TicksInRange(s, len, s.r.latest);
  }

  lemma NextKeepsCall(s: State, len: nat, a: Action)
    requires Current(s, len) && Enabled(s, a)
    ensures Current(Next(s, a), len)
  {
    hide Inv, CallInv, GivenInv;
    assert Shaped(s) by { ShapedOf(s, len); }
    NextKeeps(s, len, a);
    match a {
      case Start => StartKeepsCall(s, len);
      case Store(_, _) => ServerKeepsCall(s, a, len);
      case Stamp => ServerKeepsCall(s, a, len);
      case Switch => ServerKeepsCall(s, a, len);
      case DoRewind => CopyKeepsCall(s, a, len);
      case TakeTick => CopyKeepsCall(s, a, len);
      case CopyByte => CopyKeepsCall(s, a, len);
      case Confirm => CopyKeepsCall(s, a, len);
      case _ => ScanKeepsCall(s, a, len);
    }
  }

  lemma ShapedOf(s: State, len: nat)
    requires Inv(s, len)
    ensures Shaped(s)
  {}

  lemma {:induction false} RunKeepsCall(s: State, len: nat, actions: seq<Action>, t: State)
    requires Current(s, len) && Run(s, actions, t)
    ensures Current(t, len)
    decreases |actions|
  {
    hide Current;
    if actions != [] {
      NextKeepsCall(s, len, actions[0]);
      RunKeepsCall(Next(s, actions[0]), len, actions[1..], t);
    }
  }

  lemma InitialCurrent(s: State, len: nat)
    requires Initial(s, len)
    ensures Current(s, len)
  {
    InitialInv(s, len);
  }

  /**
    In every interleaving, a copy given to the caller is at least as new as the last tick
    published before the call that gave it, and newer than all that was published before the
    call in which the client found the server again.
  */
  lemma AcceptedFresh(s: State, len: nat, actions: seq<Action>, t: State, i: nat)
    requires Initial(s, len) && Run(s, actions, t) && i < |t.accepted|
    ensures t.accepted[i].asked <= t.accepted[i].tick && t.calls.joined < t.accepted[i].tick
  {
    InitialCurrent(s, len);
    RunKeepsCall(s, len, actions, t);
  }

  /**
    Nothing new is passed over: behind the scan a copy is taken if any tick the scan has read,
    or the last one published before the call, is above the last one given.
  */
  lemma NewerIsTaken(s: State, len: nat, actions: seq<Action>, t: State)
    requires Initial(s, len) && Run(s, actions, t) && Shaped(t) && t.r.Newer?
    requires t.lastTick < t.calls.met || t.lastTick < t.calls.asked
    ensures Next(t, TestNewer).r == Sample(t.r.latest, 0)
    ensures t.calls.met <= t.tick[t.r.latest] && t.calls.asked <= t.tick[t.r.latest]
  {
    InitialCurrent(s, len);
    RunKeepsCall(s, len, actions, t);
  }

  // -------------------------------------------------------------- calls left alone

  /** A step of a call behind its start. */
  predicate InCall(a: Action) {
    a.ReadLatest? || a.ReadOther? || a.Compare? || a.TestNewer? || a.TestOlder? || a.DoRewind? || a.TakeTick?
      || a.CopyByte? || a.Confirm?
  }

  predicate Newest(s: State, b: nat)
    requires |s.tick| == 3
  {
    b < 3 && s.tick[0] <= s.tick[b] && s.tick[1] <= s.tick[b] && s.tick[2] <= s.tick[b]
  }

  /** What the call has found: a copy of the newest buffer if its tick is new, and its tick in any case. */
  ghost predicate Answered(s: State, t: State)
    requires Shaped(s)
  {
    exists b :: 0 <= b < 3 && Newest(s, b) && t.lastTick == s.tick[b]
      && if s.lastTick >= s.tick[b] then t.accepted == s.accepted
         else t.accepted == s.accepted + [Copied(s.tick[b], s.bufs[b], s.w.count, |s.published| - 1)]
  }

  predicate Unchanged(s: State, t: State) {
    t.bufs == s.bufs && t.tick == s.tick && t.w == s.w && t.lastTick == s.lastTick && t.accepted == s.accepted
  }

  ghost predicate Underway(s: State, t: State)
    requires Shaped(s) && Shaped(t)
  {
    match t.r
    case Idle => Answered(s, t)
    case Scan(i, latest, a, haveA, b, haveB) =>
      && Unchanged(s, t) && latest < i && s.tick[0] <= s.tick[latest] && (i == 2 ==> s.tick[1] <= s.tick[latest])
      && (haveA ==> a == s.tick[latest]) && (haveB ==> b == s.tick[i])
    case Newer(latest) => Unchanged(s, t) && Newest(s, latest)
    case Older(latest) => Unchanged(s, t) && Newest(s, latest) && s.lastTick >= s.tick[latest]
    case Rewind(latest) => Unchanged(s, t) && Newest(s, latest) && s.lastTick > s.tick[latest]
    case Sample(latest, _) => Unchanged(s, t) && Newest(s, latest) && s.lastTick < s.tick[latest]
    case Copy(latest, _, curTick, data, seen) =>
      && Unchanged(s, t) && Newest(s, latest) && s.lastTick < s.tick[latest] == curTick
      && |data| <= |s.bufs[latest]| && data == s.bufs[latest][..|data|] && seen == s.w.count
  }

  lemma UnderwayStep(s: State, t: State, a: Action)
    requires Shaped(s) && Shaped(t) && t.calls.asked == |s.published| - 1
    requires Underway(s, t) && InCall(a) && Enabled(t, a)
    ensures Shaped(Next(t, a)) && Underway(s, Next(t, a)) && Next(t, a).calls.asked == t.calls.asked
  {
    var u := Next(t, a);
    if a.Confirm? {
      assert s.bufs[t.r.latest][..|t.r.data|] == s.bufs[t.r.latest];
      assert Newest(s, t.r.latest) && u.lastTick == s.tick[t.r.latest];
    }
    if a.TestOlder? || a.DoRewind? { assert Newest(s, t.r.latest) && (u.r.Idle? ==> u.lastTick == s.tick[t.r.latest]); }
  }

  ghost predicate OneCall(actions: seq<Action>) { forall k :: 0 <= k < |actions| ==> InCall(actions[k]) }

  lemma {:induction false} UnderwayRun(s: State, t: State, actions: seq<Action>, u: State)
    requires Shaped(s) && Shaped(t) && t.calls.asked == |s.published| - 1
    requires Underway(s, t) && OneCall(actions) && Run(t, actions, u)
    ensures Shaped(u) && Underway(s, u)
    decreases |actions|
  {
    hide Underway, InCall;
    if actions != [] {
      UnderwayStep(s, t, actions[0]);
      UnderwayRun(s, Next(t, actions[0]), actions[1..], u);
    }
  }

  /**
    A call that meets no step of the server gives its caller the newest buffer whole if its tick
    is above the last one given, and nothing otherwise; either way that tick is the last one
    then, also when it lies below, as after a reconnection.
  */
  lemma CallAlone(s: State, actions: seq<Action>, t: State)
    requires Shaped(s) && s.r.Idle? && s.connected
    requires OneCall(actions) && Run(Next(s, Start), actions, t) && Shaped(t) && t.r.Idle?
    ensures Answered(s, t)
  {
    UnderwayRun(s, Next(s, Start), actions, t);
  }

  /** A call that finds the server offline gives nothing, and the next one that finds it only takes note of the tick. */
  lemma OfflineForgets(s: State, actions: seq<Action>, t: State, len: nat)
    requires Inv(s, len) && s.r.Idle? && !s.connected && Shaped(Next(s, Start))
    ensures Next(s, Start).r.Idle?
    requires var s1 := Next(Next(s, Start), SetStatus(true)); OneCall(actions) && Run(Next(s1, Start), actions, t)
    requires Shaped(t) && t.r.Idle?
    ensures t.accepted == [] && exists b :: 0 <= b < 3 && Newest(s, b) && t.lastTick == s.tick[b]
  {
    var s1 := Next(Next(s, Start), SetStatus(true));
    CallAlone(s1, actions, t);
    var b :| 0 <= b < 3 && Newest(s1, b) && t.lastTick == s1.tick[b]
      && if s1.lastTick >= s1.tick[b] then t.accepted == s1.accepted
         else t.accepted == s1.accepted + [Copied(s1.tick[b], s1.bufs[b], s1.w.count, |s1.published| - 1)];
    TicksInRange(s, len, b);
    assert Newest(s, b);
  }

  // ------------------------------------------------------------------ second copies

  /** A copy that will be given if the server leaves the client alone from here. */
  ghost predicate Succeeding(s: State, t: State)
    requires Shaped(s) && Shaped(t) && !s.r.Idle?
  {
    && t.tick == s.tick
    && match t.r
       case Idle => |t.accepted| == |s.accepted| + 1
         && t.accepted[|s.accepted|].tick == t.lastTick == s.tick[s.r.latest]
       case Sample(latest, attempt) => latest == s.r.latest && t.accepted == s.accepted
       case Copy(latest, attempt, curTick, data, seen) =>
         latest == s.r.latest && t.accepted == s.accepted && (attempt == 0 || curTick == s.tick[latest])
       case _ => false
  }

  lemma {:induction false} SucceedingRun(s: State, t: State, actions: seq<Action>, u: State)
    requires Shaped(s) && Shaped(t) && !s.r.Idle? && Succeeding(s, t)
    requires OneCall(actions) && Run(t, actions, u) && Shaped(u)
    ensures Succeeding(s, u)
    decreases |actions|
  {
    if actions != [] { SucceedingRun(s, Next(t, actions[0]), actions[1..], u); }
  }

  ghost predicate Failing(s: State, t: State)
    requires Shaped(s) && Shaped(t) && s.r.Copy?
  {
    && t.tick == s.tick && t.accepted == s.accepted && t.lastTick == s.lastTick
    && (t.r.Idle? || (t.r.Copy? && t.r.attempt == s.r.attempt && t.r.latest == s.r.latest
      && t.r.curTick == s.r.curTick))
  }

  lemma {:induction false} FailingRun(s: State, t: State, actions: seq<Action>, u: State)
    requires Shaped(s) && Shaped(t) && s.r.Copy? && s.r.attempt != 0 && s.r.curTick != s.tick[s.r.latest]
    requires Failing(s, t) && OneCall(actions) && Run(t, actions, u) && Shaped(u)
    ensures Failing(s, u)
    decreases |actions|
  {
    if actions != [] { FailingRun(s, Next(t, actions[0]), actions[1..], u); }
  }

  /**
    A call may be disturbed during its first copy and still succeeds if the server then leaves
    it alone; it gives up exactly when the tick has changed under its second copy.
  */
  lemma SecondCopyDecides(s: State, actions: seq<Action>, t: State)
    requires Shaped(s) && s.r.Copy? && OneCall(actions) && Run(s, actions, t) && Shaped(t) && t.r.Idle?
    ensures if s.r.attempt == 0 || s.r.curTick == s.tick[s.r.latest]
      then |t.accepted| == |s.accepted| + 1 && t.accepted[|s.accepted|].tick == t.lastTick == s.tick[s.r.latest]
            else t.accepted == s.accepted && t.lastTick == s.lastTick
  {
    if s.r.attempt == 0 || s.r.curTick == s.tick[s.r.latest] {
      SucceedingRun(s, s, actions, t);
    } else {
      FailingRun(s, s, actions, t);
    }
  }

  // ------------------------------------------------------------------- calls end

  /** At most so many steps of the call are left. */
  function Left(r: Reader, len: nat): int {
    match r
    case Idle => 0
    case Scan(i, _, _, haveA, _, haveB) =>
      3 * (2 - i) + (if haveA then 0 else 1) + (if haveB then 0 else 1) + 2 * len + 6
    case Newer(_) => 2 * len + 5
    case Older(_) => 2
    case Rewind(_) => 1
    case Sample(_, attempt) => (len + 2) * (if attempt == 0 then 2 else 1)
    case Copy(_, attempt, _, data, _) => len - |data| + 1 + if attempt == 0 then len + 2 else 0
  }

  function StepsOfCall(actions: seq<Action>): nat {
    if actions == [] then 0 else (if InCall(actions[0]) then 1 else 0) + StepsOfCall(actions[1..])
  }

  ghost predicate Bounded(s: State, len: nat) {
    WriterInv(s, len) && (s.r.Copy? ==> |s.r.data| <= len)
  }

  lemma StepCounts(s: State, len: nat, a: Action)
    requires Inv(s, len) && Bounded(s, len) && Enabled(s, a) && !a.Start?
    ensures Inv(Next(s, a), len) && Bounded(Next(s, a), len)
    ensures Left(Next(s, a).r, len) + (if InCall(a) then 1 else 0) <= Left(s.r, len)
  {
    NextKeeps(s, len, a);
    hide Inv, WriterInv;
    assert |s.bufs| == 3 && forall b :: 0 <= b < 3 ==> |s.bufs[b]| == len by { SameLength(s, len); }
  }

  lemma SameLength(s: State, len: nat)
    requires Inv(s, len)
    ensures Shaped(s) && forall b :: 0 <= b < 3 ==> |s.bufs[b]| == len
  {}

  /**
    Whatever the server does meanwhile, a call takes at most 2 * len + 11 steps: it never waits
    and never copies a third time.
  */
  lemma {:induction false} CallEnds(s: State, len: nat, actions: seq<Action>, t: State)
    requires Inv(s, len) && Bounded(s, len) && Run(s, actions, t) && Start !in actions
    ensures StepsOfCall(actions) + Left(t.r, len) <= Left(s.r, len) && Bounded(t, len)
    decreases |actions|
  {
    hide Inv, Bounded, Left;
    if actions != [] {
      assert actions[0] in actions;
      StepCounts(s, len, actions[0]);
      CallEnds(Next(s, actions[0]), len, actions[1..], t);
    }
  }

  lemma CallIsBounded(s: State, len: nat, actions: seq<Action>, t: State)
    requires Inv(s, len) && s.r.Idle? && s.connected && Run(Next(s, Start), actions, t) && Start !in actions
    ensures StepsOfCall(actions) <= 2 * len + 11
    ensures StepsOfCall(actions) == 2 * len + 11 ==> t.r.Idle?
  {
    NextKeeps(s, len, Start);
    CallEnds(Next(s, Start), len, actions, t);
    LeftIsNone(t, len);
  }

  lemma LeftIsNone(t: State, len: nat)
    requires Bounded(t, len)
    ensures Left(t.r, len) >= 0 && (Left(t.r, len) == 0 ==> t.r.Idle?)
  {}

  /** The client is never stuck in a call. */
  lemma NeverStuck(s: State, len: nat)
    requires Inv(s, len) && Bounded(s, len) && !s.r.Idle?
    ensures exists a :: InCall(a) && Enabled(s, a)
  {
    match s.r {
      case Scan(_, _, _, haveA, _, haveB) =>
        var a := if !haveA then ReadLatest else if !haveB then ReadOther else Compare;
        assert InCall(a) && Enabled(s, a);
      case Newer(_) => assert InCall(TestNewer) && Enabled(s, TestNewer);
      case Older(_) => assert InCall(TestOlder) && Enabled(s, TestOlder);
      case Rewind(_) => assert InCall(DoRewind) && Enabled(s, DoRewind);
      case Sample(_, _) => assert InCall(TakeTick) && Enabled(s, TakeTick);
      case Copy(_, _, _, data, _) =>
        var a := if |data| < len then CopyByte else Confirm;
        assert InCall(a) && Enabled(s, a);
    }
  }
}
