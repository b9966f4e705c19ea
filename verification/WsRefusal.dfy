/**
  What becomes of a run of either receiver when the user's callback, or the write of a pong,
  does not succeed: it is the undisturbed run up to that event, and the caller learns of it.
  And what a client makes of a frame that is masked, which no server sends.
*/
module WsRefusal {
  import opened Bytes
  import opened WsFrame
  import opened WsReceive
  import opened WsRoundTrip

  /** A server whose pongs are written with this result, and whose callbacks return cb. */
  function Answering(cfg: Config, reply: int, cb: int): Machine {
    (s: RxState, c: byte) => ServerStep(s, c, cfg, reply, cb)
  }

  /** A client whose callbacks return cb. */
  function Deciding(cfg: Config, cb: int): Machine { (s: RxState, c: byte) => ClientStep(s, c, cfg, cb) }

  /** The events whose outcome is against going on, and what the receiver then returns. */
  function ServerCode(e: Event, reply: int, cb: int): int {
    if e.Receive? then cb else if e.EchoPong? && reply < 0 then -1 else 0
  }

  function ClientCode(e: Event, cb: int): int {
    if (e.Receive? || e.ReceivePong?) && cb != 0 then 1 else 0
  }

  type Code = Event -> int

  /** r is the step u of an undisturbed receiver, but for what its event returns. */
  ghost predicate Disturbed(u: Step, r: Step, code: Code) {
    && r.events == u.events && |u.events| <= 1
    && (if u.events == [] || code(u.events[0]) == 0 then r == u else r.ret == code(u.events[0]))
  }

  lemma Undisturbed(u: Step, code: Code)
    requires u.events == []
    ensures Disturbed(u, u, code)
  {}

  lemma ServerSpillDisturbed(s: RxState, cfg: Config, reply: int, cb: int)
    ensures Disturbed(ServerSpill(s, cfg, 0, 0), ServerSpill(s, cfg, reply, cb), e => ServerCode(e, reply, cb))
  {}

  lemma ServerDisturbed(s: RxState, c: byte, cfg: Config, reply: int, cb: int)
    ensures Disturbed(Server(cfg)(s, c), Answering(cfg, reply, cb)(s, c), e => ServerCode(e, reply, cb))
  {
    hide Unmask, LengthShare, ServerSpill, Disturbed, ServerCode;
    var code := e => ServerCode(e, reply, cb);
    var u := Server(cfg)(s, c);
    match s.ps {
      case HdrLen => ServerSpillDisturbed(s.(masked := c >= 0x80, length := c % 128, ps := New), cfg, reply, cb);
      case CollectKey(k) =>
        if k == 4 {
          ServerSpillDisturbed(CollectKeyByte(s, c, k).(ps := New, maskIndex := 0), cfg, reply, cb);
        }
      case Payload =>
        var s1 := Store(s, if s.allZero then c else Unmask(s, c), !s.allZero, cfg.lp64);
        ServerSpillDisturbed(s1, cfg, reply, cb);
        ServerSpillDisturbed(s1.(ps := New), cfg, reply, cb);
      case _ =>
    }
    if Answering(cfg, reply, cb)(s, c) == u && u.events == [] { Undisturbed(u, code); }
  }

  lemma ClientSpillDisturbed(s: RxState, cfg: Config, cb: int)
    ensures Disturbed(ClientSpill(s, cfg, 0), ClientSpill(s, cfg, cb), e => ClientCode(e, cb))
  {}

  lemma ClientAfterDisturbed(s: RxState, cfg: Config, cb: int)
    ensures Disturbed(ClientAfterLength(s, cfg, 0), ClientAfterLength(s, cfg, cb), e => ClientCode(e, cb))
  {
    hide ClientSpill, Disturbed, ClientCode;
    ClientSpillDisturbed(s.(ps := New), cfg, cb);
    var u := ClientAfterLength(s, cfg, 0);
    if ClientAfterLength(s, cfg, cb) == u && u.events == [] { Undisturbed(u, e => ClientCode(e, cb)); }
  }

  lemma ClientDisturbed(s: RxState, c: byte, cfg: Config, cb: int)
    ensures Disturbed(Client(cfg)(s, c), Deciding(cfg, cb)(s, c), e => ClientCode(e, cb))
  {
    hide Unmask, LengthShare, ClientSpill, ClientAfterLength, Disturbed, ClientCode;
    var code := e => ClientCode(e, cb);
    var u := Client(cfg)(s, c);
    match s.ps {
      case HdrLen => ClientAfterDisturbed(s.(masked := c >= 0x80, length := c), cfg, cb);
      case Len16(_) => ClientAfterDisturbed(s.(length := s.length + c), cfg, cb);
      case Len64(left) => if left > 0 { ClientAfterDisturbed(Len64Byte(s, c, left, cfg.lp64), cfg, cb); }
      case CollectKey(k) => if k == 4 { ClientSpillDisturbed(CollectKeyByte(s, c, k).(ps := New), cfg, cb); }
      case Payload =>
        var plain := !s.masked || s.allZero;
        var s1 := Store(s, if plain then c else Unmask(s, c), !plain, cfg.lp64);
        ClientSpillDisturbed(s1, cfg, cb);
        ClientSpillDisturbed(s1.(ps := New), cfg, cb);
      case New =>
    }
    if Deciding(cfg, cb)(s, c) == u && u.events == [] { Undisturbed(u, code); }
  }

  ghost predicate Disturbs(step: Machine, other: Machine, code: Code) {
    forall s, c :: Disturbed(step(s, c), other(s, c), code)
  }

  /** The events up to and with the first one refused. */
  function UpTo(events: seq<Event>, code: Code): seq<Event> {
    if events == [] then [] else if code(events[0]) != 0 then [events[0]] else [events[0]] + UpTo(events[1..], code)
  }

  predicate AnyRefused(events: seq<Event>, code: Code) { exists i :: 0 <= i < |events| && code(events[i]) != 0 }

  lemma NoneOrFirst(u: Step, q: Step, code: Code)
    requires |u.events| <= 1
    ensures UpTo(u.events + q.events, code)
      == if u.events != [] && code(u.events[0]) != 0 then u.events else u.events + UpTo(q.events, code)
    ensures AnyRefused(u.events + q.events, code)
      <==> (u.events != [] && code(u.events[0]) != 0) || AnyRefused(q.events, code)
  {
    var all := u.events + q.events;
    if u.events == [] {
      assert all == q.events && [] + UpTo(q.events, code) == UpTo(q.events, code);
    } else {
      assert all[0] == u.events[0] && all[1..] == q.events && u.events == [all[0]];
      if i :| 0 <= i < |q.events| && code(q.events[i]) != 0 { assert all[i + 1] == q.events[i]; }
      if i :| 0 <= i < |all| && code(all[i]) != 0 {
        if i > 0 { assert q.events[i - 1] == all[i]; }
      }
    }
  }

  /** Over any bytes: the undisturbed run up to the first refusal, which decides what is returned. */
  lemma {:induction false} RunDisturbed(step: Machine, other: Machine, code: Code, s: RxState, bytes: seq<byte>)
    requires Disturbs(step, other, code)
    ensures var u, r := Run(step, s, bytes), Run(other, s, bytes);
      && r.events == UpTo(u.events, code)
      && (!AnyRefused(u.events, code) ==> r == u)
      && (AnyRefused(u.events, code) ==> r.events != [] && r.ret == code(r.events[|r.events| - 1]) != 0)
    decreases |bytes|
  {
    if bytes != [] {
      var c, rest := bytes[0], bytes[1..];
      assert bytes == [c] + rest;
      RunFirst(step, s, c, rest);
      RunFirst(other, s, c, rest);
      var u, r := step(s, c), other(s, c);
      assert Disturbed(u, r, code);
      var q := if u.ret != 0 then More(u.state) else Run(step, u.state, rest);
      NoneOrFirst(u, q, code);
      assert u.events + [] == u.events;
      if u.ret == 0 { RunDisturbed(step, other, code, u.state, rest); }
      hide Run;
    }
  }

  /** A server hands over and answers as ever until a callback or a pong's write refuses, and returns that. */
  lemma ServerRunRefused(cfg: Config, reply: int, cb: int, s: RxState, bytes: seq<byte>)
    ensures var code := e => ServerCode(e, reply, cb);
      var u, r := Run(Server(cfg), s, bytes), Run(Answering(cfg, reply, cb), s, bytes);
      && r.events == UpTo(u.events, code)
      && (!AnyRefused(u.events, code) ==> r == u)
      && (AnyRefused(u.events, code) ==> r.events != [] && r.ret == code(r.events[|r.events| - 1]) != 0)
  {
    var code := e => ServerCode(e, reply, cb);
    forall t, c ensures Disturbed(Server(cfg)(t, c), Answering(cfg, reply, cb)(t, c), code) {
      ServerDisturbed(t, c, cfg, reply, cb);
    }
    RunDisturbed(Server(cfg), Answering(cfg, reply, cb), code, s, bytes);
  }

  /** The same for a client, which returns 1. */
  lemma ClientRunRefused(cfg: Config, cb: int, s: RxState, bytes: seq<byte>)
    ensures var code := e => ClientCode(e, cb);
      var u, r := Run(Client(cfg), s, bytes), Run(Deciding(cfg, cb), s, bytes);
      && r.events == UpTo(u.events, code)
      && (!AnyRefused(u.events, code) ==> r == u)
      && (AnyRefused(u.events, code) ==> r.events != [] && r.ret == 1)
  {
    var code := e => ClientCode(e, cb);
    forall t, c ensures Disturbed(Client(cfg)(t, c), Deciding(cfg, cb)(t, c), code) {
      ClientDisturbed(t, c, cfg, cb);
    }
    RunDisturbed(Client(cfg), Deciding(cfg, cb), code, s, bytes);
  }

  /**
    A masked frame is none a client may get (section 5.1 of RFC 6455).  Of a short one it takes the
    mask bit for part of the length: behind the key it waits for 128 bytes more than the payload.
  */
  lemma MaskedFrameMisread(s: RxState, cfg: Config, opcode: byte, fin: bool, len: nat, key: Key)
    requires s.ps == New && opcode < 16 && len < 126
    ensures var r := Run(Client(cfg), s, Head(opcode, fin, len, 0x80, cfg.lp64) + key);
      r.ret == 0 && r.events == [] && r.state.ps == Payload && r.state.length == len + 128 && r.state.nonce == key
  {
    hide Run, ClientSpill, ClientPayload, ClientLen16, ClientLen64;
    var step, b := Client(cfg), FirstByte(opcode, fin);
    assert b % 16 == opcode;
    var s1 := step(s, b).state;
    var s2 := s1.(masked := true, length := len + 128, ps := CollectKey(1));
    var k1 := CollectKeyByte(s2, key[0], 1).(ps := CollectKey(2));
    var k2 := CollectKeyByte(k1, key[1], 2).(ps := CollectKey(3));
    var k3 := CollectKeyByte(k2, key[2], 3).(ps := CollectKey(4));
    var k4 := CollectKeyByte(k3, key[3], 4).(ps := Payload);
    assert Head(opcode, fin, len, 0x80, cfg.lp64) + key
      == [b] + ([len + 0x80] + ([key[0]] + ([key[1]] + ([key[2]] + [key[3]]))));
    RunTo(step, s, b, s1, [len + 0x80] + ([key[0]] + ([key[1]] + ([key[2]] + [key[3]]))));
    RunTo(step, s1, len + 0x80, s2, [key[0]] + ([key[1]] + ([key[2]] + [key[3]])));
    RunTo(step, s2, key[0], k1, [key[1]] + ([key[2]] + [key[3]]));
    RunTo(step, k1, key[1], k2, [key[2]] + [key[3]]);
    RunTo(step, k2, key[2], k3, [key[3]]);
    RunOne(step, k3, key[3], k4);
  }
}
