/**
  Control frames of a WebSocket connection (sections 5.5.1 to 5.5.3 of RFC 6455), alone and
  between data messages: what either end makes of the frames the other sends, also of control
  frames that are too long, of pings longer than its buffer, and while it is closing itself.
*/
module WsControl {
  import opened Bytes
  import opened WsFrame
  import opened WsReceive
  import opened WsRoundTrip

  predicate IsControl(opcode: byte) { opcode == CLOSE || opcode == PING || opcode == PONG }

  // What becomes of a frame: what it makes visible, and whether it ends the connection.
  datatype Verdict = Verdict(events: seq<Event>, ends: bool)

  /** A pong for each full buffer, and one for the rest. */
  function Pongs(data: seq<byte>, cap: nat): seq<Event>
    requires cap > 0
    decreases |data|
  {
    if |data| <= cap then [EchoPong(data)] else [EchoPong(data[..cap])] + Pongs(data[cap..], cap)
  }

  /** The callbacks of a client for a pong: full buffers, then the rest. */
  function PongPieces(data: seq<byte>, cap: nat): seq<Event>
    requires cap > 0
    decreases |data|
  {
    if |data| <= cap then [ReceivePong(data, 0)]
    else [ReceivePong(data[..cap], |data| - cap)] + PongPieces(data[cap..], cap)
  }

  /**
    A close is echoed, as far as it fits the buffer, and ends the connection.  A ping is echoed
    in pongs; an end that is closing itself refuses to write one, which ends the connection of
    a server, while a client goes on.  A server drops a pong, a client hands it over.
  */
  function PayloadVerdict(server: bool, opcode: byte, data: seq<byte>, cap: nat, closing: bool): Verdict
    requires cap > 0
  {
    if opcode == CLOSE then
      Verdict(if closing then [] else [EchoClose(if |data| <= cap then data else data[..cap])], true)
    else if opcode == PING then Verdict(if closing then [] else Pongs(data, cap), server && closing)
    else Verdict(if server || opcode != PONG then [] else PongPieces(data, cap), false)
  }

  /** A control frame announcing 126 bytes or more ends the connection at its length. */
  function ControlVerdict(server: bool, m: Message, cap: nat, closing: bool): Verdict
    requires cap > 0
  {
    if |m.payload| >= 126 then Verdict([], true) else PayloadVerdict(server, m.opcode, m.payload, cap, closing)
  }

  /** r did what the verdict says, and unless that ended the connection is idle again. */
  predicate Dealt(r: Step, v: Verdict, binary: bool) {
    && r.events == v.events && r.ret == (if v.ends then -1 else 0)
    && (!v.ends ==> Idle(r.state) && r.state.binary == binary)
  }

  lemma SpillDeals(s: RxState, cfg: Config)
    requires IsControl(s.opcode) && s.ps == New && |s.buffer| <= Capacity(cfg)
    ensures Dealt(ServerSpill(s, cfg, 0, 0), PayloadVerdict(true, s.opcode, s.buffer, Capacity(cfg), cfg.closing),
      s.binary)
  {}

  lemma LastByte(s: RxState, cfg: Config, key: Key, from: nat, b: byte)
    requires s.ps == Payload && IsControl(s.opcode) && s.length == 1 && InStep(true, s, key, from)
    requires |s.buffer| < Capacity(cfg)
    ensures Dealt(Server(cfg)(s, Xor(b, key[from % 4])),
      PayloadVerdict(true, s.opcode, s.buffer + [b], Capacity(cfg), cfg.closing), s.binary)
  {
    hide Xor, ServerSpill, PayloadVerdict;
    UnmaskNext(true, s, key, from, b);
    var s1 := Store(s, b, !s.allZero, cfg.lp64);
    SpillDeals(s1.(ps := New), cfg);
  }

  /** The state behind one more byte of a payload that goes on. */
  function OneByteOn(s: RxState, r: Step, buffer: seq<byte>): RxState
    requires s.length > 0
  {
    s.(buffer := buffer, length := s.length - 1, maskIndex := r.state.maskIndex)
  }

  lemma MiddleByte(s: RxState, cfg: Config, key: Key, from: nat, b: byte)
    requires s.ps == Payload && s.length > 1 && InStep(true, s, key, from) && |s.buffer| + 1 < Capacity(cfg)
    ensures var r := Server(cfg)(s, Xor(b, key[from % 4]));
      r == More(OneByteOn(s, r, s.buffer + [b])) && InStep(true, r.state, key, from + 1)
  {
    hide Xor;
    UnmaskNext(true, s, key, from, b);
    if !s.allZero { NextMaskIndex(s.maskIndex, from); }
  }

  /** A byte that fills the buffer while more is to come. */
  lemma FullByte(s: RxState, cfg: Config, key: Key, from: nat, b: byte)
    requires s.ps == Payload && s.length > 1 && InStep(true, s, key, from) && |s.buffer| + 1 == Capacity(cfg)
    requires IsControl(s.opcode)
    ensures var r, v := Server(cfg)(s, Xor(b, key[from % 4])),
                        PayloadVerdict(true, s.opcode, s.buffer + [b], Capacity(cfg), cfg.closing);
      && r.events == v.events && r.ret == (if v.ends then -1 else 0)
      && (!v.ends ==> r.state == OneByteOn(s, r, []) && InStep(true, r.state, key, from + 1))
  {
    hide Xor;
    UnmaskNext(true, s, key, from, b);
    if !s.allZero { NextMaskIndex(s.maskIndex, from); }
  }

  /** The verdict on a payload that fills the buffer first and goes on. */
  lemma VerdictSplits(opcode: byte, full: seq<byte>, rest: seq<byte>, cap: nat, closing: bool)
    requires |full| == cap > 0 && rest != []
    ensures var v := PayloadVerdict(true, opcode, full, cap, closing);
      var w := PayloadVerdict(true, opcode, rest, cap, closing);
      PayloadVerdict(true, opcode, full + rest, cap, closing)
        == if v.ends then v else Verdict(v.events + w.events, w.ends)
  {
    assert (full + rest)[..cap] == full && (full + rest)[cap..] == rest;
  }

  /** The payload of a control frame, with some of it buffered already. */
  lemma {:induction false} ControlPayload(s: RxState, cfg: Config, key: Key, from: nat, p: seq<byte>)
    requires s.ps == Payload && IsControl(s.opcode) && s.length == |p| > 0 && InStep(true, s, key, from)
    requires |s.buffer| < Capacity(cfg)
    ensures Dealt(Run(Server(cfg), s, Masked(key, p, |p|, from)),
      PayloadVerdict(true, s.opcode, s.buffer + p, Capacity(cfg), cfg.closing), s.binary)
    decreases |p|
  {
    hide Xor, ServerStep, Masked, Run, InStep, PayloadVerdict;
    var b, c, rest := p[0], Xor(p[0], key[from % 4]), p[1..];
    MaskedFirst(key, p, from);
    assert p == [b] + rest && s.buffer + p == s.buffer + [b] + rest;
    if rest == [] {
      LastByte(s, cfg, key, from, b);
      LastOfRun(Server(cfg), s, c, Server(cfg)(s, c), key, p, from);
      assert s.buffer + [b] + rest == s.buffer + [b];
    } else if |s.buffer| + 1 < Capacity(cfg) {
      MiddleByte(s, cfg, key, from, b);
      var s1 := Server(cfg)(s, c).state;
      RunTo(Server(cfg), s, c, s1, Masked(key, rest, |rest|, from + 1));
      ControlPayload(s1, cfg, key, from + 1, rest);
    } else {
      FullByte(s, cfg, key, from, b);
      VerdictSplits(s.opcode, s.buffer + [b], rest, Capacity(cfg), cfg.closing);
      RunFirst(Server(cfg), s, c, Masked(key, rest, |rest|, from + 1));
      var r := Server(cfg)(s, c);
      if r.ret == 0 {
        ControlPayload(r.state, cfg, key, from + 1, rest);
        assert [] + rest == rest;
      }
    }
  }

  /** The key of a frame without payload ends the frame. */
  lemma EmptyFrame(s: RxState, cfg: Config, key: Key)
    requires s.ps == CollectKey(1) && s.length == 0 && IsControl(s.opcode) && s.buffer == []
    ensures Dealt(Run(Server(cfg), s, key), PayloadVerdict(true, s.opcode, [], Capacity(cfg), cfg.closing), s.binary)
  {
    hide Run, ServerHdrLen, ServerLen16, ServerLen64, ServerPayload, ServerSpill, PayloadVerdict;
    var step := Server(cfg);
    var s1 := CollectKeyByte(s, key[0], 1).(ps := CollectKey(2));
    var s2 := CollectKeyByte(s1, key[1], 2).(ps := CollectKey(3));
    var s3 := CollectKeyByte(s2, key[2], 3).(ps := CollectKey(4));
    assert key == [key[0]] + ([key[1]] + ([key[2]] + [key[3]]));
    RunTo(step, s, key[0], s1, [key[1]] + ([key[2]] + [key[3]]));
    RunTo(step, s1, key[1], s2, [key[2]] + [key[3]]);
    RunTo(step, s2, key[2], s3, [key[3]]);
    SpillDeals(CollectKeyByte(s3, key[3], 4).(ps := New, maskIndex := 0), cfg);
    RunLast(step, s3, key[3]);
  }

  lemma RunLast(step: Machine, s: RxState, c: byte)
    ensures Run(step, s, [c]) == step(s, c)
  {
    var r := step(s, c);
    assert [c] + [] == [c] && r.events + [] == r.events;
    RunFirst(step, s, c, []);
  }

  lemma ControlHead(s: RxState, cfg: Config, m: Message)
    requires s.ps == New && IsControl(m.opcode) && |m.payload| < 126
    ensures Run(Server(cfg), s, Head(m.opcode, m.fin, |m.payload|, 0x80, cfg.lp64))
         == More(s.(allZero := true, ps := CollectKey(1), opcode := m.opcode, rsv := 0, final := m.fin, masked := true,
           length := |m.payload|))
  {
    hide Run;
    var b, s0 := FirstByte(m.opcode, m.fin), s.(allZero := true);
    var s1 := s0.(ps := HdrLen, opcode := m.opcode, rsv := 0, final := m.fin);
    ControlFirstByte(s, cfg, m);
    RunTo(Server(cfg), s, b, s1, [|m.payload| + 0x80]);
    ServerShortLength(s1, cfg, |m.payload|);
    RunOne(Server(cfg), s1, |m.payload| + 0x80, s1.(ps := CollectKey(1), masked := true, length := |m.payload|));
  }

  lemma FrameStarts(m: Message, key: Key, lp64: bool) returns (rest: seq<byte>)
    requires m.opcode < 16
    ensures ClientFrame(m, key, lp64)
      == [FirstByte(m.opcode, m.fin)] + ([LengthField(|m.payload|, 0x80, lp64)[0]] + rest)
  {
    hide Masked, MaskCount, BigEndian;
    var field := LengthField(|m.payload|, 0x80, lp64);
    rest := field[1..] + key + Masked(key, m.payload, MaskCount(|m.payload|), 0);
  }

  lemma ControlFirstByte(s: RxState, cfg: Config, m: Message)
    requires s.ps == New && IsControl(m.opcode)
    ensures ServerStep(s, FirstByte(m.opcode, m.fin), cfg, 0, 0)
      == More(s.(allZero := true, ps := HdrLen, opcode := m.opcode, rsv := 0, final := m.fin))
  {
    var b := FirstByte(m.opcode, m.fin);
    assert b % 16 == m.opcode && b / 16 % 8 == 0;
  }

  lemma LongLengthDies(s: RxState, cfg: Config, len: nat)
    requires s.ps == HdrLen && IsControl(s.opcode) && len >= 126
    ensures var r := ServerStep(s, LengthField(len, 0x80, cfg.lp64)[0], cfg, 0, 0); r.ret == -1 && r.events == []
  {
    hide BigEndian, ServerSpill;
    var c := LengthField(len, 0x80, cfg.lp64)[0];
    assert c == 126 + 0x80 || c == 127 + 0x80;
  }

  /** A length of 126 or more is not accepted from a control frame. */
  lemma LongControlDies(s: RxState, cfg: Config, m: Message, key: Key)
    requires s.ps == New && IsControl(m.opcode) && |m.payload| >= 126
    ensures var r := Run(Server(cfg), s, ClientFrame(m, key, cfg.lp64)); r.ret == -1 && r.events == []
  {
    var b, c := FirstByte(m.opcode, m.fin), LengthField(|m.payload|, 0x80, cfg.lp64)[0];
    var s1 := s.(allZero := true, ps := HdrLen, opcode := m.opcode, rsv := 0, final := m.fin);
    hide Run, ClientFrame, ServerStep, LengthField, FirstByte;
    ControlFirstByte(s, cfg, m);
    LongLengthDies(s1, cfg, |m.payload|);
    var rest := FrameStarts(m, key, cfg.lp64);
    RunTo(Server(cfg), s, b, s1, [c] + rest);
    RunFirst(Server(cfg), s1, c, rest);
  }

  /**
    A masked control frame of any length, between the frames of a message or on its own: the
    server does what the verdict says and, unless that ends the connection, is where it was.
  */
  lemma ControlDealt(s: RxState, cfg: Config, m: Message, key: Key)
    requires Idle(s) && IsControl(m.opcode)
    ensures Dealt(Run(Server(cfg), s, ClientFrame(m, key, cfg.lp64)),
      ControlVerdict(true, m, Capacity(cfg), cfg.closing), s.binary)
  {
    hide Run, Head, ServerStep, Masked, PayloadVerdict, ClientFrame;
    if |m.payload| >= 126 { LongControlDies(s, cfg, m, key); } else { ShortControlDealt(s, cfg, m, key); }
  }

  lemma ShortControlDealt(s: RxState, cfg: Config, m: Message, key: Key)
    requires Idle(s) && IsControl(m.opcode) && |m.payload| < 126
    ensures Dealt(Run(Server(cfg), s, ClientFrame(m, key, cfg.lp64)),
      PayloadVerdict(true, m.opcode, m.payload, Capacity(cfg), cfg.closing), s.binary)
  {
    hide Run, Head, ServerStep, Masked, PayloadVerdict;
    var step, p := Server(cfg), m.payload;
    var head := Head(m.opcode, m.fin, |p|, 0x80, cfg.lp64);
    MaskCountFull(|p|);
    ControlHead(s, cfg, m);
    var s1 := Run(step, s, head).state;
    if p == [] {
      EmptyFrame(s1, cfg, key);
      RunOn(step, s, head, s1, key);
      assert head + key + Masked(key, p, 0, 0) == head + key;
    } else {
      ServerReadsKey(s1, cfg, key);
      var s2 := Run(step, s1, key).state;
      ControlPayload(s2, cfg, key, 0, p);
      RunOn(step, s1, key, s2, Masked(key, p, |p|, 0));
      RunOn(step, s, head, s1, key + Masked(key, p, |p|, 0));
      assert head + key + Masked(key, p, |p|, 0) == head + (key + Masked(key, p, |p|, 0)) && [] + p == p;
    }
  }

  /** The answer RFC 6455 asks for: one frame with the data of the one received. */
  function ProperAnswer(m: Message): seq<Event> {
    if m.opcode == CLOSE then [EchoClose(m.payload)] else if m.opcode == PING then [EchoPong(m.payload)] else []
  }

  /**
    A ping or close is answered once with its own data exactly when it is short enough and the
    server is not closing itself.
  */
  lemma AnsweredExactly(s: RxState, cfg: Config, m: Message, key: Key)
    requires Idle(s) && (m.opcode == PING || m.opcode == CLOSE)
    ensures Run(Server(cfg), s, ClientFrame(m, key, cfg.lp64)).events == ProperAnswer(m)
      <==> |m.payload| < 126 && |m.payload| <= Capacity(cfg) && !cfg.closing
  {
    hide Run, ClientFrame;
    ControlDealt(s, cfg, m, key);
    if m.opcode == PING && |m.payload| > Capacity(cfg) {
      assert Pongs(m.payload, Capacity(cfg)) != [EchoPong(m.payload)];
    }
  }

  // ---------------------------------------------------------------- sent to a client

  lemma ClientSpillDeals(s: RxState, cfg: Config)
    requires IsControl(s.opcode) && s.ps == New && |s.buffer| <= Capacity(cfg) && s.length == 0
    ensures Dealt(ClientSpill(s, cfg, 0), PayloadVerdict(false, s.opcode, s.buffer, Capacity(cfg), cfg.closing),
      s.binary)
  {}

  /** A payload byte that neither ends the frame nor fills the buffer. */
  lemma ClientMiddleByte(s: RxState, cfg: Config, b: byte)
    requires s.ps == Payload && !s.masked && s.length > 1 && |s.buffer| + 1 < Capacity(cfg)
    ensures Client(cfg)(s, b) == More(s.(buffer := s.buffer + [b], length := s.length - 1))
  {}

  /** What a client makes of a buffer of control data with so much still to come. */
  function ClientPiece(opcode: byte, data: seq<byte>, remaining: nat, closing: bool): seq<Event> {
    if opcode == PONG then [ReceivePong(data, remaining)]
    else if closing then []
    else if opcode == CLOSE then [EchoClose(data)]
    else [EchoPong(data)]
  }

  lemma ClientFullByte(s: RxState, cfg: Config, b: byte)
    requires s.ps == Payload && !s.masked && s.length > 1 && |s.buffer| + 1 == Capacity(cfg) && IsControl(s.opcode)
    ensures var r := Client(cfg)(s, b);
      && r.events == ClientPiece(s.opcode, s.buffer + [b], s.length - 1, cfg.closing)
      && r.ret == (if s.opcode == CLOSE then -1 else 0)
      && (s.opcode != CLOSE ==> r.state == s.(buffer := [], length := s.length - 1))
  {}

  /** The verdict of a client on a payload that fills the buffer first and goes on. */
  lemma ClientVerdictSplits(opcode: byte, full: seq<byte>, rest: seq<byte>, cap: nat, closing: bool)
    requires |full| == cap > 0 && rest != [] && IsControl(opcode)
    ensures var v, first := PayloadVerdict(false, opcode, rest, cap, closing),
                            ClientPiece(opcode, full, |rest|, closing);
      PayloadVerdict(false, opcode, full + rest, cap, closing)
        == if opcode == CLOSE then Verdict(first, true) else Verdict(first + v.events, v.ends)
  {
    assert (full + rest)[..cap] == full && (full + rest)[cap..] == rest;
  }

  /** The payload of an unmasked control frame, with some of it buffered already. */
  lemma {:induction false} ClientControlPayload(s: RxState, cfg: Config, p: seq<byte>)
    requires s.ps == Payload && !s.masked && IsControl(s.opcode) && s.length == |p| > 0
    requires |s.buffer| < Capacity(cfg)
    ensures Dealt(Run(Client(cfg), s, p),
      PayloadVerdict(false, s.opcode, s.buffer + p, Capacity(cfg), cfg.closing), s.binary)
    decreases |p|
  {
    hide ClientStep, Run, PayloadVerdict;
    var step, b, rest := Client(cfg), p[0], p[1..];
    assert p == [b] + rest && s.buffer + p == s.buffer + [b] + rest;
    RunFirst(step, s, b, rest);
    if rest == [] {
      ClientLastByte(s, cfg, b);
      RunLast(step, s, b);
      assert [b] + rest == [b];
    } else if |s.buffer| + 1 < Capacity(cfg) {
      ClientMiddleByte(s, cfg, b);
      var s1 := s.(buffer := s.buffer + [b], length := s.length - 1);
      RunTo(step, s, b, s1, rest);
      ClientControlPayload(s1, cfg, rest);
    } else {
      ClientFullByte(s, cfg, b);
      ClientVerdictSplits(s.opcode, s.buffer + [b], rest, Capacity(cfg), cfg.closing);
      var r := step(s, b);
      if r.ret == 0 {
        ClientControlPayload(r.state, cfg, rest);
        assert [] + rest == rest;
      }
    }
  }

  lemma ClientLastByte(s: RxState, cfg: Config, b: byte)
    requires s.ps == Payload && !s.masked && IsControl(s.opcode) && s.length == 1 && |s.buffer| < Capacity(cfg)
    ensures Dealt(Client(cfg)(s, b),
      PayloadVerdict(false, s.opcode, s.buffer + [b], Capacity(cfg), cfg.closing), s.binary)
  {
    hide ClientSpill, PayloadVerdict;
    ClientSpillDeals(s.(buffer := s.buffer + [b], length := 0, ps := New), cfg);
  }

  lemma ClientControlFirst(s: RxState, cfg: Config, m: Message)
    requires s.ps == New && IsControl(m.opcode)
    ensures Client(cfg)(s, FirstByte(m.opcode, m.fin))
      == More(s.(ps := HdrLen, opcode := m.opcode, rsv := 0, final := m.fin))
  {
    var b := FirstByte(m.opcode, m.fin);
    assert b % 16 == m.opcode && b / 16 % 8 == 0;
  }

  /** The length byte of a control frame: too long, empty, or a payload follows. */
  lemma ClientControlLength(s: RxState, cfg: Config, len: nat)
    requires s.ps == HdrLen && IsControl(s.opcode) && s.buffer == []
    ensures var r := Client(cfg)(s, LengthField(len, 0, cfg.lp64)[0]);
      if len >= 126 then r.ret == -1 && r.events == []
      else if len > 0 then r == More(s.(ps := Payload, masked := false, length := len))
      else Dealt(r, PayloadVerdict(false, s.opcode, [], Capacity(cfg), cfg.closing), s.binary)
  {
    hide BigEndian, ClientSpill, PayloadVerdict;
    if len == 0 { ClientSpillDeals(s.(ps := New, masked := false, length := 0), cfg); }
  }

  /** An unmasked control frame of any length: the client does what its verdict says. */
  lemma ClientControlDealt(s: RxState, cfg: Config, m: Message)
    requires Idle(s) && IsControl(m.opcode)
    ensures Dealt(Run(Client(cfg), s, ServerFrame(m, cfg.lp64)),
      ControlVerdict(false, m, Capacity(cfg), cfg.closing), s.binary)
  {
    hide Run, ClientStep, PayloadVerdict, LengthField, FirstByte;
    var step, p, b := Client(cfg), m.payload, FirstByte(m.opcode, m.fin);
    var field := LengthField(|p|, 0, cfg.lp64);
    FieldParts(|p|, cfg.lp64);
    var c, rest := field[0], field[1..] + p;
    var s1 := s.(ps := HdrLen, opcode := m.opcode, rsv := 0, final := m.fin);
    assert ServerFrame(m, cfg.lp64) == [b] + ([c] + rest);
    ClientControlFirst(s, cfg, m);
    RunTo(step, s, b, s1, [c] + rest);
    ClientControlLength(s1, cfg, |p|);
    RunFirst(step, s1, c, rest);
    if |p| < 126 {
      assert rest == p;
      if p == [] {
        assert [c] + [] == [c];
        RunLast(step, s1, c);
      } else {
        var s2 := s1.(ps := Payload, masked := false, length := |p|);
        RunTo(step, s1, c, s2, p);
        ClientControlPayload(s2, cfg, p);
        assert [] + p == p;
      }
    }
  }

  lemma FieldParts(len: nat, lp64: bool)
    ensures var field := LengthField(len, 0, lp64); field != [] && (len < 126 ==> field[1..] == [])
  {}

  // -------------------------------------------------------- data and control mixed

  // The payloads a client masks to their end.
  const MASK_LIMIT := 0x7fff_fffc

  /** What may be written: a control frame, or a data message below the limit. */
  ghost predicate Mixable(m: Message, limit: nat) {
    IsControl(m.opcode) || (DataMessage(m) && |m.payload| < limit)
  }

  ghost predicate AllMixable(ms: seq<Message>, limit: nat) {
    forall i :: 0 <= i < |ms| ==> Mixable(ms[i], limit) && ms[i].opcode < 16
  }

  function Outcome(server: bool, m: Message, binary: bool, cap: nat, closing: bool): Verdict
    requires cap > 0
  {
    if IsControl(m.opcode) then ControlVerdict(server, m, cap, closing)
    else Verdict(Pieces(m.opcode, m.fin, NextBinary(m.opcode, binary), m.payload, cap), false)
  }

  /** What becomes of a sequence of messages: each is dealt with in turn until one ends the connection. */
  function Outcomes(server: bool, ms: seq<Message>, binary: bool, cap: nat, closing: bool): Verdict
    requires cap > 0
  {
    if ms == [] then Verdict([], false)
    else
      var v := Outcome(server, ms[0], binary, cap, closing);
      if v.ends then v
      else
        var w := Outcomes(server, ms[1..], NextBinary(ms[0].opcode, binary), cap, closing);
        Verdict(v.events + w.events, w.ends)
  }

  /** r did what becomes of ms, and unless that ended the connection is idle again. */
  predicate Settled(server: bool, r: Step, ms: seq<Message>, binary: bool, cfg: Config) {
    var v := Outcomes(server, ms, binary, Capacity(cfg), cfg.closing);
    r.events == v.events && r.ret == (if v.ends then -1 else 0) && (!v.ends ==> Idle(r.state))
  }

  lemma FrameSettles(s: RxState, cfg: Config, m: Message, key: Key)
    requires Idle(s) && Mixable(m, MASK_LIMIT) && m.opcode < 16
    ensures Dealt(Run(Server(cfg), s, ClientFrame(m, key, cfg.lp64)),
      Outcome(true, m, s.binary, Capacity(cfg), cfg.closing), NextBinary(m.opcode, s.binary))
  {
    hide Run, ClientFrame, Pieces, ControlVerdict;
    if IsControl(m.opcode) { ControlDealt(s, cfg, m, key); } else { MaskedMessage(s, cfg, m, key); }
  }

  /**
    The round trip with control frames: whatever data messages, pings, pongs and closes a
    client writes, in any order and between the fragments of a message, and whether or not the
    server is closing itself, the server deals with them in order up to the first that ends
    the connection, and ends ready for a new frame if none does.
  */
  lemma {:induction false} MixedRoundTrip(s: RxState, cfg: Config, ms: seq<Message>, keys: seq<Key>)
    requires Idle(s) && |keys| == |ms| && AllMixable(ms, MASK_LIMIT)
    ensures Settled(true, Run(Server(cfg), s, ClientStream(ms, keys, cfg.lp64)), ms, s.binary, cfg)
    decreases |ms|
  {
    hide ServerStep, ClientFrame, Outcome, Mixable;
    if ms != [] {
      var frame, rest := ClientFrame(ms[0], keys[0], cfg.lp64), ClientStream(ms[1..], keys[1..], cfg.lp64);
      FrameSettles(s, cfg, ms[0], keys[0]);
      var r := Run(Server(cfg), s, frame);
      if r.ret == 0 {
        RunAppend(Server(cfg), s, frame, rest);
        MixedRoundTrip(r.state, cfg, ms[1..], keys[1..]);
      } else {
        RunStops(Server(cfg), s, frame, rest);
      }
    }
  }

  lemma ClientFrameSettles(s: RxState, cfg: Config, m: Message)
    requires Idle(s) && Mixable(m, LengthLimit(cfg.lp64)) && m.opcode < 16
    ensures Dealt(Run(Client(cfg), s, ServerFrame(m, cfg.lp64)),
      Outcome(false, m, s.binary, Capacity(cfg), cfg.closing), NextBinary(m.opcode, s.binary))
  {
    hide Run, ServerFrame, Pieces, ControlVerdict;
    if IsControl(m.opcode) { ClientControlDealt(s, cfg, m); } else { UnmaskedMessage(s, cfg, m); }
  }

  /** The same for whatever a server writes, at the client. */
  lemma {:induction false} ClientMixedRoundTrip(s: RxState, cfg: Config, ms: seq<Message>)
    requires Idle(s) && AllMixable(ms, LengthLimit(cfg.lp64))
    ensures Settled(false, Run(Client(cfg), s, ServerStream(ms, cfg.lp64)), ms, s.binary, cfg)
    decreases |ms|
  {
    hide ClientStep, ServerFrame, Outcome, Mixable;
    if ms != [] {
      var frame, rest := ServerFrame(ms[0], cfg.lp64), ServerStream(ms[1..], cfg.lp64);
      ClientFrameSettles(s, cfg, ms[0]);
      var r := Run(Client(cfg), s, frame);
      if r.ret == 0 {
        RunAppend(Client(cfg), s, frame, rest);
        ClientMixedRoundTrip(r.state, cfg, ms[1..]);
      } else {
        RunStops(Client(cfg), s, frame, rest);
      }
    }
  }

  /** Once a step asks for the connection to be closed, no more bytes are fed. */
  lemma {:induction false} RunStops(step: Machine, s: RxState, a: seq<byte>, b: seq<byte>)
    requires Run(step, s, a).ret != 0
    ensures Run(step, s, a + b) == Run(step, s, a)
    decreases |a|
  {
    var c, rest := a[0], a[1..];
    assert a == [c] + rest && a + b == [c] + (rest + b);
    RunFirst(step, s, c, rest);
    RunFirst(step, s, c, rest + b);
    if step(s, c).ret == 0 { RunStops(step, step(s, c).state, rest, b); }
  }

  /**
    The messages that end a connection: a close, a control frame that is too long, and a ping while
    the server is closing itself.
  */
  predicate Ends(server: bool, m: Message, closing: bool) {
    IsControl(m.opcode) && (m.opcode == CLOSE || |m.payload| >= 126 || (m.opcode == PING && server && closing))
  }

  /** All messages are dealt with exactly when none before the last ends the connection. */
  lemma {:induction false} EndsExactly(server: bool, ms: seq<Message>, binary: bool, cap: nat, closing: bool)
    requires cap > 0
    ensures Outcomes(server, ms, binary, cap, closing).ends
      <==> exists i :: 0 <= i < |ms| && Ends(server, ms[i], closing)
    decreases |ms|
  {
    if ms != [] {
      EndsExactly(server, ms[1..], NextBinary(ms[0].opcode, binary), cap, closing);
      assert forall i :: 0 <= i < |ms[1..]| ==> ms[1..][i] == ms[i + 1];
      if i :| 0 <= i < |ms| && Ends(server, ms[i], closing) {
        if i > 0 { assert ms[1..][i - 1] == ms[i]; }
      }
    }
  }

  /** Nothing behind the first message that ends the connection matters. */
  lemma {:induction false} EndsAtFirst(server: bool, ms: seq<Message>, binary: bool, cap: nat, closing: bool, k: nat)
    requires cap > 0 && k < |ms| && Ends(server, ms[k], closing)
    ensures Outcomes(server, ms, binary, cap, closing) == Outcomes(server, ms[..k + 1], binary, cap, closing)
    decreases |ms|
  {
    assert ms[..k + 1][0] == ms[0] && ms[..k + 1][1..] == ms[1..][..k];
    if k > 0 {
      EndsAtFirst(server, ms[1..], NextBinary(ms[0].opcode, binary), cap, closing, k - 1);
    }
  }

  /**
    An end that is closing deals with all it is sent up to the first message that ends the
    connection, and answers no ping and no close.
  */
  lemma {:induction false} ClosingAnswersNothing(server: bool, ms: seq<Message>, binary: bool, cap: nat)
    requires cap > 0
    ensures forall e :: e in Outcomes(server, ms, binary, cap, true).events ==> !e.EchoPong? && !e.EchoClose?
    decreases |ms|
  {
    if ms != [] {
      ClosingAnswersNothing(server, ms[1..], NextBinary(ms[0].opcode, binary), cap);
      if !IsControl(ms[0].opcode) {
        PiecesOnly(ms[0].opcode, ms[0].fin, NextBinary(ms[0].opcode, binary), ms[0].payload, cap);
      } else {
        PongPiecesOnly(ms[0].payload, cap);
      }
    }
  }

  lemma {:induction false} PiecesOnly(opcode: byte, final: bool, binary: bool, data: seq<byte>, cap: nat)
    requires cap > 0
    ensures forall e :: e in Pieces(opcode, final, binary, data, cap) ==> e.Receive?
    decreases |data|
  {
    if |data| > cap { PiecesOnly(opcode, final, binary, data[cap..], cap); }
  }

  lemma {:induction false} PongPiecesOnly(data: seq<byte>, cap: nat)
    requires cap > 0
    ensures forall e :: e in PongPieces(data, cap) ==> e.ReceivePong?
    decreases |data|
  {
    if |data| > cap { PongPiecesOnly(data[cap..], cap); }
  }
}
