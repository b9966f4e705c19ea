/**
  The two byte-at-a-time frame receivers of libwebsockets for specification
  revision 13: libwebsocket_rx_sm (parsers.c), run by a server, and
  libwebsocket_client_rx_sm (client-parser.c), run by a client.
*/
module WsReceive {
  import opened Bytes
  import opened WsFrame

  // Len64(8)..Len64(1) and Key(1)..Key(4) are the numbered LEN64 and COLLECT_FRAME_KEY states.
  datatype ParseState = New | HdrLen | Len16(left: nat) | Len64(left: nat) | CollectKey(next: nat) | Payload

  /** The receive side of a connection; buffer is rx_user_buffer up to its head. */
  datatype RxState = RxState(
    ps: ParseState, opcode: byte, rsv: byte, final: bool, binary: bool, masked: bool,
    length: nat, nonce: Key, allZero: bool, maskIndex: byte, buffer: seq<byte>)

  // rxBufferSize 0 means the default; closing is WSI_STATE_AWAITING_CLOSE_ACK.
  datatype Config = Config(rxBufferSize: nat, lp64: bool, closing: bool)

  function Capacity(cfg: Config): (cap: nat)
    ensures cap > 0 && (cfg.rxBufferSize > 0 ==> cap == cfg.rxBufferSize)
  {
    if cfg.rxBufferSize == 0 then MAX_SOCKET_IO_BUF else cfg.rxBufferSize
  }

  /** What a step makes visible; remaining is what libwebsockets_remaining_packet_payload answers. */
  datatype Event =
    | Receive(opcode: byte, final: bool, binary: bool, data: seq<byte>, remaining: nat)
    | ReceivePong(data: seq<byte>, remaining: nat)
    | EchoPong(data: seq<byte>)
    | EchoClose(data: seq<byte>)

  datatype Step = Step(state: RxState, events: seq<Event>, ret: int)

  function More(s: RxState): Step { Step(s, [], 0) }
  function Die(s: RxState): Step { Step(s, [], -1) }

  predicate IsData(opcode: byte) { opcode == CONTINUATION || opcode == TEXT || opcode == BINARY }

  function SizeMax(lp64: bool): nat { if lp64 then 0xffff_ffff_ffff_ffff else 0xffff_ffff }

  /** --rx_packet_length on a size_t */
  function Less1(n: nat, lp64: bool): nat { if n == 0 then SizeMax(lp64) else n - 1 }

  function FirstHeaderByte(s: RxState, c: byte): RxState {
    var s1 := s.(ps := HdrLen, opcode := c % 16, rsv := c / 16 % 8 * 16, final := c >= 0x80);
    if c % 16 == TEXT || c % 16 == BINARY then s1.(binary := c % 16 == BINARY) else s1
  }

  /** The share of a byte of the 64 bit length: the top four are dropped without __LP64__. */
  function LengthShare(c: byte, left: nat, lp64: bool): nat
    requires left > 0
  {
    if lp64 || left <= 4 then Shifted(c, left - 1) else 0
  }

  function CollectKeyByte(s: RxState, c: byte, k: nat): RxState
    requires 1 <= k <= 4
  {
    s.(nonce := s.nonce[k - 1 := c], allZero := s.allZero && c == 0)
  }

  function Unmask(s: RxState, c: byte): byte { Xor(c, s.nonce[s.maskIndex % 4]) }

  function Store(s: RxState, b: byte, usedMask: bool, lp64: bool): RxState {
    s.(buffer := s.buffer + [b], length := Less1(s.length, lp64),
       maskIndex := if usedMask then (s.maskIndex + 1) % 256 else s.maskIndex)
  }

  // ------------------------------------------------------------------ server

  /**
    reply is the result of the write a control frame triggers, cb that of the user's callback.
    Once the connection waits for the acknowledgement of its own close, libwebsocket_write
    refuses every write, so nothing is echoed any more and a ping ends the connection.
  */
  function ServerSpill(s: RxState, cfg: Config, reply: int, cb: int): Step {
    if s.opcode == CLOSE then
      Step(s, if cfg.closing then [] else [EchoClose(s.buffer)], -1)
    else if s.opcode == PING then
      if cfg.closing then Step(s, [], -1)
      else if reply < 0 then Step(s, [EchoPong(s.buffer)], -1)
      else Step(s.(buffer := []), [EchoPong(s.buffer)], 0)
    else if IsData(s.opcode) && s.buffer != [] then
      Step(s.(buffer := []), [Receive(s.opcode, s.final, s.binary, s.buffer, s.length)], cb)
    else
      More(s.(buffer := []))
  }

  function ServerAfterLength(s: RxState): RxState { s.(ps := if s.masked then CollectKey(1) else Payload) }

  function ServerHdrLen(s: RxState, c: byte, cfg: Config, reply: int, cb: int): Step {
    var s1 := s.(masked := c >= 0x80);
    if c % 128 >= 126 then
      if s.opcode / 8 % 2 == 1 then Die(s1)
      else More(s1.(ps := if c % 128 == 126 then Len16(2) else Len64(8)))
    else
      var s2 := s1.(length := c % 128);
      if s2.masked || s2.length > 0 then More(ServerAfterLength(s2))
      else ServerSpill(s2.(ps := New), cfg, reply, cb)
  }

  function ServerLen16(s: RxState, c: byte, left: nat): Step {
    if left == 2 then More(s.(length := c * 256, ps := Len16(1)))
    else More(ServerAfterLength(s.(length := s.length + c)))
  }

  /** The length so far after one more byte of the 64 bit field. */
  function Len64Byte(s: RxState, c: byte, left: nat, lp64: bool): RxState
    requires left > 0
  {
    s.(length := (if left == 8 then 0 else s.length) + LengthShare(c, left, lp64))
  }

  function ServerLen64(s: RxState, c: byte, left: nat, cfg: Config): Step {
    if left == 0 || (left == 8 && c >= 0x80) then Die(s)
    else if left == 1 then More(ServerAfterLength(Len64Byte(s, c, left, cfg.lp64)))
    else More(Len64Byte(s, c, left, cfg.lp64).(ps := Len64(left - 1)))
  }

  function ServerKey(s: RxState, c: byte, k: nat, cfg: Config, reply: int, cb: int): Step {
    if !(1 <= k <= 4) then Die(s)
    else
      var s1 := CollectKeyByte(s, c, k);
      if k < 4 then More(s1.(ps := CollectKey(k + 1)))
      else if s1.length == 0 then ServerSpill(s1.(ps := New, maskIndex := 0), cfg, reply, cb)
      else More(s1.(ps := Payload, maskIndex := 0))
  }

  function ServerPayload(s: RxState, c: byte, cfg: Config, reply: int, cb: int): Step {
    var s1 := Store(s, if s.allZero then c else Unmask(s, c), !s.allZero, cfg.lp64);
    if s1.length == 0 then ServerSpill(s1.(ps := New), cfg, reply, cb)
    else if |s1.buffer| == Capacity(cfg) then ServerSpill(s1, cfg, reply, cb)
    else More(s1)
  }

  function ServerStep(s: RxState, c: byte, cfg: Config, reply: int, cb: int): Step {
    match s.ps
    case New => More(FirstHeaderByte(s.(allZero := true), c))
    case HdrLen => ServerHdrLen(s, c, cfg, reply, cb)
    case Len16(left) => ServerLen16(s, c, left)
    case Len64(left) => ServerLen64(s, c, left, cfg)
    case CollectKey(k) => ServerKey(s, c, k, cfg, reply, cb)
    case Payload => ServerPayload(s, c, cfg, reply, cb)
  }

  // ------------------------------------------------------------------ client

  function ClientSpill(s: RxState, cfg: Config, cb: int): Step {
    if s.opcode == CLOSE then
      Step(s, if cfg.closing then [] else [EchoClose(s.buffer)], -1)
    else if s.opcode == PING then
      Step(s.(buffer := []), if cfg.closing then [] else [EchoPong(s.buffer)], 0)
    else if s.opcode == PONG || (IsData(s.opcode) && s.buffer != []) then
      var e := if s.opcode == PONG then ReceivePong(s.buffer, s.length)
        else Receive(s.opcode, s.final, s.binary, s.buffer, s.length);
      if cb != 0 then Step(s, [e], 1) else Step(s.(buffer := []), [e], 0)
    else
      More(s.(buffer := []))
  }

  function ClientAfterLength(s: RxState, cfg: Config, cb: int): Step {
    if s.masked then More(s.(ps := CollectKey(1)))
    else if s.length > 0 then More(s.(ps := Payload))
    else ClientSpill(s.(ps := New), cfg, cb)
  }

  function ClientHdrLen(s: RxState, c: byte, cfg: Config, cb: int): Step {
    var s1 := s.(masked := c >= 0x80);
    if c % 128 >= 126 then
      if s.opcode / 8 % 2 == 1 then Die(s1)
      else More(s1.(ps := if c % 128 == 126 then Len16(2) else Len64(8)))
    else
      ClientAfterLength(s1.(length := c), cfg, cb)
  }

  function ClientLen16(s: RxState, c: byte, left: nat, cfg: Config, cb: int): Step {
    if left == 2 then More(s.(length := c * 256, ps := Len16(1)))
    else ClientAfterLength(s.(length := s.length + c), cfg, cb)
  }

  function ClientLen64(s: RxState, c: byte, left: nat, cfg: Config, cb: int): Step {
    if left == 0 || (left == 8 && c >= 0x80) then Die(s)
    else if left == 1 then ClientAfterLength(Len64Byte(s, c, left, cfg.lp64), cfg, cb)
    else More(Len64Byte(s, c, left, cfg.lp64).(ps := Len64(left - 1)))
  }

  function ClientKey(s: RxState, c: byte, k: nat, cfg: Config, cb: int): Step {
    if !(1 <= k <= 4) then Die(s)
    else
      var s1 := CollectKeyByte(s, c, k);
      if k < 4 then More(s1.(ps := CollectKey(k + 1)))
      else if s1.length == 0 then ClientSpill(s1.(ps := New), cfg, cb)
      else More(s1.(ps := Payload))
  }

  function ClientPayload(s: RxState, c: byte, cfg: Config, cb: int): Step {
    var plain := !s.masked || s.allZero;
    var s1 := Store(s, if plain then c else Unmask(s, c), !plain, cfg.lp64);
    if s1.length == 0 then ClientSpill(s1.(ps := New), cfg, cb)
    else if |s1.buffer| == Capacity(cfg) then ClientSpill(s1, cfg, cb)
    else More(s1)
  }

  function ClientStep(s: RxState, c: byte, cfg: Config, cb: int): Step {
    match s.ps
    case New => More(FirstHeaderByte(s, c))
    case HdrLen => ClientHdrLen(s, c, cfg, cb)
    case Len16(left) => ClientLen16(s, c, left, cfg, cb)
    case Len64(left) => ClientLen64(s, c, left, cfg, cb)
    case CollectKey(k) => ClientKey(s, c, k, cfg, cb)
    case Payload => ClientPayload(s, c, cfg, cb)
  }

  // -------------------------------------------------------------------- runs

  type Machine = (RxState, byte) -> Step

  /** A receiver whose replies and callbacks succeed. */
  function Server(cfg: Config): Machine { (s: RxState, c: byte) => ServerStep(s, c, cfg, 0, 0) }
  function Client(cfg: Config): Machine { (s: RxState, c: byte) => ClientStep(s, c, cfg, 0) }

  /** Feeding bytes until the end or until a step asks for the connection to be closed. */
  function Run(step: Machine, s: RxState, bytes: seq<byte>): Step
    decreases |bytes|
  {
    if bytes == [] then More(s)
    else
      var r := step(s, bytes[0]);
      if r.ret != 0 then r
      else Then(r, Run(step, r.state, bytes[1..]))
  }

  function Then(r: Step, q: Step): Step { Step(q.state, r.events + q.events, q.ret) }

  lemma ThenAssoc(a: Step, b: Step, c: Step)
    ensures Then(a, Then(b, c)) == Then(Then(a, b), c)
  {
    assert a.events + (b.events + c.events) == (a.events + b.events) + c.events;
  }

  lemma RunFirst(step: Machine, s: RxState, c: byte, rest: seq<byte>)
    ensures Run(step, s, [c] + rest)
      == if step(s, c).ret != 0 then step(s, c) else Then(step(s, c), Run(step, step(s, c).state, rest))
  {
    assert ([c] + rest)[1..] == rest;
  }

  /** Bytes may arrive in any portions. */
  lemma {:induction false} RunAppend(step: Machine, s: RxState, a: seq<byte>, b: seq<byte>)
    requires Run(step, s, a).ret == 0
    ensures Run(step, s, a + b) == Then(Run(step, s, a), Run(step, Run(step, s, a).state, b))
    decreases |a|
  {
    if a == [] {
      assert a + b == b;
      var q := Run(step, s, b);
      assert [] + q.events == q.events;
    } else {
      var c, rest := a[0], a[1..];
      assert a == [c] + rest && a + b == [c] + (rest + b);
      var r := step(s, c);
      RunFirst(step, s, c, rest);
      RunFirst(step, s, c, rest + b);
      RunAppend(step, r.state, rest, b);
      ThenAssoc(r, Run(step, r.state, rest), Run(step, Run(step, r.state, rest).state, b));
    }
  }
}
