/**
  What one end writes, the other end reads: the receivers of WsReceive run over the
  frames of WsFrame.
*/
module WsRoundTrip {
  import opened Bytes
  import opened WsFrame
  import opened WsReceive

  function NextBinary(opcode: byte, binary: bool): bool {
    if opcode == TEXT || opcode == BINARY then opcode == BINARY else binary
  }

  /** The callbacks for one payload: full buffers, then a non-empty remainder. */
  function Pieces(opcode: byte, final: bool, binary: bool, data: seq<byte>, cap: nat): seq<Event>
    requires cap > 0
    decreases |data|
  {
    if |data| <= cap then [Receive(opcode, final, binary, data, 0)]
    else [Receive(opcode, final, binary, data[..cap], |data| - cap)] + Pieces(opcode, final, binary, data[cap..], cap)
  }

  function Deliveries(ms: seq<Message>, binary: bool, cap: nat): seq<Event>
    requires cap > 0
  {
    if ms == [] then []
    else
      var b := NextBinary(ms[0].opcode, binary);
      Pieces(ms[0].opcode, ms[0].fin, b, ms[0].payload, cap) + Deliveries(ms[1..], b, cap)
  }

  /** Ready for a frame, with nothing buffered. */
  predicate Idle(s: RxState) { s.ps == New && s.buffer == [] }

  // ------------------------------------------------------------- the length field

  function DecodedLength(len: nat, lp64: bool): nat { if len < 65536 then len else len % LengthLimit(lp64) }

  lemma DecodedExactly(len: nat, lp64: bool)
    ensures DecodedLength(len, lp64) == len <==> len < LengthLimit(lp64)
  {}

  /** What the k low bytes of n contribute to the length. */
  function Share(n: nat, k: nat, lp64: bool): nat { if lp64 || k <= 4 then Low(n, k) else Low(n, 4) }

  lemma ShareStep(n: nat, k: nat, lp64: bool)
    requires k > 0
    ensures LengthShare(ByteOf(n, k - 1), k, lp64) + Share(n, k - 1, lp64) == Share(n, k, lp64)
  {
    TopByte(n, k);
  }

  /** A byte that only moves the state on. */
  lemma RunTo(step: Machine, s: RxState, c: byte, s1: RxState, rest: seq<byte>)
    requires step(s, c) == More(s1)
    ensures Run(step, s, [c] + rest) == Run(step, s1, rest)
  {
    RunFirst(step, s, c, rest);
    var r := Run(step, s1, rest);
    assert [] + r.events == r.events;
  }

  lemma RunOne(step: Machine, s: RxState, c: byte, s1: RxState)
    requires step(s, c) == More(s1)
    ensures Run(step, s, [c]) == More(s1)
  {
    assert [c] + [] == [c];
    RunTo(step, s, c, s1, []);
  }

  /** One byte of the 64 bit field. */
  lemma ServerLen64Step(s: RxState, cfg: Config, n: nat, k: nat)
    requires s.ps == Len64(k) && 1 <= k <= 8 && (k == 8 ==> ByteOf(n, 7) < 0x80)
    ensures var s1 := Len64Byte(s, ByteOf(n, k - 1), k, cfg.lp64);
      && s1 == s.(length := s1.length)
        && (if k == 8 then 0 else s.length) + Share(n, k, cfg.lp64) == s1.length + Share(n, k - 1, cfg.lp64)
      && ServerStep(s, ByteOf(n, k - 1), cfg, 0, 0)
        == More(if k > 1 then s1.(ps := Len64(k - 1)) else ServerAfterLength(s1))
  {
    hide Share, ByteOf;
    ShareStep(n, k, cfg.lp64);
  }

  lemma ClientLen64Step(s: RxState, cfg: Config, n: nat, k: nat)
    requires s.ps == Len64(k) && 1 <= k <= 8 && (k == 8 ==> ByteOf(n, 7) < 0x80) && !s.masked
    requires (if k == 8 then 0 else s.length) + Share(n, k, cfg.lp64) > 0
    ensures var s1 := Len64Byte(s, ByteOf(n, k - 1), k, cfg.lp64);
      && s1 == s.(length := s1.length)
        && (if k == 8 then 0 else s.length) + Share(n, k, cfg.lp64) == s1.length + Share(n, k - 1, cfg.lp64)
      && ClientStep(s, ByteOf(n, k - 1), cfg, 0) == More(s1.(ps := if k > 1 then Len64(k - 1) else Payload))
  {
    hide ByteOf;
    ShareStep(n, k, cfg.lp64);
  }

  /** The whole 64 bit field, from any of its bytes on. */
  lemma {:induction false} ServerReads64(s: RxState, cfg: Config, n: nat, k: nat)
    requires s.ps == Len64(k) && 1 <= k <= 8 && (k == 8 ==> ByteOf(n, 7) < 0x80)
    ensures Run(Server(cfg), s, BigEndian(n, k))
      == More(ServerAfterLength(s.(length := (if k == 8 then 0 else s.length) + Share(n, k, cfg.lp64))))
    decreases k
  {
    hide ServerHdrLen, ServerLen16, ServerKey, ServerPayload, ServerSpill;
    var c := ByteOf(n, k - 1);
    var s1 := Len64Byte(s, c, k, cfg.lp64);
    ServerLen64Step(s, cfg, n, k);
    assert BigEndian(n, k) == [c] + BigEndian(n, k - 1);
    if k > 1 {
      var s2 := s1.(ps := Len64(k - 1));
      RunTo(Server(cfg), s, c, s2, BigEndian(n, k - 1));
      ServerReads64(s2, cfg, n, k - 1);
    } else {
      RunTo(Server(cfg), s, c, ServerAfterLength(s1), []);
    }
  }

  lemma TopBit(len: nat, lp64: bool)
    ensures var n := len % LengthLimit(lp64); ByteOf(n, 7) < 0x80 && Share(n, 8, lp64) == n
  {
    var n := len % LengthLimit(lp64);
    LowAll(n);
    Top7(n);
  }

  lemma Top7(n: nat)
    requires n < 0x8000_0000_0000_0000
    ensures ByteOf(n, 7) < 0x80
  {
    var n1 := n / 256; var n2 := n1 / 256; var n3 := n2 / 256; var n4 := n3 / 256;
    var n5 := n4 / 256; var n6 := n5 / 256; var n7 := n6 / 256;
    assert ByteOf(n, 7) == ByteOf(n1, 6) == ByteOf(n2, 5) == ByteOf(n3, 4) == ByteOf(n4, 3) == ByteOf(n5, 2)
      == ByteOf(n6, 1) == n7 % 256;
  }

  lemma TwoBytes(n: nat)
    requires n < 65536
    ensures BigEndian(n, 2) == [n / 256] + [n % 256]
  {
    assert BigEndian(n, 0) == [];
    assert BigEndian(n, 1) == [n % 256] + BigEndian(n, 0) == [n % 256];
    assert ByteOf(n, 1) == n / 256 % 256 == n / 256;
  }

  lemma ServerShortLength(s: RxState, cfg: Config, len: nat)
    requires s.ps == HdrLen && len < 126
    ensures ServerStep(s, len + 0x80, cfg, 0, 0) == More(s.(ps := CollectKey(1), masked := true, length := len))
  {
    assert (len + 0x80) % 128 == len;
  }

  lemma ServerLongLength(s: RxState, cfg: Config, c: byte)
    requires s.ps == HdrLen && IsData(s.opcode) && 126 <= c - 0x80
    ensures ServerStep(s, c, cfg, 0, 0) == More(s.(ps := if c == 0xfe then Len16(2) else Len64(8), masked := true))
  {
    assert c % 128 == c - 0x80;
  }

  lemma Server16(s: RxState, cfg: Config, len: nat)
    requires s.ps == Len16(2) && s.masked && len < 65536
    ensures Run(Server(cfg), s, BigEndian(len, 2)) == More(s.(ps := CollectKey(1), length := len))
  {
    TwoBytes(len);
    var s1 := s.(ps := Len16(1), length := len / 256 * 256);
    RunTo(Server(cfg), s, len / 256, s1, [len % 256]);
    RunOne(Server(cfg), s1, len % 256, s.(ps := CollectKey(1), length := len));
  }

  /** The length field, in any of its three encodings. */
  lemma ServerLength(s: RxState, cfg: Config, len: nat)
    requires s.ps == HdrLen && IsData(s.opcode)
    ensures Run(Server(cfg), s, LengthField(len, 0x80, cfg.lp64))
      == More(s.(ps := CollectKey(1), masked := true, length := DecodedLength(len, cfg.lp64)))
  {
    hide Run, BigEndian, ServerLen16, ServerLen64, ServerKey, ServerPayload, ServerSpill;
    var s1 := s.(masked := true);
    if len < 126 {
      ServerShortLength(s, cfg, len);
      RunOne(Server(cfg), s, len + 0x80, s1.(ps := CollectKey(1), length := len));
    } else if len < 65536 {
      ServerLongLength(s, cfg, 0xfe);
      RunTo(Server(cfg), s, 0xfe, s1.(ps := Len16(2)), BigEndian(len, 2));
      Server16(s1.(ps := Len16(2)), cfg, len);
    } else {
      var n := len % LengthLimit(cfg.lp64);
      TopBit(len, cfg.lp64);
      ServerLongLength(s, cfg, 0xff);
      RunTo(Server(cfg), s, 0xff, s1.(ps := Len64(8)), BigEndian(n, 8));
      ServerReads64(s1.(ps := Len64(8)), cfg, n, 8);
    }
  }

  predicate ZeroKey(key: Key) { key[0] == 0 && key[1] == 0 && key[2] == 0 && key[3] == 0 }

  lemma ServerReadsKey(s: RxState, cfg: Config, key: Key)
    requires s.ps == CollectKey(1) && s.length > 0
    ensures Run(Server(cfg), s, key)
      == More(s.(ps := Payload, nonce := key, allZero := s.allZero && ZeroKey(key), maskIndex := 0))
  {
    hide Run, ServerHdrLen, ServerLen16, ServerLen64, ServerPayload, ServerSpill;
    var step := Server(cfg);
    var s1 := CollectKeyByte(s, key[0], 1).(ps := CollectKey(2));
    var s2 := CollectKeyByte(s1, key[1], 2).(ps := CollectKey(3));
    var s3 := CollectKeyByte(s2, key[2], 3).(ps := CollectKey(4));
    assert CollectKeyByte(s3, key[3], 4).nonce == key;
    assert key == [key[0]] + ([key[1]] + ([key[2]] + [key[3]]));
    RunTo(step, s, key[0], s1, [key[1]] + ([key[2]] + [key[3]]));
    RunTo(step, s1, key[1], s2, [key[2]] + [key[3]]);
    RunTo(step, s2, key[2], s3, [key[3]]);
    RunOne(step, s3, key[3], s.(ps := Payload, nonce := key, allZero := s.allZero && ZeroKey(key), maskIndex := 0));
  }

  function AfterHead(s: RxState, m: Message, masked: bool, length: nat): RxState
    requires m.opcode < 16
  {
    s.(ps := if masked then CollectKey(1) else Payload, opcode := m.opcode, rsv := 0, final := m.fin,
       binary := NextBinary(m.opcode, s.binary), masked := masked, length := length)
  }

  lemma FirstByteFields(s: RxState, m: Message)
    requires IsData(m.opcode)
    ensures FirstHeaderByte(s, FirstByte(m.opcode, m.fin))
         == s.(ps := HdrLen, opcode := m.opcode, rsv := 0, final := m.fin, binary := NextBinary(m.opcode, s.binary))
  {
    var b := FirstByte(m.opcode, m.fin);
    assert b % 16 == m.opcode && b / 16 % 8 == 0;
  }

  /** After the head of a data frame the receiver knows opcode, FIN and the announced length. */
  lemma ServerHead(s: RxState, cfg: Config, m: Message)
    requires s.ps == New && IsData(m.opcode)
    ensures Run(Server(cfg), s, Head(m.opcode, m.fin, |m.payload|, 0x80, cfg.lp64))
         == More(AfterHead(s.(allZero := true), m, true, DecodedLength(|m.payload|, cfg.lp64)))
  {
    var b, s0 := FirstByte(m.opcode, m.fin), s.(allZero := true);
    var s1 := s0.(ps := HdrLen, opcode := m.opcode, rsv := 0, final := m.fin, binary := NextBinary(m.opcode, s.binary));
    FirstByteFields(s0, m);
    assert ServerStep(s, b, cfg, 0, 0) == More(s1);
    RunTo(Server(cfg), s, b, s1, LengthField(|m.payload|, 0x80, cfg.lp64));
    ServerLength(s1, cfg, |m.payload|);
  }

  // ------------------------------------------------------------------- payload

  function Piece(s: RxState, data: seq<byte>): seq<Event> {
    [Receive(s.opcode, s.final, s.binary, data, s.length)]
  }

  /** Both receivers treat payload bytes alike; a client also takes unmasked frames as they are. */
  predicate Plain(server: bool, s: RxState) { s.allZero || (!server && !s.masked) }

  function PayloadStep(s: RxState, c: byte, plain: bool, cap: nat): Step
    requires s.length > 0
  {
    var data := s.buffer + [if plain then c else Unmask(s, c)];
    var s1 := s.(length := s.length - 1, maskIndex := if plain then s.maskIndex else (s.maskIndex + 1) % 256);
    if s.length == 1 then Step(s1.(ps := New, buffer := []), Piece(s1, data), 0)
    else if |data| == cap then Step(s1.(buffer := []), Piece(s1, data), 0)
    else More(s1.(buffer := data))
  }

  predicate Open(s: RxState, cap: nat) { s.ps == Payload && IsData(s.opcode) && s.length > 0 && |s.buffer| < cap }

  ghost predicate PayloadMachine(step: Machine, server: bool, cap: nat) {
    forall s, c :: Open(s, cap) ==> step(s, c) == PayloadStep(s, c, Plain(server, s), cap)
  }

  lemma ServerPayloadMachine(cfg: Config)
    ensures PayloadMachine(Server(cfg), true, Capacity(cfg))
  {
    forall s, c | Open(s, Capacity(cfg)) ensures Server(cfg)(s, c) == PayloadStep(s, c, Plain(true, s), Capacity(cfg)) {
      ServerPayloadStep(cfg, s, c);
    }
  }

  lemma ServerPayloadStep(cfg: Config, s: RxState, c: byte)
    requires Open(s, Capacity(cfg))
    ensures Server(cfg)(s, c) == PayloadStep(s, c, Plain(true, s), Capacity(cfg))
  {
    hide Unmask;
  }

  lemma ClientPayloadMachine(cfg: Config)
    ensures PayloadMachine(Client(cfg), false, Capacity(cfg))
  {
    forall s, c | Open(s, Capacity(cfg))
      ensures Client(cfg)(s, c) == PayloadStep(s, c, Plain(false, s), Capacity(cfg))
    {
      ClientPayloadStep(cfg, s, c);
    }
  }

  lemma ClientPayloadStep(cfg: Config, s: RxState, c: byte)
    requires Open(s, Capacity(cfg))
    ensures Client(cfg)(s, c) == PayloadStep(s, c, Plain(false, s), Capacity(cfg))
  {
    hide Unmask;
  }

  /** The mask position of the next byte is `from`; a plain frame is one an all-zero key leaves alone. */
  predicate InStep(server: bool, s: RxState, key: Key, from: nat) {
    if Plain(server, s) then ZeroKey(key) else s.nonce == key && s.maskIndex % 4 == from % 4
  }

  lemma UnmaskNext(server: bool, s: RxState, key: Key, from: nat, b: byte)
    requires InStep(server, s, key, from)
    ensures (if Plain(server, s) then Xor(b, key[from % 4]) else Unmask(s, Xor(b, key[from % 4]))) == b
  {
    XorTwice(b, key[from % 4]);
    XorZero(b, key[from % 4]);
  }

  lemma MaskedFirst(key: Key, p: seq<byte>, from: nat)
    requires p != []
    ensures Masked(key, p, |p|, from) == [Xor(p[0], key[from % 4])] + Masked(key, p[1..], |p| - 1, from + 1)
  {}

  lemma PiecesSplit(opcode: byte, final: bool, binary: bool, b: seq<byte>, p: seq<byte>, cap: nat)
    requires |b| == cap > 0 && p != []
    ensures Pieces(opcode, final, binary, b + p, cap)
      == [Receive(opcode, final, binary, b, |p|)] + Pieces(opcode, final, binary, p, cap)
  {
    assert (b + p)[..cap] == b && (b + p)[cap..] == p;
  }

  /** r has handed over what was buffered in s followed by p, and is idle again. */
  predicate Received(r: Step, s: RxState, p: seq<byte>, cap: nat)
    requires cap > 0
  {
    r.ret == 0 && Idle(r.state) && r.state.binary == s.binary
      && r.events == Pieces(s.opcode, s.final, s.binary, s.buffer + p, cap)
  }

  lemma ReceivedMore(r: Step, q: Step, s: RxState, b: byte, rest: seq<byte>, cap: nat)
    requires cap > 0 && |s.buffer| < cap && rest != [] && r.ret == 0
    requires r.state.opcode == s.opcode && r.state.final == s.final && r.state.binary == s.binary
    requires if |s.buffer| + 1 == cap then r.state.buffer == []
      && r.events == [Receive(s.opcode, s.final, s.binary, s.buffer + [b], |rest|)]
             else r.state.buffer == s.buffer + [b] && r.events == []
    requires Received(q, r.state, rest, cap)
    ensures Received(Then(r, q), s, [b] + rest, cap)
  {
    assert s.buffer + ([b] + rest) == (s.buffer + [b]) + rest;
    if |s.buffer| + 1 == cap {
      PiecesSplit(s.opcode, s.final, s.binary, s.buffer + [b], rest, cap);
      assert [] + rest == rest;
    }
  }

  lemma NextMaskIndex(i: byte, from: nat)
    requires i % 4 == from % 4
    ensures (i + 1) % 256 % 4 == (from + 1) % 4
  {}

  /** One payload byte that does not end the frame. */
  lemma PayloadByte(server: bool, s: RxState, key: Key, from: nat, b: byte, cap: nat)
    requires Open(s, cap) && InStep(server, s, key, from) && s.length > 1
    ensures var r := PayloadStep(s, Xor(b, key[from % 4]), Plain(server, s), cap);
      && Open(r.state, cap) && InStep(server, r.state, key, from + 1) && r.ret == 0 && r.state.length == s.length - 1
      && r.state.opcode == s.opcode && r.state.final == s.final && r.state.binary == s.binary
      && if |s.buffer| + 1 == cap then r.state.buffer == []
        && r.events == [Receive(s.opcode, s.final, s.binary, s.buffer + [b], s.length - 1)]
         else r.state.buffer == s.buffer + [b] && r.events == []
  {
    UnmaskNext(server, s, key, from, b);
    if !Plain(server, s) { NextMaskIndex(s.maskIndex, from); }
  }

  lemma LastPayloadByte(server: bool, s: RxState, key: Key, from: nat, b: byte, cap: nat)
    requires Open(s, cap) && InStep(server, s, key, from) && s.length == 1
    ensures Received(PayloadStep(s, Xor(b, key[from % 4]), Plain(server, s), cap), s, [b], cap)
  {
    UnmaskNext(server, s, key, from, b);
  }

  lemma LastOfRun(step: Machine, s: RxState, c: byte, r: Step, key: Key, p: seq<byte>, from: nat)
    requires |p| == 1 && c == Xor(p[0], key[from % 4]) && step(s, c) == r
    ensures Run(step, s, Masked(key, p, |p|, from)) == r
  {
    MaskedFirst(key, p, from);
    assert Masked(key, p[1..], 0, from + 1) == [] && [c] + [] == [c] && [c][1..] == [];
    assert r.events + [] == r.events;
  }

  /** The rest of a payload, with some of it buffered already. */
  lemma {:induction false} PayloadRun(step: Machine, server: bool, s: RxState, key: Key, from: nat, p: seq<byte>,
      cap: nat)
    requires PayloadMachine(step, server, cap) && Open(s, cap) && InStep(server, s, key, from) && s.length == |p|
    ensures Received(Run(step, s, Masked(key, p, |p|, from)), s, p, cap)
    decreases |p|
  {
    hide Pieces, Xor, PayloadStep, Received, Masked, Run;
    var b, rest := p[0], p[1..];
    var c, wire := Xor(b, key[from % 4]), Masked(key, rest, |rest|, from + 1);
    var r := PayloadStep(s, c, Plain(server, s), cap);
    assert step(s, c) == r;
    MaskedFirst(key, p, from);
    if rest == [] {
      LastPayloadByte(server, s, key, from, b, cap);
      assert p == [b];
      LastOfRun(step, s, c, r, key, p, from);
    } else {
      PayloadByte(server, s, key, from, b, cap);
      PayloadRun(step, server, r.state, key, from + 1, rest, cap);
      RunFirst(step, s, c, wire);
      ReceivedMore(r, Run(step, r.state, wire), s, b, rest, cap);
      assert p == [b] + rest;
    }
  }

  lemma RunOn(step: Machine, s: RxState, head: seq<byte>, s1: RxState, rest: seq<byte>)
    requires Run(step, s, head) == More(s1)
    ensures Run(step, s, head + rest) == Run(step, s1, rest)
  {
    RunAppend(step, s, head, rest);
    var r := Run(step, s1, rest);
    assert [] + r.events == r.events;
  }

  /** r has handed over message m and is idle again. */
  predicate Delivered(r: Step, m: Message, binary: bool, cap: nat)
    requires cap > 0
  {
    r.ret == 0 && Idle(r.state) && r.state.binary == NextBinary(m.opcode, binary)
    && r.events == Pieces(m.opcode, m.fin, NextBinary(m.opcode, binary), m.payload, cap)
  }

  // ------------------------------------------------------------ client to server

  lemma ServerFrameStart(s: RxState, cfg: Config, m: Message, key: Key)
    requires Idle(s) && IsData(m.opcode) && DecodedLength(|m.payload|, cfg.lp64) > 0
    ensures Run(Server(cfg), s, Head(m.opcode, m.fin, |m.payload|, 0x80, cfg.lp64) + key)
         == More(AfterHead(s, m, true, DecodedLength(|m.payload|, cfg.lp64)).(ps := Payload, nonce := key,
           allZero := ZeroKey(key), maskIndex := 0))
  {
    hide ServerStep, Head, Run, CollectKeyByte;
    var head := Head(m.opcode, m.fin, |m.payload|, 0x80, cfg.lp64);
    var s1 := AfterHead(s.(allZero := true), m, true, DecodedLength(|m.payload|, cfg.lp64));
    ServerHead(s, cfg, m);
    ServerReadsKey(s1, cfg, key);
    RunAppend(Server(cfg), s, head, key);
  }

  /**
    The length the server expects after the head is the payload's length exactly
    when it is below the limit of the build.
  */
  lemma ServerLengthExactly(s: RxState, cfg: Config, m: Message)
    requires s.ps == New && IsData(m.opcode)
    ensures Run(Server(cfg), s, Head(m.opcode, m.fin, |m.payload|, 0x80, cfg.lp64)).state.length == |m.payload|
       <==> |m.payload| < LengthLimit(cfg.lp64)
  {
    hide ServerStep, Head, Run;
    ServerHead(s, cfg, m);
  }

  lemma ServerPayloadRun(s: RxState, cfg: Config, key: Key, p: seq<byte>)
    requires s.ps == Payload && IsData(s.opcode) && s.length == |p| > 0 && s.buffer == [] && s.maskIndex == 0
    requires s.nonce == key && s.allZero == ZeroKey(key)
    ensures Received(Run(Server(cfg), s, Masked(key, p, |p|, 0)), s, p, Capacity(cfg))
  {
    ServerPayloadMachine(cfg);
    assert InStep(true, s, key, 0) && Open(s, Capacity(cfg));
    PayloadRun(Server(cfg), true, s, key, 0, p, Capacity(cfg));
  }

  /** One masked frame: the server hands over the message and is ready for the next. */
  lemma MaskedMessage(s: RxState, cfg: Config, m: Message, key: Key)
    requires Idle(s) && DataMessage(m) && |m.payload| + 4 < 0x8000_0000
    ensures Delivered(Run(Server(cfg), s, ClientFrame(m, key, cfg.lp64)), m, s.binary, Capacity(cfg))
  {
    hide ServerStep, Head, Run, Pieces;
    var step, p, cap := Server(cfg), m.payload, Capacity(cfg);
    var head, wire := Head(m.opcode, m.fin, |p|, 0x80, cfg.lp64) + key, Masked(key, p, |p|, 0);
    MaskCountFull(|p|);
    DecodedExactly(|p|, cfg.lp64);
    ServerFrameStart(s, cfg, m, key);
    var s1 := Run(step, s, head).state;
    RunOn(step, s, head, s1, wire);
    ServerPayloadRun(s1, cfg, key, p);
    assert s1.buffer + p == p;
  }

  function ClientStream(ms: seq<Message>, keys: seq<Key>, lp64: bool): seq<byte>
    requires |keys| == |ms| && forall i :: 0 <= i < |ms| ==> ms[i].opcode < 16
  {
    if ms == [] then [] else ClientFrame(ms[0], keys[0], lp64) + ClientStream(ms[1..], keys[1..], lp64)
  }

  /** r has handed over all of ms and is idle again. */
  predicate AllDelivered(r: Step, ms: seq<Message>, binary: bool, cap: nat)
    requires cap > 0
  {
    r.ret == 0 && Idle(r.state) && r.events == Deliveries(ms, binary, cap)
  }

  lemma DeliveredThen(r: Step, q: Step, ms: seq<Message>, binary: bool, cap: nat)
    requires cap > 0 && ms != [] && Delivered(r, ms[0], binary, cap) && AllDelivered(q, ms[1..], r.state.binary, cap)
    ensures AllDelivered(Then(r, q), ms, binary, cap)
  {}

  ghost predicate Writable(ms: seq<Message>, limit: nat) {
    forall i :: 0 <= i < |ms| ==> DataMessage(ms[i]) && ms[i].opcode < 16 && |ms[i].payload| < limit
  }

  /**
    Masked framing round trip: whatever messages a client writes, with whatever keys,
    the server hands over the same messages in order and ends ready for a new frame.
  */
  lemma {:induction false} MaskedRoundTrip(s: RxState, cfg: Config, ms: seq<Message>, keys: seq<Key>)
    requires Idle(s) && |keys| == |ms| && Writable(ms, 0x8000_0000 - 4)
    ensures AllDelivered(Run(Server(cfg), s, ClientStream(ms, keys, cfg.lp64)), ms, s.binary, Capacity(cfg))
    decreases |ms|
  {
    hide ServerStep, ClientFrame, Pieces;
    if ms != [] {
      var frame, rest := ClientFrame(ms[0], keys[0], cfg.lp64), ClientStream(ms[1..], keys[1..], cfg.lp64);
      MaskedMessage(s, cfg, ms[0], keys[0]);
      var r := Run(Server(cfg), s, frame);
      RunAppend(Server(cfg), s, frame, rest);
      MaskedRoundTrip(r.state, cfg, ms[1..], keys[1..]);
      DeliveredThen(r, Run(Server(cfg), r.state, rest), ms, s.binary, Capacity(cfg));
    }
  }

  // ------------------------------------------------------------ server to client

  lemma {:induction false} ClientReads64(s: RxState, cfg: Config, n: nat, k: nat)
    requires s.ps == Len64(k) && 1 <= k <= 8 && (k == 8 ==> ByteOf(n, 7) < 0x80) && !s.masked
    requires (if k == 8 then 0 else s.length) + Share(n, k, cfg.lp64) > 0
    ensures Run(Client(cfg), s, BigEndian(n, k))
      == More(s.(ps := Payload, length := (if k == 8 then 0 else s.length) + Share(n, k, cfg.lp64)))
    decreases k
  {
    hide ClientHdrLen, ClientLen16, ClientKey, ClientPayload, ClientSpill;
    var c := ByteOf(n, k - 1);
    var s1 := Len64Byte(s, c, k, cfg.lp64);
    ClientLen64Step(s, cfg, n, k);
    assert BigEndian(n, k) == [c] + BigEndian(n, k - 1);
    if k > 1 {
      var s2 := s1.(ps := Len64(k - 1));
      RunTo(Client(cfg), s, c, s2, BigEndian(n, k - 1));
      ClientReads64(s2, cfg, n, k - 1);
    } else {
      RunTo(Client(cfg), s, c, s1.(ps := Payload), []);
    }
  }

  lemma ClientLongLength(s: RxState, cfg: Config, c: byte)
    requires s.ps == HdrLen && IsData(s.opcode) && 126 <= c < 0x80
    ensures ClientStep(s, c, cfg, 0) == More(s.(ps := if c == 126 then Len16(2) else Len64(8), masked := false))
  {}

  lemma Client16(s: RxState, cfg: Config, len: nat)
    requires s.ps == Len16(2) && !s.masked && 0 < len < 65536
    ensures Run(Client(cfg), s, BigEndian(len, 2)) == More(s.(ps := Payload, length := len))
  {
    TwoBytes(len);
    var s1 := s.(ps := Len16(1), length := len / 256 * 256);
    RunTo(Client(cfg), s, len / 256, s1, [len % 256]);
    RunOne(Client(cfg), s1, len % 256, s.(ps := Payload, length := len));
  }

  lemma ClientLength(s: RxState, cfg: Config, len: nat)
    requires s.ps == HdrLen && IsData(s.opcode) && DecodedLength(len, cfg.lp64) > 0
    ensures Run(Client(cfg), s, LengthField(len, 0, cfg.lp64))
      == More(s.(ps := Payload, masked := false, length := DecodedLength(len, cfg.lp64)))
  {
    hide Run, BigEndian, ClientLen16, ClientLen64, ClientKey, ClientPayload, ClientSpill;
    var s1 := s.(masked := false);
    if len < 126 {
      RunOne(Client(cfg), s, len, s1.(ps := Payload, length := len));
    } else if len < 65536 {
      ClientLongLength(s, cfg, 126);
      RunTo(Client(cfg), s, 126, s1.(ps := Len16(2)), BigEndian(len, 2));
      Client16(s1.(ps := Len16(2)), cfg, len);
    } else {
      var n := len % LengthLimit(cfg.lp64);
      TopBit(len, cfg.lp64);
      ClientLongLength(s, cfg, 127);
      RunTo(Client(cfg), s, 127, s1.(ps := Len64(8)), BigEndian(n, 8));
      ClientReads64(s1.(ps := Len64(8)), cfg, n, 8);
    }
  }

  lemma ClientHead(s: RxState, cfg: Config, m: Message)
    requires s.ps == New && IsData(m.opcode) && DecodedLength(|m.payload|, cfg.lp64) > 0
    ensures Run(Client(cfg), s, Head(m.opcode, m.fin, |m.payload|, 0, cfg.lp64))
         == More(AfterHead(s, m, false, DecodedLength(|m.payload|, cfg.lp64)))
  {
    var b := FirstByte(m.opcode, m.fin);
    var s1 := s.(ps := HdrLen, opcode := m.opcode, rsv := 0, final := m.fin, binary := NextBinary(m.opcode, s.binary));
    FirstByteFields(s, m);
    assert ClientStep(s, b, cfg, 0) == More(s1);
    RunTo(Client(cfg), s, b, s1, LengthField(|m.payload|, 0, cfg.lp64));
    ClientLength(s1, cfg, |m.payload|);
  }

  lemma ClientPayloadRun(s: RxState, cfg: Config, p: seq<byte>)
    requires s.ps == Payload && IsData(s.opcode) && s.length == |p| > 0 && s.buffer == [] && !s.masked
    ensures Received(Run(Client(cfg), s, p), s, p, Capacity(cfg))
  {
    var key: Key := [0, 0, 0, 0];
    ClientPayloadMachine(cfg);
    PlainIsMaskedWithZero(p);
    assert InStep(false, s, key, 0) && Open(s, Capacity(cfg));
    PayloadRun(Client(cfg), false, s, key, 0, p, Capacity(cfg));
  }

  /** One unmasked frame, whatever key and mask position an earlier frame left behind. */
  lemma UnmaskedMessage(s: RxState, cfg: Config, m: Message)
    requires Idle(s) && DataMessage(m) && |m.payload| < LengthLimit(cfg.lp64)
    ensures Delivered(Run(Client(cfg), s, ServerFrame(m, cfg.lp64)), m, s.binary, Capacity(cfg))
  {
    hide ClientStep, Head, Run, Pieces;
    var step, p, cap := Client(cfg), m.payload, Capacity(cfg);
    var s1 := AfterHead(s, m, false, |p|);
    DecodedExactly(|p|, cfg.lp64);
    ClientHead(s, cfg, m);
    RunOn(step, s, Head(m.opcode, m.fin, |p|, 0, cfg.lp64), s1, p);
    ClientPayloadRun(s1, cfg, p);
    assert s1.buffer + p == p;
  }

  lemma PlainIsMaskedWithZero(p: seq<byte>)
    ensures Masked([0, 0, 0, 0], p, |p|, 0) == p
  {
    forall i | 0 <= i < |p| ensures Masked([0, 0, 0, 0], p, |p|, 0)[i] == p[i] { XorZero(p[i], 0); }
  }

  function ServerStream(ms: seq<Message>, lp64: bool): seq<byte>
    requires forall i :: 0 <= i < |ms| ==> ms[i].opcode < 16
  {
    if ms == [] then [] else ServerFrame(ms[0], lp64) + ServerStream(ms[1..], lp64)
  }

  /** Unmasked framing round trip. */
  lemma {:induction false} UnmaskedRoundTrip(s: RxState, cfg: Config, ms: seq<Message>)
    requires Idle(s) && Writable(ms, LengthLimit(cfg.lp64))
    ensures AllDelivered(Run(Client(cfg), s, ServerStream(ms, cfg.lp64)), ms, s.binary, Capacity(cfg))
    decreases |ms|
  {
    hide ClientStep, ServerFrame, Pieces;
    if ms != [] {
      var frame, rest := ServerFrame(ms[0], cfg.lp64), ServerStream(ms[1..], cfg.lp64);
      UnmaskedMessage(s, cfg, ms[0]);
      var r := Run(Client(cfg), s, frame);
      RunAppend(Client(cfg), s, frame, rest);
      UnmaskedRoundTrip(r.state, cfg, ms[1..]);
      DeliveredThen(r, Run(Client(cfg), r.state, rest), ms, s.binary, Capacity(cfg));
    }
  }

  // ---------------------------------------------------------- what callbacks see

  function Joined(events: seq<Event>): seq<byte> {
    if events == [] then [] else (if events[0].Receive? then events[0].data else []) + Joined(events[1..])
  }

  /** Piece i fills the buffer unless it is the last, and reports exactly the bytes still to come. */
  predicate PieceOk(es: seq<Event>, i: nat, cap: nat)
    requires i < |es|
  {
    es[i].Receive? && 0 < |es[i].data| <= cap && (i < |es| - 1 ==> |es[i].data| == cap)
      && es[i].remaining == |Joined(es[i + 1..])|
  }

  /** The pieces of a payload are full buffers and a non-empty remainder; together they are the payload. */
  lemma {:induction false} PiecesExactly(opcode: byte, final: bool, binary: bool, data: seq<byte>, cap: nat)
    requires cap > 0 && data != []
    ensures Joined(Pieces(opcode, final, binary, data, cap)) == data
    ensures forall i :: 0 <= i < |Pieces(opcode, final, binary, data, cap)| ==>
      PieceOk(Pieces(opcode, final, binary, data, cap), i, cap)
    decreases |data|
  {
    var es := Pieces(opcode, final, binary, data, cap);
    if |data| <= cap {
      assert es[1..] == [] && data + [] == data;
    } else {
      var rest := Pieces(opcode, final, binary, data[cap..], cap);
      PiecesExactly(opcode, final, binary, data[cap..], cap);
      assert es[1..] == rest && data == data[..cap] + data[cap..];
      forall i | 0 <= i < |es| ensures PieceOk(es, i, cap) {
        if i > 0 {
          assert PieceOk(rest, i - 1, cap);
          assert es[i + 1..] == rest[i..];
        }
      }
    }
  }

  // ------------------------------------------------------- bounds on any input

  /** Whether the caller goes on: libwebsocket_read stops a server at a negative result, a client at any. */
  predicate Survives(server: bool, ret: int) { if server then ret >= 0 else ret == 0 }

  /** The head never passes the capacity, and stays below it while bytes may follow. */
  predicate Within(server: bool, r: Step, cap: nat) {
    |r.state.buffer| <= cap && (Survives(server, r.ret) ==> |r.state.buffer| < cap)
  }

  lemma ServerSpillWithin(s: RxState, cfg: Config, reply: int, cb: int)
    requires |s.buffer| <= Capacity(cfg)
    ensures Within(true, ServerSpill(s, cfg, reply, cb), Capacity(cfg))
  {}

  lemma ServerPayloadWithin(s: RxState, c: byte, cfg: Config, reply: int, cb: int)
    requires |s.buffer| < Capacity(cfg)
    ensures Within(true, ServerPayload(s, c, cfg, reply, cb), Capacity(cfg))
  {
    hide ServerSpill, Unmask;
    var s1 := Store(s, if s.allZero then c else Unmask(s, c), !s.allZero, cfg.lp64);
    ServerSpillWithin(s1, cfg, reply, cb);
    ServerSpillWithin(s1.(ps := New), cfg, reply, cb);
  }

  lemma ServerHdrLenWithin(s: RxState, c: byte, cfg: Config, reply: int, cb: int)
    requires |s.buffer| < Capacity(cfg)
    ensures Within(true, ServerHdrLen(s, c, cfg, reply, cb), Capacity(cfg))
  {
    hide ServerSpill;
    ServerSpillWithin(s.(masked := c >= 0x80, length := c % 128, ps := New), cfg, reply, cb);
  }

  lemma ServerKeyWithin(s: RxState, c: byte, k: nat, cfg: Config, reply: int, cb: int)
    requires |s.buffer| < Capacity(cfg)
    ensures Within(true, ServerKey(s, c, k, cfg, reply, cb), Capacity(cfg))
  {
    hide ServerSpill;
    if 1 <= k <= 4 { ServerSpillWithin(CollectKeyByte(s, c, k).(ps := New, maskIndex := 0), cfg, reply, cb); }
  }

  lemma ServerStepBounded(cfg: Config, s: RxState, c: byte, reply: int, cb: int)
    requires |s.buffer| < Capacity(cfg)
    ensures Within(true, ServerStep(s, c, cfg, reply, cb), Capacity(cfg))
  {
    hide ServerPayload, ServerHdrLen, ServerKey;
    match s.ps {
      case HdrLen => ServerHdrLenWithin(s, c, cfg, reply, cb);
      case CollectKey(k) => ServerKeyWithin(s, c, k, cfg, reply, cb);
      case Payload => ServerPayloadWithin(s, c, cfg, reply, cb);
      case _ =>
    }
  }

  lemma ClientSpillWithin(s: RxState, cfg: Config, cb: int)
    requires |s.buffer| <= Capacity(cfg)
    ensures Within(false, ClientSpill(s, cfg, cb), Capacity(cfg))
  {}

  lemma ClientAfterWithin(s: RxState, cfg: Config, cb: int)
    requires |s.buffer| < Capacity(cfg)
    ensures Within(false, ClientAfterLength(s, cfg, cb), Capacity(cfg))
  {
    hide ClientSpill;
    ClientSpillWithin(s.(ps := New), cfg, cb);
  }

  lemma ClientPayloadWithin(s: RxState, c: byte, cfg: Config, cb: int)
    requires |s.buffer| < Capacity(cfg)
    ensures Within(false, ClientPayload(s, c, cfg, cb), Capacity(cfg))
  {
    hide ClientSpill, Unmask;
    var plain := !s.masked || s.allZero;
    var s1 := Store(s, if plain then c else Unmask(s, c), !plain, cfg.lp64);
    ClientSpillWithin(s1, cfg, cb);
    ClientSpillWithin(s1.(ps := New), cfg, cb);
  }

  lemma ClientHeadWithin(s: RxState, c: byte, left: nat, cfg: Config, cb: int)
    requires |s.buffer| < Capacity(cfg)
    ensures Within(false, ClientHdrLen(s, c, cfg, cb), Capacity(cfg))
      && Within(false, ClientLen16(s, c, left, cfg, cb), Capacity(cfg))
    ensures Within(false, ClientLen64(s, c, left, cfg, cb), Capacity(cfg))
  {
    hide ClientAfterLength, LengthShare;
    ClientAfterWithin(s.(masked := c >= 0x80, length := c), cfg, cb);
    ClientAfterWithin(s.(length := s.length + c), cfg, cb);
    if left > 0 { ClientAfterWithin(Len64Byte(s, c, left, cfg.lp64), cfg, cb); }
  }

  lemma ClientStepBounded(cfg: Config, s: RxState, c: byte, cb: int)
    requires |s.buffer| < Capacity(cfg)
    ensures Within(false, ClientStep(s, c, cfg, cb), Capacity(cfg))
  {
    hide ClientPayload, ClientHdrLen, ClientLen16, ClientLen64, ClientSpill;
    match s.ps {
      case New =>
      case HdrLen => ClientHeadWithin(s, c, 0, cfg, cb);
      case Len16(left) => ClientHeadWithin(s, c, left, cfg, cb);
      case Len64(left) => ClientHeadWithin(s, c, left, cfg, cb);
      case CollectKey(k) => if k == 4 { ClientSpillWithin(CollectKeyByte(s, c, k).(ps := New), cfg, cb); }
      case Payload => ClientPayloadWithin(s, c, cfg, cb);
    }
  }

  // A byte, with what a reply and a callback would return if it caused them.
  datatype Input = Input(c: byte, reply: int, cb: int)

  function RunAny(server: bool, cfg: Config, s: RxState, inputs: seq<Input>): RxState
    decreases |inputs|
  {
    if inputs == [] then s
    else
      var i := inputs[0];
      var r := if server then ServerStep(s, i.c, cfg, i.reply, i.cb) else ClientStep(s, i.c, cfg, i.cb);
      if Survives(server, r.ret) then RunAny(server, cfg, r.state, inputs[1..]) else r.state
  }

  /** Whatever arrives and whatever callbacks return, the head of the receive buffer never passes its capacity. */
  lemma {:induction false} BufferBounded(server: bool, cfg: Config, s: RxState, inputs: seq<Input>)
    requires |s.buffer| < Capacity(cfg)
    ensures |RunAny(server, cfg, s, inputs).buffer| <= Capacity(cfg)
    decreases |inputs|
  {
    hide ServerStep, ClientStep;
    if inputs != [] {
      var i := inputs[0];
      ServerStepBounded(cfg, s, i.c, i.reply, i.cb);
      ClientStepBounded(cfg, s, i.c, i.cb);
      var r := if server then ServerStep(s, i.c, cfg, i.reply, i.cb) else ClientStep(s, i.c, cfg, i.cb);
      if Survives(server, r.ret) { BufferBounded(server, cfg, r.state, inputs[1..]); }
    }
  }
}
