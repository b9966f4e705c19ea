/**
  The fields of struct libwebsocket that the frame engines update, and the functions
  that update them: libwebsocket_rx_sm, libwebsocket_client_rx_sm, lws_issue_raw,
  the POLLOUT flush and libwebsocket_write.
*/
module WsConnection {
  import opened Bytes
  import opened WsFrame
  import opened WsReceive
  import opened WsSend

  datatype ConnectionState = Established | AwaitingCloseAck | ReturnedCloseAlready

  class Connection {
    const rxBufferSize: nat
    const lp64: bool
    const isClient: bool
    const noBufferAllPartialTx: bool

    var state: ConnectionState
    var closeReason: nat

    var lwsRxParseState: ParseState
    var opcode: byte
    var rsv: byte
    var final: bool
    var frameIsBinary: bool
    var thisFrameMasked: bool
    var rxPacketLength: nat
    var frameMaskingNonce: Key
    var allZeroNonce: bool
    var frameMaskIndex: byte
    const rxUserBuffer: array<byte>
    var rxUserBufferHead: nat

    var insideFrame: bool
    var cleanBuffer: bool
    var truncatedSend: array<byte>
    var truncatedSendOffset: nat
    var truncatedSendLen: nat
    var pollout: bool              // LWS_POLLOUT of the event mask
    ghost var wire: seq<byte>      // what the socket has taken
    ghost var pending: seq<byte>   // what truncatedSend still holds

    ghost predicate RxValid()
      reads this
    {
      rxUserBuffer.Length == PRE_PADDING + Capacity(Cfg()) + POST_PADDING && rxUserBufferHead <= Capacity(Cfg())
    }

    /**
      What is pending is what the buffer holds, and a writeable event is asked for as long as
      something is.  Inside a frame clean_buffer is the choice of the protocol.
    */
    ghost predicate TxValid()
      reads this, truncatedSend
    {
      && (truncatedSendLen > 0 ==> pollout)
      && (insideFrame ==> cleanBuffer == !noBufferAllPartialTx)
      && truncatedSendOffset + truncatedSendLen <= truncatedSend.Length
      && pending == truncatedSend[truncatedSendOffset..truncatedSendOffset + truncatedSendLen]
    }

    constructor (rxBufferSize: nat, lp64: bool, isClient: bool, noBufferAllPartialTx: bool)
      ensures RxValid() && TxValid() && Rx().ps == New && Rx().buffer == [] && Tx() == TxState([], [])
      ensures state == Established && closeReason == 0 && !insideFrame
      ensures this.rxBufferSize == rxBufferSize && this.lp64 == lp64 && this.isClient == isClient
      ensures fresh(rxUserBuffer) && fresh(truncatedSend)
    {
      this.rxBufferSize, this.lp64, this.isClient := rxBufferSize, lp64, isClient;
      this.noBufferAllPartialTx := noBufferAllPartialTx;
      state, closeReason := Established, 0;
      lwsRxParseState, opcode, rsv, final := New, 0, 0, false;
      frameIsBinary, thisFrameMasked, rxPacketLength := false, false, 0;
      frameMaskingNonce, allZeroNonce, frameMaskIndex := [0, 0, 0, 0], false, 0;
      rxUserBuffer := new byte[PRE_PADDING + (if rxBufferSize == 0 then MAX_SOCKET_IO_BUF else rxBufferSize)
        + POST_PADDING];
      rxUserBufferHead := 0;
      insideFrame, cleanBuffer := false, false;
      truncatedSend, truncatedSendOffset, truncatedSendLen := new byte[0], 0, 0;
      pollout, wire, pending := false, [], [];
    }

    ghost function Cfg(): Config
      reads this
    {
      Config(rxBufferSize, lp64, state == AwaitingCloseAck)
    }

    ghost function Rx(): RxState
      reads this, rxUserBuffer
      requires RxValid()
    {
      RxState(lwsRxParseState, opcode, rsv, final, frameIsBinary, thisFrameMasked, rxPacketLength,
              frameMaskingNonce, allZeroNonce, frameMaskIndex,
              rxUserBuffer[PRE_PADDING..PRE_PADDING + rxUserBufferHead])
    }

    ghost function Tx(): TxState
      reads this
    {
      TxState(wire, pending)
    }

    // -------------------------------------------------------------- receiving

    method HandleFirst(c: byte)
      requires RxValid()
      modifies this`opcode, this`rsv, this`final, this`frameIsBinary, this`lwsRxParseState
      ensures RxValid() && Rx() == FirstHeaderByte(old(Rx()), c)
    {
      opcode := c % 16;
      rsv := c / 16 % 8 * 16;
      final := c >= 0x80;
      if opcode == TEXT || opcode == BINARY { frameIsBinary := opcode == BINARY; }
      lwsRxParseState := HdrLen;
    }

    method StoreByte(b: byte, usedMask: bool)
      requires RxValid() && rxUserBufferHead < Capacity(Cfg())
      modifies this`rxUserBufferHead, this`rxPacketLength, this`frameMaskIndex, rxUserBuffer
      ensures RxValid() && Rx() == Store(old(Rx()), b, usedMask, lp64)
    {
      rxUserBuffer[PRE_PADDING + rxUserBufferHead] := b;
      rxUserBufferHead := rxUserBufferHead + 1;
      if usedMask { frameMaskIndex := (frameMaskIndex + 1) % 256; }
      rxPacketLength := if rxPacketLength == 0 then SizeMax(lp64) else rxPacketLength - 1;
    }

    /** The spill label of libwebsocket_rx_sm. */
    method ServerSpills(reply: int, cb: int) returns (ret: int, events: seq<Event>)
      requires RxValid()
      modifies this`rxUserBufferHead, this`state, rxUserBuffer
      ensures RxValid() && Step(Rx(), events, ret) == ServerSpill(old(Rx()), old(Cfg()), reply, cb)
    {
      var data := rxUserBuffer[PRE_PADDING..PRE_PADDING + rxUserBufferHead];
      if opcode == CLOSE {
        if state == AwaitingCloseAck { return -1, []; }
        state := ReturnedCloseAlready;
        return -1, [EchoClose(data)];
      }
      if opcode == PING {
        if state == AwaitingCloseAck { return -1, []; }
        if reply < 0 { return -1, [EchoPong(data)]; }
        rxUserBufferHead := 0;
        return 0, [EchoPong(data)];
      }
      ret, events := 0, [];
      if (opcode == TEXT || opcode == BINARY || opcode == CONTINUATION) && rxUserBufferHead > 0 {
        rxUserBuffer[PRE_PADDING + rxUserBufferHead] := 0;
        ret, events := cb, [Receive(opcode, final, frameIsBinary, data, rxPacketLength)];
      }
      rxUserBufferHead := 0;
    }

    method ServerHdrLenByte(c: byte, reply: int, cb: int) returns (ret: int, events: seq<Event>)
      requires RxValid()
      modifies this`thisFrameMasked, this`lwsRxParseState, this`rxPacketLength, this`rxUserBufferHead, this`state
      modifies rxUserBuffer
      ensures RxValid() && Step(Rx(), events, ret) == ServerHdrLen(old(Rx()), c, old(Cfg()), reply, cb)
    {
      ret, events := 0, [];
      thisFrameMasked := c >= 0x80;
      if c % 128 == 126 || c % 128 == 127 {
        if opcode / 8 % 2 == 1 { return -1, []; }
        lwsRxParseState := if c % 128 == 126 then Len16(2) else Len64(8);
      } else {
        rxPacketLength := c % 128;
        if thisFrameMasked {
          lwsRxParseState := CollectKey(1);
        } else if rxPacketLength != 0 {
          lwsRxParseState := Payload;
        } else {
          lwsRxParseState := New;
          ret, events := ServerSpills(reply, cb);
        }
      }
    }

    method ServerKeyByte(c: byte, k: nat, reply: int, cb: int) returns (ret: int, events: seq<Event>)
      requires RxValid()
      modifies this`frameMaskingNonce, this`allZeroNonce, this`lwsRxParseState, this`frameMaskIndex
      modifies this`rxUserBufferHead, this`state, rxUserBuffer
      ensures RxValid() && Step(Rx(), events, ret) == ServerKey(old(Rx()), c, k, old(Cfg()), reply, cb)
    {
      hide ServerSpill;
      ret, events := 0, [];
      if !(1 <= k <= 4) { return -1, []; }
      frameMaskingNonce := frameMaskingNonce[k - 1 := c];
      if c != 0 { allZeroNonce := false; }
      if k < 4 {
        lwsRxParseState := CollectKey(k + 1);
      } else {
        lwsRxParseState := Payload;
        frameMaskIndex := 0;
        if rxPacketLength == 0 {
          lwsRxParseState := New;
          ret, events := ServerSpills(reply, cb);
        }
      }
    }

    method ServerPayloadByte(c: byte, reply: int, cb: int) returns (ret: int, events: seq<Event>)
      requires RxValid() && rxUserBufferHead < Capacity(Cfg())
      modifies this`lwsRxParseState, this`rxPacketLength, this`frameMaskIndex, this`rxUserBufferHead, this`state
      modifies rxUserBuffer
      ensures RxValid() && Step(Rx(), events, ret) == ServerPayload(old(Rx()), c, old(Cfg()), reply, cb)
    {
      ret, events := 0, [];
      StoreByte(if allZeroNonce then c else Xor(c, frameMaskingNonce[frameMaskIndex % 4]), !allZeroNonce);
      if rxPacketLength == 0 {
        lwsRxParseState := New;
        ret, events := ServerSpills(reply, cb);
      } else if rxUserBufferHead == (if rxBufferSize == 0 then MAX_SOCKET_IO_BUF else rxBufferSize) {
        ret, events := ServerSpills(reply, cb);
      }
    }

    method ServerLen16Byte(c: byte, left: nat)
      requires RxValid()
      modifies this`lwsRxParseState, this`rxPacketLength
      ensures RxValid() && More(Rx()) == ServerLen16(old(Rx()), c, left)
    {
      if left == 2 {
        rxPacketLength := c * 256;
        lwsRxParseState := Len16(1);
      } else {
        rxPacketLength := rxPacketLength + c;
        lwsRxParseState := if thisFrameMasked then CollectKey(1) else Payload;
      }
    }

    method ServerLen64Byte(c: byte, left: nat) returns (ret: int)
      requires RxValid()
      modifies this`lwsRxParseState, this`rxPacketLength
      ensures RxValid() && Step(Rx(), [], ret) == ServerLen64(old(Rx()), c, left, Cfg())
    {
      if left == 0 || (left == 8 && c >= 0x80) { return -1; }
      if left == 8 { rxPacketLength := 0; }
      rxPacketLength := rxPacketLength + LengthShare(c, left, lp64);
      if left == 1 {
        lwsRxParseState := if thisFrameMasked then CollectKey(1) else Payload;
      } else {
        lwsRxParseState := Len64(left - 1);
      }
      return 0;
    }

    /** libwebsocket_rx_sm; reply is the result of a pong it writes, cb that of the user's callback. */
    method RxSm(c: byte, reply: int, cb: int) returns (ret: int, events: seq<Event>)
      requires RxValid() && rxUserBufferHead < Capacity(Cfg())
      modifies this`lwsRxParseState, this`opcode, this`rsv, this`final, this`frameIsBinary, this`thisFrameMasked
      modifies this`rxPacketLength
      modifies this`frameMaskingNonce, this`allZeroNonce, this`frameMaskIndex, this`rxUserBufferHead, this`state
      modifies rxUserBuffer
      ensures RxValid() && Step(Rx(), events, ret) == ServerStep(old(Rx()), c, old(Cfg()), reply, cb)
    {
      ret, events := 0, [];
      match lwsRxParseState {
        case New =>
          allZeroNonce := true;
          HandleFirst(c);
        case HdrLen => ret, events := ServerHdrLenByte(c, reply, cb);
        case Len16(left) => ServerLen16Byte(c, left);
        case Len64(left) => ret := ServerLen64Byte(c, left);
        case CollectKey(k) => ret, events := ServerKeyByte(c, k, reply, cb);
        case Payload => ret, events := ServerPayloadByte(c, reply, cb);
      }
    }

    /** The spill label of libwebsocket_client_rx_sm. */
    method ClientSpills(cb: int) returns (ret: int, events: seq<Event>)
      requires RxValid()
      modifies this`rxUserBufferHead, this`state, rxUserBuffer
      ensures RxValid() && Step(Rx(), events, ret) == ClientSpill(old(Rx()), old(Cfg()), cb)
    {
      var data := rxUserBuffer[PRE_PADDING..PRE_PADDING + rxUserBufferHead];
      if opcode == CLOSE {
        if state == AwaitingCloseAck { return -1, []; }
        state := ReturnedCloseAlready;
        return -1, [EchoClose(data)];
      }
      events := [];
      if opcode == PING {
        if state != AwaitingCloseAck { events := [EchoPong(data)]; }
      } else if opcode == PONG
        || ((opcode == TEXT || opcode == BINARY || opcode == CONTINUATION) && rxUserBufferHead > 0) {
        rxUserBuffer[PRE_PADDING + rxUserBufferHead] := 0;
        events := [if opcode == PONG then ReceivePong(data, rxPacketLength)
          else Receive(opcode, final, frameIsBinary, data, rxPacketLength)];
        if cb != 0 {
          assert rxUserBuffer[PRE_PADDING..PRE_PADDING + rxUserBufferHead] == data;
          return 1, events;
        }
      }
      rxUserBufferHead := 0;
      return 0, events;
    }

    method ClientAfter(cb: int) returns (ret: int, events: seq<Event>)
      requires RxValid()
      modifies this`lwsRxParseState, this`rxUserBufferHead, this`state, rxUserBuffer
      ensures RxValid() && Step(Rx(), events, ret) == ClientAfterLength(old(Rx()), old(Cfg()), cb)
    {
      ret, events := 0, [];
      if thisFrameMasked {
        lwsRxParseState := CollectKey(1);
      } else if rxPacketLength != 0 {
        lwsRxParseState := Payload;
      } else {
        lwsRxParseState := New;
        ret, events := ClientSpills(cb);
      }
    }

    method ClientHdrLenByte(c: byte, cb: int) returns (ret: int, events: seq<Event>)
      requires RxValid()
      modifies this`thisFrameMasked, this`lwsRxParseState, this`rxPacketLength, this`rxUserBufferHead, this`state
      modifies rxUserBuffer
      ensures RxValid() && Step(Rx(), events, ret) == ClientHdrLen(old(Rx()), c, old(Cfg()), cb)
    {
      thisFrameMasked := c >= 0x80;
      if c % 128 == 126 || c % 128 == 127 {
        if opcode / 8 % 2 == 1 { return -1, []; }
        lwsRxParseState := if c % 128 == 126 then Len16(2) else Len64(8);
        return 0, [];
      }
      rxPacketLength := c;
      ret, events := ClientAfter(cb);
    }

    method ClientLen16Byte(c: byte, left: nat, cb: int) returns (ret: int, events: seq<Event>)
      requires RxValid()
      modifies this`lwsRxParseState, this`rxPacketLength, this`rxUserBufferHead, this`state, rxUserBuffer
      ensures RxValid() && Step(Rx(), events, ret) == ClientLen16(old(Rx()), c, left, old(Cfg()), cb)
    {
      if left == 2 {
        rxPacketLength := c * 256;
        lwsRxParseState := Len16(1);
        return 0, [];
      }
      rxPacketLength := rxPacketLength + c;
      ret, events := ClientAfter(cb);
    }

    method ClientLen64Byte(c: byte, left: nat, cb: int) returns (ret: int, events: seq<Event>)
      requires RxValid()
      modifies this`lwsRxParseState, this`rxPacketLength, this`rxUserBufferHead, this`state, rxUserBuffer
      ensures RxValid() && Step(Rx(), events, ret) == ClientLen64(old(Rx()), c, left, old(Cfg()), cb)
    {
      if left == 0 || (left == 8 && c >= 0x80) { return -1, []; }
      if left == 8 { rxPacketLength := 0; }
      rxPacketLength := rxPacketLength + LengthShare(c, left, lp64);
      if left > 1 {
        lwsRxParseState := Len64(left - 1);
        return 0, [];
      }
      ret, events := ClientAfter(cb);
    }

    method ClientKeyByte(c: byte, k: nat, cb: int) returns (ret: int, events: seq<Event>)
      requires RxValid()
      modifies this`frameMaskingNonce, this`allZeroNonce, this`lwsRxParseState, this`rxUserBufferHead, this`state
      modifies rxUserBuffer
      ensures RxValid() && Step(Rx(), events, ret) == ClientKey(old(Rx()), c, k, old(Cfg()), cb)
    {
      hide ClientSpill;
      ret, events := 0, [];
      if !(1 <= k <= 4) { return -1, []; }
      frameMaskingNonce := frameMaskingNonce[k - 1 := c];
      if c != 0 { allZeroNonce := false; }
      if k < 4 {
        lwsRxParseState := CollectKey(k + 1);
      } else if rxPacketLength != 0 {
        lwsRxParseState := Payload;
      } else {
        lwsRxParseState := New;
        ret, events := ClientSpills(cb);
      }
    }

    method ClientPayloadByte(c: byte, cb: int) returns (ret: int, events: seq<Event>)
      requires RxValid() && rxUserBufferHead < Capacity(Cfg())
      modifies this`lwsRxParseState, this`rxPacketLength, this`frameMaskIndex, this`rxUserBufferHead, this`state
      modifies rxUserBuffer
      ensures RxValid() && Step(Rx(), events, ret) == ClientPayload(old(Rx()), c, old(Cfg()), cb)
    {
      ret, events := 0, [];
      var plain := !thisFrameMasked || allZeroNonce;
      StoreByte(if plain then c else Xor(c, frameMaskingNonce[frameMaskIndex % 4]), !plain);
      if rxPacketLength == 0 {
        lwsRxParseState := New;
        ret, events := ClientSpills(cb);
      } else if rxUserBufferHead == (if rxBufferSize == 0 then MAX_SOCKET_IO_BUF else rxBufferSize) {
        ret, events := ClientSpills(cb);
      }
    }

    /** libwebsocket_client_rx_sm; cb is the result of the user's callback. */
    method ClientRxSm(c: byte, cb: int) returns (ret: int, events: seq<Event>)
      requires RxValid() && rxUserBufferHead < Capacity(Cfg())
      modifies this`lwsRxParseState, this`opcode, this`rsv, this`final, this`frameIsBinary, this`thisFrameMasked
      modifies this`rxPacketLength
      modifies this`frameMaskingNonce, this`allZeroNonce, this`frameMaskIndex, this`rxUserBufferHead, this`state
      modifies rxUserBuffer
      ensures RxValid() && Step(Rx(), events, ret) == ClientStep(old(Rx()), c, old(Cfg()), cb)
    {
      ret, events := 0, [];
      match lwsRxParseState {
        case New => HandleFirst(c);
        case HdrLen => ret, events := ClientHdrLenByte(c, cb);
        case Len16(left) => ret, events := ClientLen16Byte(c, left, cb);
        case Len64(left) => ret, events := ClientLen64Byte(c, left, cb);
        case CollectKey(k) => ret, events := ClientKeyByte(c, k, cb);
        case Payload => ret, events := ClientPayloadByte(c, cb);
      }
    }

    // ----------------------------------------------------------- transmitting

    /** Keeps src[off..] for the next time the socket is writable. */
    method Retain(src: array<byte>, off: nat, len: nat)
      requires TxValid() && off + len <= src.Length && src != truncatedSend
      modifies this`truncatedSend, this`truncatedSendOffset, this`truncatedSendLen, this`pending, this`pollout
      modifies truncatedSend
      ensures TxValid() && Tx() == TxState(wire, old(src[off..off + len]))
      ensures truncatedSend == old(truncatedSend) || fresh(truncatedSend)
    {
      if len > truncatedSend.Length { truncatedSend := new byte[len]; }
      truncatedSendOffset, truncatedSendLen := 0, len;
      pending := src[off..off + len];
      forall i | 0 <= i < len { truncatedSend[i] := src[off + i]; }
      pollout := true;
    }

    /**
      The handle_truncated_send label while a truncated send is pending: n bytes of src went,
      and are counted off the pending ones; the remaining length is an unsigned int.
    */
    method PendingSent(src: array<byte>, off: nat, len: nat, n: nat) returns (ret: int)
      requires TxValid() && off + len <= src.Length && n <= len && 0 < len < 0x8000_0000
        && 0 < truncatedSendLen < 0x8000_0000
      modifies this`wire, this`truncatedSendOffset, this`truncatedSendLen, this`pending
      ensures LateOutcome(old(truncatedSendLen), IssueLate(old(Tx()), src[off..off + len], Accepted(n)), ret)
    {
      hide IssueLate;
      ghost var t, buf, before := Tx(), src[off..off + len], truncatedSendLen;
      assert buf[..n] == src[off..off + n];
      assert n <= before ==> pending[n..] == truncatedSend[truncatedSendOffset + n..truncatedSendOffset + before];
      Unsigned(before, n);
      wire, pending := wire + src[off..off + n], if n <= |pending| then pending[n..] else [];
      truncatedSendOffset, truncatedSendLen := truncatedSendOffset + n, (truncatedSendLen - n) % 0x1_0000_0000;
      ret := if truncatedSendLen == 0 then len else n;
      LateIs(t, buf, n);
    }

    /** The fields stand for o; when it is Past, the remaining length has wrapped. */
    ghost predicate LateOutcome(before: nat, o: Dispatch, ret: int)
      reads this, truncatedSend
    {
      match o
      case Kept(issued) => TxValid() && Issued(Tx(), ret) == issued
      case Past(w, r) =>
        wire == w && ret == r && truncatedSendLen == before - r + 0x1_0000_0000
    }

    /** The handle_truncated_send label for a fresh buffer of which n bytes went. */
    method FreshSent(src: array<byte>, off: nat, len: nat, n: nat) returns (ret: int)
      requires TxValid() && off + len <= src.Length && n <= len && len > 0 && truncatedSendLen == 0
        && src != truncatedSend
      modifies this`wire, this`truncatedSend, this`truncatedSendOffset, this`truncatedSendLen, this`pending
      modifies this`pollout, truncatedSend
      ensures TxValid() && (truncatedSend == old(truncatedSend) || fresh(truncatedSend))
      ensures Issued(Tx(), ret) == IssueFresh(old(Tx()), old(src[off..off + len]), cleanBuffer, Accepted(n))
    {
      ghost var buf := src[off..off + len];
      assert buf[..n] == src[off..off + n];
      assert buf[n..] == src[off + n..off + len];
      wire := wire + src[off..off + n];
      if n < len {
        if n > 0 && cleanBuffer { return n; }
        Retain(src, off + n, len - n);
        return len;
      }
      return n;
    }

    /**
      lws_issue_raw on a fresh buffer while nothing is pending, on the pending buffer itself, or,
      the assert against it compiled out, on a new buffer while another is pending.  res is what
      the socket did with the bytes.
    */
    method IssueRaw(src: array<byte>, off: nat, len: nat, res: SendResult) returns (ret: int)
      requires TxValid() && off + len <= src.Length && Possible(res, len) && len < 0x8000_0000
      requires truncatedSendLen < 0x8000_0000
      requires src == truncatedSend ==> truncatedSendLen > 0 && off == truncatedSendOffset && len == truncatedSendLen
      modifies this`wire, this`truncatedSend, this`truncatedSendOffset, this`truncatedSendLen, this`pending
      modifies this`pollout, truncatedSend
      ensures truncatedSend == old(truncatedSend) || fresh(truncatedSend)
      ensures old(truncatedSendLen) == 0
        ==> TxValid() && Issued(Tx(), ret) == IssueFresh(old(Tx()), old(src[off..off + len]), cleanBuffer, res)
      ensures src == old(truncatedSend) ==> TxValid() && Issued(Tx(), ret) == Flush(old(Tx()), res)
      ensures old(truncatedSendLen) > 0
        ==> LateOutcome(old(truncatedSendLen), IssueLate(old(Tx()), old(src[off..off + len]), res), ret)
    {
      if len == 0 { return 0; }
      if res == SocketError { return -1; }
      var n := if res.Accepted? then res.n else 0;
      if truncatedSendLen > 0 {
        ret := PendingSent(src, off, len, n);
      } else {
        ret := FreshSent(src, off, len, n);
      }
    }

    /** A pending truncated send has priority when the socket becomes writable. */
    method HandlePollout(res: SendResult)
      requires TxValid() && Possible(res, truncatedSendLen) && truncatedSendLen < 0x8000_0000
      modifies this`wire, this`truncatedSend, this`truncatedSendOffset, this`truncatedSendLen, this`pending
      modifies this`pollout, truncatedSend
      ensures TxValid() && (truncatedSend == old(truncatedSend) || fresh(truncatedSend))
      ensures Tx() == Flush(old(Tx()), res).tx
    {
      if truncatedSendLen > 0 {
        var ret := IssueRaw(truncatedSend, truncatedSendOffset, truncatedSendLen, res);
      }
    }

    /** Masks the payload in place; the loop counts in an int from 4 to (int)len + 4. */
    method MaskPayload(buf: array<byte>, at: nat, len: nat)
      requires at >= 4 && at + len <= buf.Length && frameMaskIndex == 0
      modifies buf, this`frameMaskIndex
      ensures buf[at..at + len] == Masked(frameMaskingNonce, old(buf[at..at + len]), MaskCount(len), 0)
      ensures buf[..at] == old(buf[..at]) && buf[at + len..] == old(buf[at + len..])
    {
      var dropmask, n, stop := at - 4, 4, Int32(Int32(len) + 4);
      MaskCountBound(len);
      while n < stop
        invariant 4 <= n <= MaskCount(len) + 4 && frameMaskIndex == (n - 4) % 256
        invariant forall i :: 0 <= i < at || at + (n - 4) <= i < buf.Length ==> buf[i] == old(buf[i])
        invariant forall k :: 0 <= k < n - 4 ==> buf[at + k] == Xor(old(buf[at + k]), frameMaskingNonce[k % 4])
      {
        Lane(n - 4);
        buf[dropmask + n] := Xor(buf[dropmask + n], frameMaskingNonce[frameMaskIndex % 4]);
        frameMaskIndex := (frameMaskIndex + 1) % 256;
        n := n + 1;
      }
    }

    method WriteLength64(buf: array<byte>, end: nat, len: nat)
      requires 8 <= end <= buf.Length
      modifies buf
      ensures buf[end - 8..end] == BigEndian(len % LengthLimit(lp64), 8)
      ensures buf[..end - 8] == old(buf[..end - 8]) && buf[end..] == old(buf[end..])
    {
      if lp64 {
        buf[end - 8] := len / 0x100_0000_0000_0000 % 128;
        buf[end - 7] := len / 0x1_0000_0000_0000 % 256;
        buf[end - 6] := len / 0x100_0000_0000 % 256;
        buf[end - 5] := len / 0x1_0000_0000 % 256;
      } else {
        buf[end - 8], buf[end - 7], buf[end - 6], buf[end - 5] := 0, 0, 0, 0;
      }
      buf[end - 4] := len / 0x100_0000 % 256;
      buf[end - 3] := len / 0x1_0000 % 256;
      buf[end - 2] := len / 0x100 % 256;
      buf[end - 1] := len % 256;
      LengthBytesAre(len, lp64);
    }

    /** Lays the first byte and the length out backwards from `end`. */
    method WriteHead(buf: array<byte>, end: nat, first: byte, len: nat, maskBit: byte) returns (size: nat)
      requires 10 <= end <= buf.Length && (maskBit == 0 || maskBit == 0x80)
      modifies buf
      ensures 2 <= size <= 10 && buf[end - size..end] == [first] + LengthField(len, maskBit, lp64)
      ensures buf[..end - size] == old(buf[..end - size]) && buf[end..] == old(buf[end..])
    {
      hide BigEndian, ByteOf;
      if len < 126 {
        size := 2;
        buf[end - 2] := first;
        buf[end - 1] := len + maskBit;
      } else if len < 65536 {
        size := 4;
        buf[end - 4] := first;
        buf[end - 3] := 126 + maskBit;
        buf[end - 2] := len / 256;
        buf[end - 1] := len % 256;
        TwoByteField(len);
      } else {
        size := 10;
        WriteLongHead(buf, end, first, len, maskBit);
      }
    }

    /** The 64 bit form. */
    method WriteLongHead(buf: array<byte>, end: nat, first: byte, len: nat, maskBit: byte)
      requires 10 <= end <= buf.Length && (maskBit == 0 || maskBit == 0x80)
      modifies buf
      ensures buf[end - 10..end] == [first, 127 + maskBit] + BigEndian(len % LengthLimit(lp64), 8)
      ensures buf[..end - 10] == old(buf[..end - 10]) && buf[end..] == old(buf[end..])
    {
      hide BigEndian, ByteOf;
      buf[end - 10] := first;
      buf[end - 9] := 127 + maskBit;
      ghost var before := buf[..end - 8];
      WriteLength64(buf, end, len);
      assert buf[end - 10] == before[end - 10] == first && buf[end - 9] == before[end - 9] == 127 + maskBit;
      assert buf[end - 10..end] == [first, 127 + maskBit] + buf[end - 8..end];
      assert buf[..end - 10] == before[..end - 10];
    }

    /** Fetches a fresh masking key; anything but four random bytes is a failure. */
    method FrameMaskGenerate(random: seq<byte>) returns (failed: bool)
      modifies this`frameMaskingNonce, this`frameMaskIndex
      ensures failed <==> |random| != 4
      ensures !failed ==> frameMaskingNonce == random && frameMaskIndex == 0
    {
      if |random| != 4 { return true; }
      frameMaskingNonce, frameMaskIndex := random, 0;
      return false;
    }

    /** Masks the payload at buf[at..] with a fresh key and puts the key in front of it. */
    method MaskFrame(buf: array<byte>, at: nat, len: nat, random: seq<byte>) returns (failed: bool)
      requires 4 <= at && at + len <= buf.Length
      modifies buf, this`frameMaskingNonce, this`frameMaskIndex
      ensures failed <==> |random| != 4
      ensures !failed ==> buf[at - 4..at + len] == random + Masked(random, old(buf[at..at + len]), MaskCount(len), 0)
      ensures buf[..at - 4] == old(buf[..at - 4]) && buf[at + len..] == old(buf[at + len..])
    {
      failed := FrameMaskGenerate(random);
      if failed { return; }
      MaskPayload(buf, at, len);
      ghost var masked, behind := buf[at..at + len], buf[at + len..];
      assert buf[..at - 4] == buf[..at][..at - 4] == old(buf[..at])[..at - 4];
      forall i | 0 <= i < 4 { buf[at - 4 + i] := random[i]; }
      assert buf[at + len..] == behind;
      assert buf[at - 4..at] == random && buf[at..at + len] == masked;
      assert buf[at - 4..at + len] == buf[at - 4..at] + buf[at..at + len];
    }

    /** A server's frame: the head in front of the payload. */
    method BuildPlain(buf: array<byte>, at: nat, len: nat, opcode: byte, fin: bool) returns (start: nat)
      requires 14 <= at && at + len <= buf.Length && opcode < 16
      modifies buf
      ensures at - 14 <= start <= at - 2
      ensures buf[start..at + len] == ServerFrame(Message(opcode, fin, old(buf[at..at + len])), lp64)
    {
      ghost var p := buf[at..at + len];
      var size := WriteHead(buf, at, FirstByte(opcode, fin), len, 0);
      start := at - size;
      assert buf[at..at + len] == buf[at..][..len] == p;
      assert buf[start..at + len] == buf[start..at] + buf[at..at + len];
    }

    /** A client's frame: head, key and masked payload, unless no key can be had. */
    method BuildMasked(buf: array<byte>, at: nat, len: nat, opcode: byte, fin: bool, random: seq<byte>)
      returns (failed: bool, start: nat)
      requires 14 <= at && at + len <= buf.Length && opcode < 16
      modifies buf, this`frameMaskingNonce, this`frameMaskIndex
      ensures at - 14 <= start <= at - 2
      ensures failed <==> |random| != 4
      ensures !failed ==>
        buf[start..at + len] == ClientFrame(Message(opcode, fin, old(buf[at..at + len])), random, lp64)
    {
      hide Masked, LengthField, MaskCount, FirstByte;
      ghost var p := buf[at..at + len];
      var size := WriteHead(buf, at - 4, FirstByte(opcode, fin), len, 0x80);
      start := at - 4 - size;
      ghost var head := buf[start..at - 4];
      assert buf[at..at + len] == buf[at - 4..][4..4 + len] == p;
      failed := MaskFrame(buf, at, len, random);
      if failed { return; }
      assert buf[start..at - 4] == buf[..at - 4][start..] == head;
      assert buf[start..at + len] == head + buf[at - 4..at + len];
    }

    /** The close, ping, pong and http writes go straight to lws_issue_raw. */
    predicate Direct(protocol: Protocol) {
      protocol.kind in {WriteHttp, WriteCloseFrame, WritePing, WritePong} && !protocol.noFin
    }

    /**
      What a write of `frame` does to the transmit side and reports: a data write counts as
      complete unless the socket failed.
    */
    ghost predicate Sent(t: TxState, t': TxState, frame: seq<byte>, protocol: Protocol, origLen: nat, clean: bool,
        res: SendResult, ret: int)
    {
      var r := IssueFresh(t, frame, clean, Clamp(res, |frame|));
      t' == r.tx && ret == if Direct(protocol) || r.ret < 0 then r.ret else origLen
    }

    /** The send_raw label: hands buf[start..stop] on. */
    method SendRaw(buf: array<byte>, start: nat, stop: nat, protocol: Protocol, origLen: nat, res: SendResult)
      returns (ret: int)
      requires TxValid() && start <= stop <= buf.Length && stop - start < 0x8000_0000
      requires start < stop || Direct(protocol)
      requires truncatedSendLen == 0 && buf != truncatedSend
      requires Direct(protocol) || cleanBuffer == !noBufferAllPartialTx
      modifies this`insideFrame, this`wire, this`truncatedSend, this`truncatedSendOffset, this`truncatedSendLen
      modifies this`pending, this`pollout, truncatedSend
      ensures TxValid() && (truncatedSend == old(truncatedSend) || fresh(truncatedSend))
      ensures Sent(old(Tx()), Tx(), old(buf[start..stop]), protocol, origLen, cleanBuffer, res, ret)
      ensures insideFrame == (if Direct(protocol) then old(insideFrame) else ret < 0)
    {
      hide IssueFresh;
      ghost var frame := buf[start..stop];
      IssueReturns(Tx(), frame, cleanBuffer, Clamp(res, |frame|));
      var n := IssueRaw(buf, start, stop - start, Clamp(res, stop - start));
      if Direct(protocol) { return n; }
      insideFrame := true;
      if n < 0 { return -1; }
      insideFrame := false;
      return origLen;
    }

    /** The frame a call of libwebsocket_write puts together for a payload. */
    ghost function FrameFor(payload: seq<byte>, protocol: Protocol, random: seq<byte>): seq<byte>
      reads this`closeReason
    {
      if protocol.kind == WriteHttp || closeReason >= 0x8000 || (isClient && |random| != 4) then []
      else
        var m := Outgoing(protocol, payload, closeReason);
        if isClient then ClientFrame(m, random, lp64) else ServerFrame(m, lp64)
    }

    /** The header, reason code and masking part of libwebsocket_write. */
    method WriteFrame(buf: array<byte>, at: nat, len: nat, protocol: Protocol, random: seq<byte>)
      returns (failed: bool, start: nat)
      requires PRE_PADDING <= at && at + len <= buf.Length && protocol.kind != WriteHttp && closeReason < 0x8000
      requires isClient && protocol.kind == WriteCloseFrame ==> closeReason == 0
      modifies buf, this`frameMaskingNonce, this`frameMaskIndex
      ensures failed <==> isClient && |random| != 4
      ensures at - PRE_PADDING <= start < at
      ensures !failed ==> buf[start..at + len] == old(FrameFor(buf[at..at + len], protocol, random))
    {
      hide Head, Masked, LengthField, BigEndian;
      failed := false;
      if isClient {
        failed, start := BuildMasked(buf, at, len, OpcodeOf(protocol.kind), !protocol.noFin, random);
      } else if protocol.kind == WriteCloseFrame && closeReason != 0 {
        ghost var p := buf[at..at + len];
        buf[at - 2] := closeReason / 256;
        buf[at - 1] := closeReason % 256;
        assert buf[at - 2..at + len] == [closeReason / 256, closeReason % 256] + p;
        start := BuildPlain(buf, at - 2, len + 2, CLOSE, !protocol.noFin);
      } else {
        start := BuildPlain(buf, at, len, OpcodeOf(protocol.kind), !protocol.noFin);
      }
    }

    method WriteWs(buf: array<byte>, at: nat, len: nat, protocol: Protocol, random: seq<byte>, res: SendResult)
      returns (ret: int)
      requires TxValid() && PRE_PADDING <= at && at + len + POST_PADDING <= buf.Length
        && len + PRE_PADDING < 0x8000_0000
      requires truncatedSendLen == 0 && buf != truncatedSend && closeReason < 0x8000 && protocol.kind != WriteHttp
      requires isClient && protocol.kind == WriteCloseFrame ==> closeReason == 0
      requires cleanBuffer == !noBufferAllPartialTx
      modifies this`insideFrame, this`frameMaskingNonce, this`frameMaskIndex
      modifies this`wire, this`truncatedSend, this`truncatedSendOffset, this`truncatedSendLen, this`pending
      modifies this`pollout, truncatedSend, buf
      ensures TxValid() && (truncatedSend == old(truncatedSend) || fresh(truncatedSend))
      ensures if isClient && |random| != 4 then ret == -1 && Tx() == old(Tx())
              else Sent(old(Tx()), Tx(), old(FrameFor(buf[at..at + len], protocol, random)),
                        protocol, len, cleanBuffer, res, ret)
      ensures insideFrame == if Direct(protocol) || (isClient && |random| != 4) then old(insideFrame) else ret < 0
    {
      hide ClientFrame, ServerFrame, IssueFresh;
      var failed, start := WriteFrame(buf, at, len, protocol, random);
      if failed { return -1; }
      ret := SendRaw(buf, start, at + len, protocol, len, res);
    }

    predicate Control(protocol: Protocol) { Direct(protocol) && protocol.kind != WriteHttp }

    /** Nothing to send, or not allowed to. */
    predicate Ignored(payload: seq<byte>, protocol: Protocol, state: ConnectionState, inside: bool, random: seq<byte>) {
      || (payload == [] && !Control(protocol))
      || (protocol != Protocol(WriteHttp, false)
          && (state != Established || (!inside && (protocol.kind == WriteHttp || (isClient && |random| != 4)))))
    }

    /**
      Everything a call of libwebsocket_write does to the transmit side and reports.  A call that
      finds inside_frame set puts the bare payload on the socket, without head or mask.
    */
    ghost predicate Wrote(t: TxState, t': TxState, payload: seq<byte>, frame: seq<byte>, protocol: Protocol,
        ignored: bool, inside: bool, clean: bool, res: SendResult, ret: int)
    {
      if ignored then t' == t && ret == if payload == [] && !Control(protocol) then 0 else -1
      else if protocol == Protocol(WriteHttp, false) then Sent(t, t', payload, protocol, |payload|, clean, res, ret)
      else Sent(t, t', if inside then payload else frame, protocol, |payload|, !noBufferAllPartialTx, res, ret)
    }

    /** The part of libwebsocket_write for an established connection, from the test of inside_frame on. */
    method WriteEstablished(buf: array<byte>, at: nat, len: nat, protocol: Protocol, random: seq<byte>, res: SendResult)
      returns (ret: int)
      requires TxValid() && PRE_PADDING <= at && at + len + POST_PADDING <= buf.Length
        && len + PRE_PADDING < 0x8000_0000
      requires truncatedSendLen == 0 && buf != truncatedSend && closeReason < 0x8000
      requires isClient && protocol.kind == WriteCloseFrame ==> closeReason == 0
      requires (len > 0 || Control(protocol)) && protocol != Protocol(WriteHttp, false)
      modifies this`insideFrame, this`cleanBuffer, this`frameMaskingNonce, this`frameMaskIndex
      modifies this`wire, this`truncatedSend, this`truncatedSendOffset, this`truncatedSendLen, this`pending
      modifies this`pollout, truncatedSend, buf
      ensures TxValid() && (truncatedSend == old(truncatedSend) || fresh(truncatedSend))
      ensures !old(insideFrame) && (protocol.kind == WriteHttp || (isClient && |random| != 4)) ==>
        ret == -1 && Tx() == old(Tx()) && !insideFrame
      ensures old(insideFrame) || !(protocol.kind == WriteHttp || (isClient && |random| != 4)) ==>
        && Sent(old(Tx()), Tx(),
                old(if insideFrame then buf[at..at + len] else FrameFor(buf[at..at + len], protocol, random)),
                protocol, len, !noBufferAllPartialTx, res, ret)
        && insideFrame == if Direct(protocol) then old(insideFrame) else ret < 0
    {
      hide Sent, FrameFor;
      if insideFrame {
        ret := SendRaw(buf, at, at + len, protocol, len, res);
        return;
      }
      cleanBuffer := !noBufferAllPartialTx;
      if protocol.kind == WriteHttp { return -1; }
      ret := WriteWs(buf, at, len, protocol, random, res);
    }

    /**
      libwebsocket_write of buf[at..at + len], whose storage in front of `at` it uses.  random
      is what the random source gave for a key, res what the socket does with the result.
      A data write the socket fails leaves inside_frame set; the next one it takes clears it.
    */
    method Write(buf: array<byte>, at: nat, len: nat, protocol: Protocol, random: seq<byte>, res: SendResult)
      returns (ret: int)
      requires TxValid() && PRE_PADDING <= at && at + len + POST_PADDING <= buf.Length
        && len + PRE_PADDING < 0x8000_0000
      requires truncatedSendLen == 0 && buf != truncatedSend && closeReason < 0x8000
      requires isClient && protocol.kind == WriteCloseFrame ==> closeReason == 0
      modifies this`insideFrame, this`cleanBuffer, this`frameMaskingNonce, this`frameMaskIndex
      modifies this`wire, this`truncatedSend, this`truncatedSendOffset, this`truncatedSendLen, this`pending
      modifies this`pollout, truncatedSend, buf
      ensures TxValid() && (truncatedSend == old(truncatedSend) || fresh(truncatedSend))
      ensures var payload, inside := old(buf[at..at + len]), old(insideFrame);
        var ignored := Ignored(payload, protocol, state, inside, random);
        && Wrote(old(Tx()), Tx(), payload, old(FrameFor(buf[at..at + len], protocol, random)), protocol,
                 ignored, inside, old(cleanBuffer), res, ret)
        && insideFrame == if ignored || Direct(protocol) then inside else ret < 0
    {
      hide Sent, FrameFor;
      if len == 0 && !Control(protocol) { return 0; }
      if protocol == Protocol(WriteHttp, false) {
        ret := SendRaw(buf, at, at + len, protocol, len, res);
        return;
      }
      if state != Established { return -1; }
      ret := WriteEstablished(buf, at, len, protocol, random, res);
    }
  }

  lemma Unsigned(a: nat, n: nat)
    requires a < 0x8000_0000 && n < 0x8000_0000
    ensures (a - n) % 0x1_0000_0000 == if n <= a then a - n else a - n + 0x1_0000_0000
  {}

  lemma LateIs(t: TxState, buf: seq<byte>, n: nat)
    requires buf != [] && n <= |buf|
    ensures IssueLate(t, buf, Accepted(n)) == if n > |t.pending| then Past(t.wire + buf[..n], n)
      else Kept(Issued(TxState(t.wire + buf[..n], t.pending[n..]), if n == |t.pending| then |buf| else n))
  {}

  lemma Lane(n: nat)
    ensures n % 256 % 4 == n % 4 && (n + 1) % 256 == (n % 256 + 1) % 256
  {
    var q, r := n / 256, n % 256;
    assert n == 4 * (64 * q) + r;
  }

  lemma TwoByteField(len: nat)
    requires len < 65536
    ensures BigEndian(len, 2) == [len / 256, len % 256]
  {
    assert BigEndian(len, 0) == [] && BigEndian(len, 1) == [len % 256] + BigEndian(len, 0);
    assert ByteOf(len, 1) == len / 256 % 256 == len / 256;
  }

  lemma MaskCountBound(len: nat)
    ensures MaskCount(len) <= len
  {}
}
