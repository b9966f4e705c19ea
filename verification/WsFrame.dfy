/**
  The frame format of RFC 6455, sections 5.2 and 5.3, as libwebsocket_write
  (output.c) lays it out: first byte, length in one of three encodings, masking
  key and masked payload.
*/
module WsFrame {
  import opened Bytes

  const PRE_PADDING := 18
  const POST_PADDING := 4
  const MAX_SOCKET_IO_BUF := 102400

  const CONTINUATION: byte := 0
  const TEXT: byte := 1
  const BINARY: byte := 2
  const CLOSE: byte := 8
  const PING: byte := 9
  const PONG: byte := 10

  /** The machine the code is built for: is __LP64__ defined? */
  function LengthLimit(lp64: bool): nat { if lp64 then 0x8000_0000_0000_0000 else 0x1_0000_0000 }

  /** (n >> 8k) & 0xff */
  function ByteOf(n: nat, k: nat): byte { if k == 0 then n % 256 else ByteOf(n / 256, k - 1) }

  /** c << 8k */
  function Shifted(c: nat, k: nat): nat { if k == 0 then c else 256 * Shifted(c, k - 1) }

  /** The number the k low bytes of n make. */
  function Low(n: nat, k: nat): nat { if k == 0 then 0 else n % 256 + 256 * Low(n / 256, k - 1) }

  /** The k low bytes of n, most significant first. */
  function BigEndian(n: nat, k: nat): (b: seq<byte>)
    ensures |b| == k
  {
    if k == 0 then [] else [ByteOf(n, k - 1)] + BigEndian(n, k - 1)
  }

  function LengthField(len: nat, maskBit: byte, lp64: bool): seq<byte>
    requires maskBit == 0 || maskBit == 0x80
  {
    if len < 126 then [len + maskBit]
    else if len < 65536 then [126 + maskBit] + BigEndian(len, 2)
    else [127 + maskBit] + BigEndian(len % LengthLimit(lp64), 8)
  }

  function FirstByte(opcode: byte, fin: bool): byte
    requires opcode < 16
  {
    opcode + if fin then 0x80 else 0
  }

  function Head(opcode: byte, fin: bool, len: nat, maskBit: byte, lp64: bool): seq<byte>
    requires opcode < 16 && (maskBit == 0 || maskBit == 0x80)
  {
    [FirstByte(opcode, fin)] + LengthField(len, maskBit, lp64)
  }

  /** Conversion of a count to a 32 bit signed int. */
  function Int32(n: int): int {
    var m := n % 0x1_0000_0000; if m < 0x8000_0000 then m else m - 0x1_0000_0000
  }

  /** How many payload bytes the masking loop reaches; it counts from 4 to (int)len + 4 in an int. */
  function MaskCount(len: nat): nat {
    var stop := Int32(Int32(len) + 4); if stop > 4 then stop - 4 else 0
  }

  type Key = k: seq<byte> | |k| == 4 witness [0, 0, 0, 0]

  /** The payload with its first `count` bytes masked, starting at key position `from`. */
  function Masked(key: Key, p: seq<byte>, count: nat, from: nat): (m: seq<byte>)
    ensures |m| == |p|
  {
    seq(|p|, i requires 0 <= i < |p| => if i < count then Xor(p[i], key[(from + i) % 4]) else p[i])
  }

  datatype Message = Message(opcode: byte, fin: bool, payload: seq<byte>)

  ghost predicate DataMessage(m: Message) {
    m.opcode in {CONTINUATION, TEXT, BINARY} && m.payload != []
  }

  /** What a server sends. */
  function ServerFrame(m: Message, lp64: bool): seq<byte>
    requires m.opcode < 16
  {
    Head(m.opcode, m.fin, |m.payload|, 0, lp64) + m.payload
  }

  /** What a client sends. */
  function ClientFrame(m: Message, key: Key, lp64: bool): seq<byte>
    requires m.opcode < 16
  {
    Head(m.opcode, m.fin, |m.payload|, 0x80, lp64) + key + Masked(key, m.payload, MaskCount(|m.payload|), 0)
  }

  // --------------------------------------------------------------- the length

  /** One more byte of a number. */
  lemma {:induction false} TopByte(n: nat, k: nat)
    requires k > 0
    ensures Low(n, k) == Shifted(ByteOf(n, k - 1), k - 1) + Low(n, k - 1)
  {
    if k > 1 { TopByte(n / 256, k - 1); }
  }

  lemma {:induction false} LowIs(n: nat, k: nat)
    requires n < Shifted(1, k)
    ensures Low(n, k) == n
  {
    if k > 0 { LowIs(n / 256, k - 1); }
  }

  lemma LowAll(n: nat)
    ensures n < 0x1_0000_0000 ==> Low(n, 4) == n
    ensures n < 0x1_0000_0000_0000_0000 ==> Low(n, 8) == n
  {
    assert Shifted(1, 2) == 0x1_0000 && Shifted(1, 4) == 0x1_0000_0000;
    assert Shifted(1, 6) == 0x1_0000_0000_0000 && Shifted(1, 8) == 0x1_0000_0000_0000_0000;
    if n < 0x1_0000_0000 { LowIs(n, 4); }
    if n < 0x1_0000_0000_0000_0000 { LowIs(n, 8); }
  }

  /** The payload is masked to its end exactly when its length leaves room in an int. */
  lemma MaskCountFull(len: nat)
    ensures MaskCount(len) == len <==> len + 4 < 0x8000_0000
  {
    if len < 0x8000_0000 {
      assert len % 0x1_0000_0000 == len;
      if len + 4 >= 0x8000_0000 { assert (len + 4) % 0x1_0000_0000 == len + 4; }
    }
  }

  /** Masking with the same key takes the masking away. */
  lemma MaskedTwice(key: Key, p: seq<byte>, count: nat, from: nat)
    ensures Masked(key, Masked(key, p, count, from), count, from) == p
  {
    forall i | 0 <= i < |p| ensures Masked(key, Masked(key, p, count, from), count, from)[i] == p[i] {
      if i < count { XorTwice(p[i], key[(from + i) % 4]); }
    }
  }

  /**
    A receiver unmasks every byte.  It gets the payload back exactly when the
    sender's loop reached the end or the key leaves the rest alone.
  */
  lemma UnmaskedExactly(key: Key, p: seq<byte>)
    ensures Masked(key, Masked(key, p, MaskCount(|p|), 0), |p|, 0) == p
      <==> |p| + 4 < 0x8000_0000 || forall i :: MaskCount(|p|) <= i < |p| ==> key[i % 4] == 0
  {
    MaskCountFull(|p|);
    var sent := Masked(key, p, MaskCount(|p|), 0);
    forall i | 0 <= i < |p|
      ensures Masked(key, sent, |p|, 0)[i] == p[i] <==> i < MaskCount(|p|) || key[i % 4] == 0
    {
      XorTwice(p[i], key[i % 4]);
      XorZero(p[i], key[i % 4]);
    }
    if forall i :: MaskCount(|p|) <= i < |p| ==> key[i % 4] == 0 {
      assert Masked(key, sent, |p|, 0) == p;
    } else {
      var i :| MaskCount(|p|) <= i < |p| && key[i % 4] != 0;
      assert Masked(key, sent, |p|, 0)[i] != p[i];
    }
  }

  /**
    Section 5.3 of RFC 6455: octet i of the transformed data is octet i of the original,
    exclusive-ored bit by bit with octet i modulo 4 of the key.
  */
  ghost predicate Transformed(m: seq<byte>, key: Key, p: seq<byte>) {
    |m| == |p| && forall i :: 0 <= i < |p| ==> BitsAdd(m[i], p[i], key[i % 4])
  }

  /** A payload is masked as the standard says, by these bytes and no others, as far as the loop reaches its end. */
  lemma MaskedExactly(key: Key, p: seq<byte>, m: seq<byte>)
    requires |p| + 4 < 0x8000_0000
    ensures m == Masked(key, p, MaskCount(|p|), 0) <==> Transformed(m, key, p)
  {
    MaskCountFull(|p|);
    var masked := Masked(key, p, |p|, 0);
    forall i | 0 <= i < |p| ensures BitsAdd(masked[i], p[i], key[i % 4]) {
      XorExactly(p[i], key[i % 4], masked[i]);
    }
    if Transformed(m, key, p) {
      forall i | 0 <= i < |p| ensures m[i] == masked[i] { XorExactly(p[i], key[i % 4], m[i]); }
    }
  }

  // ---------------------------------------------------------- the frame of the standard

  /** Bytes in network order as a number. */
  function Network(b: seq<byte>): nat {
    if b == [] then 0 else 256 * Network(b[..|b| - 1]) + b[|b| - 1]
  }

  lemma {:induction false} NetworkSplit(a: seq<byte>, b: seq<byte>)
    ensures Network(a + b) == Shifted(Network(a), |b|) + Network(b)
  {
    if b == [] {
      assert a + b == a;
    } else {
      NetworkSplit(a, b[..|b| - 1]);
      assert (a + b)[..|a + b| - 1] == a + b[..|b| - 1];
    }
  }

  lemma {:induction false} BigEndianIs(n: nat, k: nat)
    ensures Network(BigEndian(n, k)) == Low(n, k)
  {
    if k > 0 {
      BigEndianIs(n, k - 1);
      TopByte(n, k);
      NetworkSplit([ByteOf(n, k - 1)], BigEndian(n, k - 1));
      assert Network([ByteOf(n, k - 1)]) == 256 * Network([]) + ByteOf(n, k - 1);
    }
  }

  /**
    Section 5.2 of RFC 6455: the length is in the low seven bits of the first byte, or in two
    or eight bytes in network order behind 126 or 127, the shortest form that holds it; the top
    bit is the mask bit.
  */
  lemma LengthFieldIs(len: nat, maskBit: byte, lp64: bool)
    requires maskBit == 0 || maskBit == 0x80
    ensures var field := LengthField(len, maskBit, lp64);
      && |field| == (if len <= 125 then 1 else if len <= 0xffff then 3 else 9)
      && field[0] / 0x80 * 0x80 == maskBit
      && field[0] % 0x80 == (if |field| == 1 then len else if |field| == 3 then 126 else 127)
      && (|field| > 1 && len < LengthLimit(lp64) ==> Network(field[1..]) == len)
  {
    hide BigEndian, Low, Network;
    var field := LengthField(len, maskBit, lp64);
    if 126 <= len < LengthLimit(lp64) {
      Powers();
      if len < 65536 { BigEndianIs(len, 2); LowIs(len, 2); } else { BigEndianIs(len, 8); LowAll(len); }
      assert field[1..] == BigEndian(len, if len < 65536 then 2 else 8);
    }
  }

  // ---------------------------------------------------- the shifts of the source

  lemma DivUnique(n: nat, d: nat, q: nat, r: nat)
    requires d > 0 && n == q * d + r && r < d
    ensures n / d == q
  {
    var q', r' := n / d, n % d;
    assert n == q' * d + r';
    assert q' < q ==> (q' + 1) * d <= q * d;
    assert q < q' ==> (q + 1) * d <= q' * d;
  }

  lemma DivAdd(a: nat, d: nat, n: nat)
    requires d > 0
    ensures (a * d + n) / d == a + n / d
  {
    assert (a + n / d) * d == a * d + n / d * d;
    DivUnique(a * d + n, d, a + n / d, n % d);
  }

  /** Dividing by 256 again and again is shifting. */
  lemma {:induction false} ByteOfShift(n: nat, k: nat)
    ensures Shifted(1, k) > 0 && ByteOf(n, k) == n / Shifted(1, k) % 256
  {
    if k > 0 {
      ByteOfShift(n / 256, k - 1);
      DivSwap(n, Shifted(1, k - 1));
    }
  }

  lemma DivSwap(n: nat, d: nat)
    requires d > 0
    ensures n / (256 * d) == n / 256 / d
  {
    var q, r := n / 256, n % 256;
    var a, b := q / d, q % d;
    assert 256 * (a * d + b) + r == a * (256 * d) + (256 * b + r);
    DivUnique(n, 256 * d, a, 256 * b + r);
  }

  lemma Powers()
    ensures Shifted(1, 0) == 1 && Shifted(1, 1) == 0x100 && Shifted(1, 2) == 0x1_0000 && Shifted(1, 3) == 0x100_0000
    ensures Shifted(1, 4) == 0x1_0000_0000 && Shifted(1, 5) == 0x100_0000_0000
    ensures Shifted(1, 6) == 0x1_0000_0000_0000 && Shifted(1, 7) == 0x100_0000_0000_0000
  {}

  lemma EightBytes(n: nat)
    ensures BigEndian(n, 8)
      == [ByteOf(n, 7), ByteOf(n, 6), ByteOf(n, 5), ByteOf(n, 4),
          ByteOf(n, 3), ByteOf(n, 2), ByteOf(n, 1), ByteOf(n, 0)]
  {
    assert BigEndian(n, 8) == [ByteOf(n, 7), ByteOf(n, 6)] + BigEndian(n, 6);
    assert BigEndian(n, 6) == [ByteOf(n, 5), ByteOf(n, 4)] + BigEndian(n, 4);
    assert BigEndian(n, 4) == [ByteOf(n, 3), ByteOf(n, 2)] + BigEndian(n, 2);
    assert BigEndian(n, 2) == [ByteOf(n, 1), ByteOf(n, 0)] + BigEndian(n, 0);
  }

  /** The eight length bytes as the source computes them. */
  function LengthBytes(len: nat, lp64: bool): seq<byte> {
    (if lp64 then
       [len / 0x100_0000_0000_0000 % 128, len / 0x1_0000_0000_0000 % 256,
        len / 0x100_0000_0000 % 256, len / 0x1_0000_0000 % 256]
     else [0, 0, 0, 0])
    + [len / 0x100_0000 % 256, len / 0x1_0000 % 256, len / 0x100 % 256, len % 256]
  }

  lemma Rearrange(q: nat, m: nat, d: nat)
    ensures q * (256 * m * d) == (256 * (m * q)) * d
  {
    assert q * (256 * m * d) == (q * (256 * m)) * d;
  }

  /** Reducing below a limit that is a multiple of 256 d leaves the byte at d alone. */
  lemma ByteBelowLimit(len: nat, d: nat, m: nat, limit: nat)
    requires d > 0 && limit == 256 * m * d && limit > 0
    ensures len % limit / d % 256 == len / d % 256
  {
    var q, n := len / limit, len % limit;
    Rearrange(q, m, d);
    var a := 256 * (m * q);
    assert len == a * d + n;
    DivAdd(a, d, n);
    Multiple(m * q, n / d);
  }

  lemma Multiple(a: nat, b: nat)
    ensures (256 * a + b) % 256 == b % 256
  {}

  lemma TopSevenBits(len: nat)
    ensures len % LengthLimit(true) / 0x100_0000_0000_0000 % 256 == len / 0x100_0000_0000_0000 % 128
  {
    var q, n := len / LengthLimit(true), len % LengthLimit(true);
    assert len == (128 * q) * 0x100_0000_0000_0000 + n;
    DivAdd(128 * q, 0x100_0000_0000_0000, n);
  }

  lemma SourceBytes64(len: nat)
    ensures LengthBytes(len, true) == BigEndian(len % LengthLimit(true), 8)
  {
    var n := len % LengthLimit(true);
    EightBytes(n);
    Powers();
    ByteOfShift(n, 0); ByteOfShift(n, 1); ByteOfShift(n, 2); ByteOfShift(n, 3);
    ByteOfShift(n, 4); ByteOfShift(n, 5); ByteOfShift(n, 6); ByteOfShift(n, 7);
    ByteBelowLimit(len, 0x1, 0x80_0000_0000_0000, LengthLimit(true));
    ByteBelowLimit(len, 0x100, 0x8000_0000_0000, LengthLimit(true));
    ByteBelowLimit(len, 0x1_0000, 0x80_0000_0000, LengthLimit(true));
    ByteBelowLimit(len, 0x100_0000, 0x8000_0000, LengthLimit(true));
    ByteBelowLimit(len, 0x1_0000_0000, 0x80_0000, LengthLimit(true));
    ByteBelowLimit(len, 0x100_0000_0000, 0x8000, LengthLimit(true));
    ByteBelowLimit(len, 0x1_0000_0000_0000, 0x80, LengthLimit(true));
    TopSevenBits(len);
  }

  lemma HighBytesZero(n: nat)
    requires n < 0x1_0000_0000
    ensures ByteOf(n, 4) == 0 && ByteOf(n, 5) == 0 && ByteOf(n, 6) == 0 && ByteOf(n, 7) == 0
  {
    var n1 := n / 256; var n2 := n1 / 256; var n3 := n2 / 256;
    assert n3 / 256 == 0;
    assert ByteOf(n, 4) == ByteOf(n1, 3) == ByteOf(n2, 2) == ByteOf(n3, 1) == ByteOf(0, 0);
    assert ByteOf(n, 5) == ByteOf(n1, 4) == ByteOf(n2, 3) == ByteOf(n3, 2) == ByteOf(0, 1);
    assert ByteOf(n, 6) == ByteOf(n1, 5) == ByteOf(n2, 4) == ByteOf(n3, 3) == ByteOf(0, 2);
    assert ByteOf(n, 7) == ByteOf(n1, 6) == ByteOf(n2, 5) == ByteOf(n3, 4) == ByteOf(0, 3);
  }

  lemma SourceBytes32(len: nat)
    ensures LengthBytes(len, false) == BigEndian(len % LengthLimit(false), 8)
  {
    var n := len % LengthLimit(false);
    EightBytes(n);
    Powers();
    ByteOfShift(n, 0); ByteOfShift(n, 1); ByteOfShift(n, 2); ByteOfShift(n, 3);
    HighBytesZero(n);
    ByteBelowLimit(len, 0x1, 0x100_0000, LengthLimit(false));
    ByteBelowLimit(len, 0x100, 0x1_0000, LengthLimit(false));
    ByteBelowLimit(len, 0x1_0000, 0x100, LengthLimit(false));
    ByteBelowLimit(len, 0x100_0000, 0x1, LengthLimit(false));
  }

  /** The shifts of the source write the length, reduced to what the build can carry. */
  lemma LengthBytesAre(len: nat, lp64: bool)
    ensures LengthBytes(len, lp64) == BigEndian(len % LengthLimit(lp64), 8)
  {
    if lp64 { SourceBytes64(len); } else { SourceBytes32(len); }
  }

  // ------------------------------------------------------------ what is written

  datatype WriteKind = WriteText | WriteBinary | WriteContinuation | WriteHttp | WriteCloseFrame | WritePing | WritePong

  /** enum libwebsocket_write_protocol with the LWS_WRITE_NO_FIN flag. */
  datatype Protocol = Protocol(kind: WriteKind, noFin: bool)

  function OpcodeOf(kind: WriteKind): byte
    requires kind != WriteHttp
  {
    match kind
    case WriteText => TEXT
    case WriteBinary => BINARY
    case WriteContinuation => CONTINUATION
    case WriteCloseFrame => CLOSE
    case WritePing => PING
    case WritePong => PONG
  }

  /** The message a call stands for; a close with a reason carries its code first. */
  function Outgoing(protocol: Protocol, payload: seq<byte>, closeReason: nat): Message
    requires protocol.kind != WriteHttp && closeReason < 0x8000
  {
    Message(OpcodeOf(protocol.kind), !protocol.noFin,
      if protocol.kind == WriteCloseFrame && closeReason != 0
      then [closeReason / 256, closeReason % 256] + payload else payload)
  }

  /**
    Section 5.5.1 of RFC 6455: the body of a close starts with the status code as a 2-byte unsigned
    integer in network order.
  */
  lemma CloseCode(protocol: Protocol, payload: seq<byte>, closeReason: nat)
    requires protocol.kind == WriteCloseFrame && 0 < closeReason < 0x8000
    ensures var m := Outgoing(protocol, payload, closeReason);
      && m.opcode == 0x8 && |m.payload| == |payload| + 2
      && Network(m.payload[..2]) == closeReason && m.payload[2..] == payload
  {
    var m := Outgoing(protocol, payload, closeReason);
    var b: seq<byte> := m.payload[..2];
    assert b == [closeReason / 256, closeReason % 256] && b[..1] == [closeReason / 256] && b[..1][..0] == [];
    assert Network(b) == 256 * Network(b[..1]) + closeReason % 256;
    assert Network(b[..1]) == closeReason / 256;
  }
}
