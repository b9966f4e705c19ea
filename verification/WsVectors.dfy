/**
  The examples of section 5.7 of RFC 6455 as frames of WsFrame.
*/
module WsVectors {
  import opened Bytes
  import opened WsFrame

  const HELLO: seq<byte> := [0x48, 0x65, 0x6c, 0x6c, 0x6f]
  const KEY: Key := [0x37, 0xfa, 0x21, 0x3d]

  lemma MaskedHello()
    ensures Masked(KEY, HELLO, MaskCount(5), 0) == [0x7f, 0x9f, 0x4d, 0x51, 0x58]
  {
    hide Xor, MaskCount;
    MaskCountFull(5);
    Octet0();
    Octet1();
    Octet2();
    Octet3();
    Octet4();
    var m := Masked(KEY, HELLO, 5, 0);
    assert m == [m[0], m[1], m[2], m[3], m[4]];
  }

  lemma Octet0()
    ensures Xor(0x48, 0x37) == 0x7f
  {
    assert XorBits(0x4, 0x3, 4) == 0x7;
  }

  lemma Octet1()
    ensures Xor(0x65, 0xfa) == 0x9f
  {
    assert XorBits(0x6, 0xf, 4) == 0x9;
  }

  lemma Octet2()
    ensures Xor(0x6c, 0x21) == 0x4d
  {
    assert XorBits(0x6, 0x2, 4) == 0x4;
  }

  lemma Octet3()
    ensures Xor(0x6c, 0x3d) == 0x51
  {
    assert XorBits(0x6, 0x3, 4) == 0x5;
    assert XorBits(0x1b, 0xf, 6) == 0x14;
  }

  lemma Octet4()
    ensures Xor(0x6f, 0x37) == 0x58
  {
    assert XorBits(0x6, 0x3, 4) == 0x5;
    assert XorBits(0x1b, 0xf, 6) == 0x14;
  }

  /** A single-frame text message, unmasked and masked. */
  lemma TextHello(lp64: bool)
    ensures ServerFrame(Message(TEXT, true, HELLO), lp64) == [0x81, 0x05, 0x48, 0x65, 0x6c, 0x6c, 0x6f]
    ensures ClientFrame(Message(TEXT, true, HELLO), KEY, lp64)
      == [0x81, 0x85, 0x37, 0xfa, 0x21, 0x3d, 0x7f, 0x9f, 0x4d, 0x51, 0x58]
  {
    MaskedHello();
  }

  /** A fragmented unmasked text message. */
  lemma FragmentedHello(lp64: bool)
    ensures ServerFrame(Message(TEXT, false, HELLO[..3]), lp64) == [0x01, 0x03, 0x48, 0x65, 0x6c]
    ensures ServerFrame(Message(CONTINUATION, true, HELLO[3..]), lp64) == [0x80, 0x02, 0x6c, 0x6f]
  {}

  /** An unmasked ping and the masked response to it. */
  lemma PingPongHello(lp64: bool)
    ensures ServerFrame(Message(PING, true, HELLO), lp64) == [0x89, 0x05, 0x48, 0x65, 0x6c, 0x6c, 0x6f]
    ensures ClientFrame(Message(PONG, true, HELLO), KEY, lp64)
      == [0x8a, 0x85, 0x37, 0xfa, 0x21, 0x3d, 0x7f, 0x9f, 0x4d, 0x51, 0x58]
  {
    MaskedHello();
  }

  /** 256 bytes and 64K of binary data in a single unmasked frame. */
  lemma LongBinary(p: seq<byte>, lp64: bool)
    ensures |p| == 0x100 ==> ServerFrame(Message(BINARY, true, p), lp64) == [0x82, 0x7e, 0x01, 0x00] + p
    ensures |p| == 0x1_0000 ==> ServerFrame(Message(BINARY, true, p), lp64) == [0x82, 0x7f, 0, 0, 0, 0, 0, 1, 0, 0] + p
  {
    hide BigEndian;
    if |p| == 0x100 { Length256(); } else if |p| == 0x1_0000 { Length64K(); }
  }

  lemma Length256()
    ensures BigEndian(0x100, 2) == [1, 0]
  {
    assert BigEndian(0x100, 1) == [0] + BigEndian(0x100, 0);
  }

  lemma Length64K()
    ensures BigEndian(0x1_0000, 8) == [0, 0, 0, 0, 0, 1, 0, 0]
  {
    EightBytes(0x1_0000);
    HighBytesZero(0x1_0000);
  }

  /** The opcodes of section 11.8 of RFC 6455. */
  lemma Opcodes()
    ensures OpcodeOf(WriteContinuation) == 0x0 && OpcodeOf(WriteText) == 0x1 && OpcodeOf(WriteBinary) == 0x2
    ensures OpcodeOf(WriteCloseFrame) == 0x8 && OpcodeOf(WritePing) == 0x9 && OpcodeOf(WritePong) == 0xa
  {}
}
