/**
  MD5 as libwebsockets carries it (md5/md5.cpp): a context that keeps between 0 and 64
  unprocessed bytes depending on how the input was cut, a byte count in two words, and
  64 unrolled operations; against the definition of RFC 1321, sections 3.1 to 3.5.
*/
module Md5 {
  import opened Bytes
  import opened HashBlocks

  // ------------------------------------------------------------------ definition

  datatype Regs = Regs(a: bv32, b: bv32, c: bv32, d: bv32)

  const INIT := Regs(0x67452301, 0xefcdab89, 0x98badcfe, 0x10325476)

  function Rotl(x: bv32, s: nat): bv32
    requires s <= 32
  {
    (x << s) | (x >> (32 - s))
  }

  /** The auxiliary functions F, G, H and I. */
  function Mix(round: nat, b: bv32, c: bv32, d: bv32): bv32 {
    if round == 0 then (b & c) | (!b & d)
    else if round == 1 then (b & d) | (c & !d)
    else if round == 2 then b ^ c ^ d
    else c ^ (b | !d)
  }

  function Pick<A>(k: nat, a: A, b: A, c: A, d: A): A {
    if k == 0 then a else if k == 1 then b else if k == 2 then c else d
  }

  function Shift(round: nat, i: nat): (s: nat)
    ensures s <= 32
  {
    if round == 0 then Pick(i, 7, 12, 17, 22) else if round == 1 then Pick(i, 5, 9, 14, 20)
    else if round == 2 then Pick(i, 4, 11, 16, 23) else Pick(i, 6, 10, 15, 21)
  }

  // A line of section 3.4: the words and the table entries of four operations.
  datatype Row = Row(k0: nat, k1: nat, k2: nat, k3: nat, t0: bv32, t1: bv32, t2: bv32, t3: bv32)

  /** The sixteen lines. */
  function RowOf(q: nat): (r: Row)
    ensures r.k0 < 16 && r.k1 < 16 && r.k2 < 16 && r.k3 < 16
  {
    if q == 0 then Row(0, 1, 2, 3, 0xd76aa478, 0xe8c7b756, 0x242070db, 0xc1bdceee)
    else if q == 1 then Row(4, 5, 6, 7, 0xf57c0faf, 0x4787c62a, 0xa8304613, 0xfd469501)
    else if q == 2 then Row(8, 9, 10, 11, 0x698098d8, 0x8b44f7af, 0xffff5bb1, 0x895cd7be)
    else if q == 3 then Row(12, 13, 14, 15, 0x6b901122, 0xfd987193, 0xa679438e, 0x49b40821)
    else if q == 4 then Row(1, 6, 11, 0, 0xf61e2562, 0xc040b340, 0x265e5a51, 0xe9b6c7aa)
    else if q == 5 then Row(5, 10, 15, 4, 0xd62f105d, 0x02441453, 0xd8a1e681, 0xe7d3fbc8)
    else if q == 6 then Row(9, 14, 3, 8, 0x21e1cde6, 0xc33707d6, 0xf4d50d87, 0x455a14ed)
    else if q == 7 then Row(13, 2, 7, 12, 0xa9e3e905, 0xfcefa3f8, 0x676f02d9, 0x8d2a4c8a)
    else if q == 8 then Row(5, 8, 11, 14, 0xfffa3942, 0x8771f681, 0x6d9d6122, 0xfde5380c)
    else if q == 9 then Row(1, 4, 7, 10, 0xa4beea44, 0x4bdecfa9, 0xf6bb4b60, 0xbebfbc70)
    else if q == 10 then Row(13, 0, 3, 6, 0x289b7ec6, 0xeaa127fa, 0xd4ef3085, 0x04881d05)
    else if q == 11 then Row(9, 12, 15, 2, 0xd9d4d039, 0xe6db99e5, 0x1fa27cf8, 0xc4ac5665)
    else if q == 12 then Row(0, 7, 14, 5, 0xf4292244, 0x432aff97, 0xab9423a7, 0xfc93a039)
    else if q == 13 then Row(12, 3, 10, 1, 0x655b59c3, 0x8f0ccc92, 0xffeff47d, 0x85845dd1)
    else if q == 14 then Row(8, 15, 6, 13, 0x6fa87e4f, 0xfe2ce6e0, 0xa3014314, 0x4e0811a1)
    else Row(4, 11, 2, 9, 0xf7537e82, 0xbd3af235, 0x2ad7d2bb, 0xeb86d391)
  }

  function Plus(x: bv32, y: bv32): bv32 { x + y }

  /** [abcd k s i]: a becomes b + ((a + F(b,c,d) + X[k] + T[i]) <<< s) */
  function Op(round: nat, a: bv32, b: bv32, c: bv32, d: bv32, k: bv32, s: nat, t: bv32): bv32
    requires s <= 32
  {
    Plus(Rotl(Plus(a, Plus(Plus(Mix(round, b, c, d), k), t)), s), b)
  }

  /** One line: [ABCD k0], [DABC k1], [CDAB k2], [BCDA k3]. */
  function RowStep(v: Regs, x: seq<bv32>, q: nat): Regs
    requires |x| == 16
  {
    var row, rd := RowOf(q), q / 4;
    var a := Op(rd, v.a, v.b, v.c, v.d, x[row.k0], Shift(rd, 0), row.t0);
    var d := Op(rd, v.d, a, v.b, v.c, x[row.k1], Shift(rd, 1), row.t1);
    var c := Op(rd, v.c, d, a, v.b, x[row.k2], Shift(rd, 2), row.t2);
    Regs(a, Op(rd, v.b, c, d, a, x[row.k3], Shift(rd, 3), row.t3), c, d)
  }

  function Rows(v: Regs, x: seq<bv32>, q: nat): Regs
    requires |x| == 16
  {
    if q == 0 then v else RowStep(Rows(v, x, q - 1), x, q - 1)
  }

  function Word(b0: byte, b1: byte, b2: byte, b3: byte): bv32 {
    (b0 as bv32) | (b1 as bv32 << 8) | (b2 as bv32 << 16) | (b3 as bv32 << 24)
  }

  function Words(block: seq<byte>): (w: seq<bv32>)
    requires |block| == 64
    ensures |w| == 16
  {
    seq(16, i requires 0 <= i < 16 => Word(block[4 * i], block[4 * i + 1], block[4 * i + 2], block[4 * i + 3]))
  }

  function Add(v: Regs, u: Regs): Regs { Regs(v.a + u.a, v.b + u.b, v.c + u.c, v.d + u.d) }

  function Compress(v: Regs, block: Block): Regs
  {
    Add(Rows(v, Words(block), 16), v)
  }

  /** The full blocks of a byte string compressed in order. */
  function Blocks(v: Regs, s: seq<byte>): Regs { Fold(Compress, v, s) }

  function LittleEndian(n: nat): (b: seq<byte>)
    ensures |b| == 4
  {
    [n % 256, n / 0x100 % 256, n / 0x1_0000 % 256, n / 0x100_0000 % 256]
  }

  const TWO_32 := 0x1_0000_0000
  const TWO_64 := 0x1_0000_0000_0000_0000

  function BitCount(n: nat): nat { n * 8 % TWO_64 }

  /** Sections 3.1 and 3.2: the bit count follows low-order word first. */
  function Padded(msg: seq<byte>): seq<byte> {
    msg + [0x80] + Zeros(PadZeros(|msg|)) + LittleEndian(BitCount(|msg|) % TWO_32)
      + LittleEndian(BitCount(|msg|) / TWO_32)
  }

  function WordBytes(w: bv32): (b: seq<byte>)
    ensures |b| == 4
  {
    [(w & 0xff) as int, ((w >> 8) & 0xff) as int, ((w >> 16) & 0xff) as int, (w >> 24) as int]
  }

  function DigestOf(v: Regs): seq<byte> { WordBytes(v.a) + WordBytes(v.b) + WordBytes(v.c) + WordBytes(v.d) }

  function Digest(msg: seq<byte>): seq<byte> { DigestOf(Blocks(INIT, Padded(msg))) }

  // ------------------------------------------------------------------ properties

  /** Padding completes the last block, whatever the length. */
  lemma PaddedIsWhole(msg: seq<byte>)
    ensures |Padded(msg)| % 64 == 0 && |msg| + 9 <= |Padded(msg)| < |msg| + 73
  {
    assert |Padded(msg)| == |msg| + 1 + PadZeros(|msg|) + 8;
    PadToBlock(|msg|);
  }

  /** The cheaper forms of F and G in md5_loc.h. */
  function CodeMix(round: nat, b: bv32, c: bv32, d: bv32): bv32 {
    if round == 0 then d ^ (b & (c ^ d))
    else if round == 1 then c ^ (d & (b ^ c))
    else if round == 2 then b ^ c ^ d
    else c ^ (b | !d)
  }

  lemma FForm(b: bv32, c: bv32, d: bv32)
    ensures d ^ (b & (c ^ d)) == (b & c) | (!b & d)
  {}

  lemma GForm(b: bv32, c: bv32, d: bv32)
    ensures c ^ (d & (b ^ c)) == (b & d) | (c & !d)
  {}

  lemma MixForms(round: nat, b: bv32, c: bv32, d: bv32)
    ensures CodeMix(round, b, c, d) == Mix(round, b, c, d)
  {
    FForm(b, c, d);
    GForm(b, c, d);
  }

  // The byte count, low word first.
  function Count(total0: nat, total1: nat): nat { total1 * TWO_32 + total0 }

  /** The carry test adds the length modulo 2^64. */
  lemma CountAdds(total0: nat, total1: nat, len: nat)
    requires total0 < TWO_32 && total1 < TWO_32 && len < TWO_32
    ensures var carry := total0 > TWO_32 - 1 - len;
      Count(if carry then total0 - (TWO_32 - len) else total0 + len, if carry then (total1 + 1) % TWO_32 else total1)
        == (Count(total0, total1) + len) % TWO_64
  {}

  lemma ModAdd(a: nat, b: nat)
    ensures (a % TWO_64 + b) % TWO_64 == (a + b) % TWO_64
  {
    assert a == TWO_64 * (a / TWO_64) + a % TWO_64;
  }

  lemma Split64(k: nat, x: nat)
    requires x < TWO_64
    ensures (TWO_64 * k + x) % TWO_64 == x
  {}

  lemma Split32(h: nat, l: nat)
    requires l < TWO_32
    ensures (TWO_32 * h + l) % TWO_32 == l && (TWO_32 * h + l) / TWO_32 == h
  {}

  lemma BitsOf(m: nat, q0: nat, r0: nat, q1: nat, r1: nat)
    requires q0 < 8 && q1 < 8 && r0 < 0x2000_0000 && r1 < 0x2000_0000
    ensures BitCount(TWO_64 * m + TWO_32 * (0x2000_0000 * q1 + r1) + (0x2000_0000 * q0 + r0))
      == TWO_32 * (8 * r1 + q0) + 8 * r0
  {
    Split64(8 * m + q1, TWO_32 * (8 * r1 + q0) + 8 * r0);
  }

  /** The two length words of md5_finish. */
  lemma LengthWords(total0: nat, total1: nat, n: nat)
    requires total0 < TWO_32 && total1 < TWO_32 && Count(total0, total1) == n % TWO_64
    ensures total0 % 0x2000_0000 * 8 == BitCount(n) % TWO_32
    ensures total1 * 8 % TWO_32 + total0 / 0x2000_0000 == BitCount(n) / TWO_32
  {
    var q0, r0, q1, r1 := total0 / 0x2000_0000, total0 % 0x2000_0000, total1 / 0x2000_0000, total1 % 0x2000_0000;
    assert n == TWO_64 * (n / TWO_64) + n % TWO_64;
    BitsOf(n / TWO_64, q0, r0, q1, r1);
    Split32(8 * r1 + q0, 8 * r0);
    Split32(q1, 8 * r1);
  }

  /** v has compressed all of msg but the tail, which may be empty or a whole block. */
  ghost predicate Held(msg: seq<byte>, v: Regs, tail: seq<byte>) {
    && |tail| <= |msg| && (|msg| - |tail|) % 64 == 0 && tail == msg[|msg| - |tail|..]
    && v == Blocks(INIT, msg[..|msg| - |tail|])
  }

  lemma HeldMore(msg: seq<byte>, v: Regs, tail: seq<byte>, part: seq<byte>)
    requires Held(msg, v, tail)
    ensures Held(msg + part, v, tail + part)
  {
    hide Blocks;
    assert (msg + part)[..|msg + part| - |tail + part|] == msg[..|msg| - |tail|];
  }

  /** Whole blocks leave the front of the tail. */
  lemma HeldBlocks(msg: seq<byte>, v: Regs, tail: seq<byte>, k: nat)
    requires Held(msg, v, tail) && k <= |tail| && k % 64 == 0
    ensures Held(msg, Blocks(v, tail[..k]), tail[k..])
  {
    hide Compress;
    var head := msg[..|msg| - |tail|];
    FoldAppend(Compress, INIT, head, tail[..k]);
    assert head + tail[..k] == msg[..|msg| - |tail[k..]|];
    assert (|msg| - |tail[k..]|) % 64 == 0 by { TwoMultiples(|msg| - |tail|, k); }
  }

  lemma TwoMultiples(a: nat, b: nat)
    requires a % 64 == 0 && b % 64 == 0
    ensures (a + b) % 64 == 0
  {}

  lemma HeldWhole(msg: seq<byte>, v: Regs, tail: seq<byte>)
    requires Held(msg, v, tail)
    ensures |tail| <= |msg| && (|msg| - |tail|) % 64 == 0
  {}

  lemma HeldAll(msg: seq<byte>, v: Regs, tail: seq<byte>)
    requires Held(msg, v, tail) && tail == []
    ensures v == Blocks(INIT, msg)
  {
    assert msg[..|msg|] == msg;
  }

  /** What md5_finish appends after the tail. */
  function Padding(bytes: nat): nat { if bytes < 56 then 56 - bytes else if bytes < 120 then 120 - bytes else 0 }

  lemma PaddingFits(msg: seq<byte>, bytes: nat)
    requires bytes <= 64 && bytes <= |msg| && (|msg| - bytes) % 64 == 0
    ensures Padding(bytes) == 1 + PadZeros(|msg|) && (bytes + Padding(bytes) + 8) % 64 == 0
  {
    var q := (|msg| - bytes) / 64;
    assert |msg| == 64 * q + bytes;
    if bytes == 64 { assert |msg| == 64 * (q + 1); }
  }

  // --------------------------------------------------------------------- context

  class Context {
    var v: Regs                   // md_A to md_D
    var total0: nat               // md_total
    var total1: nat
    var bufLen: nat               // md_buf_len
    const buffer: array<byte>     // md_buffer, two blocks long
    ghost var msg: seq<byte>      // everything given to Process so far

    ghost predicate Shape()
      reads this
    {
      buffer.Length == 128 && total0 < TWO_32 && total1 < TWO_32
    }

    ghost predicate Valid()
      reads this, buffer
    {
      && Shape() && bufLen <= 64 && bufLen <= |msg|
      && Held(msg, v, buffer[..bufLen]) && Count(total0, total1) == (|msg| - bufLen) % TWO_64
    }

    /** md5_init */
    constructor ()
      ensures Valid() && msg == [] && fresh(buffer)
    {
      v, total0, total1, bufLen, msg := INIT, 0, 0, 0, [];
      buffer := new byte[128](_ => 0);
      new;
      assert msg[..0] == [] && msg[0..] == [] && buffer[..0] == [];
    }

    /** OP1 and OP234 */
    method Operate(round: nat, a: bv32, b: bv32, c: bv32, d: bv32, k: bv32, s: nat, t: bv32) returns (r: bv32)
      requires s <= 32
      ensures r == Op(round, a, b, c, d, k, s, t)
    {
      hide CodeMix, Mix, Rotl, Plus;
      MixForms(round, b, c, d);
      r := Plus(a, Plus(Plus(CodeMix(round, b, c, d), k), t));
      r := Rotl(r, s);
      r := Plus(r, b);
    }

    /** Four operations, after which each register is back in its place. */
    method FourOps(v0: Regs, x: seq<bv32>, round: nat, ghost q: nat, ghost start: Regs, row: Row) returns (v: Regs)
      requires |x| == 16 && round == q / 4 && v0 == Rows(start, x, q) && row == RowOf(q)
      ensures v == Rows(start, x, q + 1)
    {
      hide Op, RowOf, Shift;
      var a, b, c, d := v0.a, v0.b, v0.c, v0.d;
      a := Operate(round, a, b, c, d, x[row.k0], Shift(round, 0), row.t0);
      d := Operate(round, d, a, b, c, x[row.k1], Shift(round, 1), row.t1);
      c := Operate(round, c, d, a, b, x[row.k2], Shift(round, 2), row.t2);
      b := Operate(round, b, c, d, a, x[row.k3], Shift(round, 3), row.t3);
      v := Regs(a, b, c, d);
    }

    method Round1(w: seq<bv32>, v0: Regs, ghost start: Regs) returns (v: Regs)
      requires |w| == 16 && v0 == Rows(start, w, 0)
      ensures v == Rows(start, w, 4)
    {
      hide Rows;
      v := v0;
      v := FourOps(v, w, 0, 0, start, Row(0, 1, 2, 3, 0xd76aa478, 0xe8c7b756, 0x242070db, 0xc1bdceee));
      v := FourOps(v, w, 0, 1, start, Row(4, 5, 6, 7, 0xf57c0faf, 0x4787c62a, 0xa8304613, 0xfd469501));
      v := FourOps(v, w, 0, 2, start, Row(8, 9, 10, 11, 0x698098d8, 0x8b44f7af, 0xffff5bb1, 0x895cd7be));
      v := FourOps(v, w, 0, 3, start, Row(12, 13, 14, 15, 0x6b901122, 0xfd987193, 0xa679438e, 0x49b40821));
    }

    method Round2(w: seq<bv32>, v0: Regs, ghost start: Regs) returns (v: Regs)
      requires |w| == 16 && v0 == Rows(start, w, 4)
      ensures v == Rows(start, w, 8)
    {
      hide Rows;
      v := v0;
      v := FourOps(v, w, 1, 4, start, Row(1, 6, 11, 0, 0xf61e2562, 0xc040b340, 0x265e5a51, 0xe9b6c7aa));
      v := FourOps(v, w, 1, 5, start, Row(5, 10, 15, 4, 0xd62f105d, 0x02441453, 0xd8a1e681, 0xe7d3fbc8));
      v := FourOps(v, w, 1, 6, start, Row(9, 14, 3, 8, 0x21e1cde6, 0xc33707d6, 0xf4d50d87, 0x455a14ed));
      v := FourOps(v, w, 1, 7, start, Row(13, 2, 7, 12, 0xa9e3e905, 0xfcefa3f8, 0x676f02d9, 0x8d2a4c8a));
    }

    method Round3(w: seq<bv32>, v0: Regs, ghost start: Regs) returns (v: Regs)
      requires |w| == 16 && v0 == Rows(start, w, 8)
      ensures v == Rows(start, w, 12)
    {
      hide Rows;
      v := v0;
      v := FourOps(v, w, 2, 8, start, Row(5, 8, 11, 14, 0xfffa3942, 0x8771f681, 0x6d9d6122, 0xfde5380c));
      v := FourOps(v, w, 2, 9, start, Row(1, 4, 7, 10, 0xa4beea44, 0x4bdecfa9, 0xf6bb4b60, 0xbebfbc70));
      v := FourOps(v, w, 2, 10, start, Row(13, 0, 3, 6, 0x289b7ec6, 0xeaa127fa, 0xd4ef3085, 0x04881d05));
      v := FourOps(v, w, 2, 11, start, Row(9, 12, 15, 2, 0xd9d4d039, 0xe6db99e5, 0x1fa27cf8, 0xc4ac5665));
    }

    method Round4(w: seq<bv32>, v0: Regs, ghost start: Regs) returns (v: Regs)
      requires |w| == 16 && v0 == Rows(start, w, 12)
      ensures v == Rows(start, w, 16)
    {
      hide Rows;
      v := v0;
      v := FourOps(v, w, 3, 12, start, Row(0, 7, 14, 5, 0xf4292244, 0x432aff97, 0xab9423a7, 0xfc93a039));
      v := FourOps(v, w, 3, 13, start, Row(12, 3, 10, 1, 0x655b59c3, 0x8f0ccc92, 0xffeff47d, 0x85845dd1));
      v := FourOps(v, w, 3, 14, start, Row(8, 15, 6, 13, 0x6fa87e4f, 0xfe2ce6e0, 0xa3014314, 0x4e0811a1));
      v := FourOps(v, w, 3, 15, start, Row(4, 11, 2, 9, 0xf7537e82, 0xbd3af235, 0x2ad7d2bb, 0xeb86d391));
    }

    /** The words of a block, little end first. */
    method LoadWords(data: array<byte>, at: nat) returns (words: seq<bv32>)
      requires at + 64 <= data.Length
      ensures words == Words(data[at..at + 64])
    {
      hide Word;
      var w := new bv32[16];
      for i := 0 to 16
        invariant forall j :: 0 <= j < i ==> w[j] == Words(data[at..at + 64])[j]
      {
        w[i] := Word(data[at + 4 * i], data[at + 4 * i + 1], data[at + 4 * i + 2], data[at + 4 * i + 3]);
      }
      words := w[..];
    }

    method OneBlock(data: array<byte>, at: nat, v0: Regs) returns (v: Regs)
      requires at + 64 <= data.Length
      ensures v == Compress(v0, data[at..at + 64])
    {
      hide Rows, Words, Add;
      var w := LoadWords(data, at);
      NoRows(v0, w);
      v := Round1(w, v0, v0);
      v := Round2(w, v, v0);
      v := Round3(w, v, v0);
      v := Round4(w, v, v0);
      v := Add(v, v0);
    }

    /** The byte count of process_block and md5_finish. */
    method AddTotal(len: nat)
      requires Shape() && len < TWO_32
      modifies this`total0, this`total1
      ensures Shape() && Count(total0, total1) == (old(Count(total0, total1)) + len) % TWO_64
    {
      CountAdds(total0, total1, len);
      if total0 > TWO_32 - 1 - len {
        total1 := (total1 + 1) % TWO_32;
        total0 := total0 - (TWO_32 - len);
      } else {
        total0 := total0 + len;
      }
    }

    /** process_block on whole blocks */
    method ProcessBlock(data: array<byte>, at: nat, len: nat)
      requires Shape() && at + len <= data.Length && len % 64 == 0 && len < TWO_32
      modifies this`v, this`total0, this`total1
      ensures Shape() && v == Blocks(old(v), data[at..at + len])
      ensures Count(total0, total1) == (old(Count(total0, total1)) + len) % TWO_64
    {
      hide Compress, Count;
      AddTotal(len);
      var p, regs := 0, v;
      assert data[at..at] == [];
      while p < len
        invariant p <= len && p % 64 == 0 && regs == Blocks(v, data[at..at + p])
        invariant Shape() && v == old(v) && Count(total0, total1) == (old(Count(total0, total1)) + len) % TWO_64
      {
        FoldOneMore(Compress, v, data[at..at + p], data[at + p..at + p + 64]);
        assert data[at..at + p] + data[at + p..at + p + 64] == data[at..at + (p + 64)];
        regs := OneBlock(data, at + p, regs);
        p := p + 64;
      }
      v := regs;
    }

    /** Shifts what lies behind the compressed front of the buffer to its start. */
    method KeepRemainder(from: nat, count: nat)
      requires buffer.Length == 128 && from + count <= 128
      modifies buffer
      ensures buffer[..count] == old(buffer[from..from + count])
    {
      ghost var kept := buffer[from..from + count];
      forall i | 0 <= i < count { buffer[i] := buffer[from + i]; }
      assert buffer[..count] == kept;
    }

    /**
      The first part of md5_process: completes and empties the internal buffer, and says how much
      it took.  The sum of both lengths is an unsigned int; when it wraps, all of the input is
      copied behind the bytes kept, and the copy leaves the buffer.
    */
    method FillBuffer(input: array<byte>, len: nat) returns (add: nat, inside: bool)
      requires Valid() && bufLen > 0 && input != buffer && len <= input.Length && len < TWO_32
      modifies this`v, this`total0, this`total1, this`bufLen, this`msg, buffer
      ensures inside <==> old(bufLen) + len < TWO_32
      ensures inside ==> Valid() && add <= len && msg == old(msg) + input[..add] && (add == len || bufLen == 0)
    {
      hide Held, Blocks, Count;
      var inBlock := bufLen;
      WrappedSum(inBlock, len);
      add := if (inBlock + len) % TWO_32 > 128 then 128 - inBlock else len;
      if inBlock + add > buffer.Length { return add, false; }
      inside := true;
      ghost var tail, part := buffer[..bufLen], input[..add];
      forall i | 0 <= i < add { buffer[inBlock + i] := input[i]; }
      bufLen := bufLen + add;
      inBlock := inBlock + add;
      assert buffer[..inBlock] == tail + part;
      HeldMore(msg, v, tail, part);
      msg := msg + part;
      if inBlock > 64 { CompressFront(inBlock); }
    }

    /** Compresses the whole blocks among the inBlock bytes of the buffer and moves up the remainder. */
    method CompressFront(inBlock: nat)
      requires Shape() && 64 < inBlock <= 128 && inBlock <= |msg|
      requires Held(msg, v, buffer[..inBlock]) && Count(total0, total1) == (|msg| - inBlock) % TWO_64
      modifies this`v, this`total0, this`total1, this`bufLen, buffer
      ensures Valid() && bufLen == inBlock % 64
    {
      hide Held, Blocks, Count;
      var whole := inBlock - inBlock % 64;
      ghost var tail := buffer[..inBlock];
      HeldBlocks(msg, v, tail, whole);
      assert buffer[0..0 + whole] == tail[..whole] && buffer[whole..whole + inBlock % 64] == tail[whole..];
      ProcessBlock(buffer, 0, whole);
      KeepRemainder(whole, inBlock % 64);
      bufLen := inBlock % 64;
      ModAdd(|msg| - inBlock, whole);
    }

    /** The second part: whole blocks straight from the input. */
    method TakeBlocks(input: array<byte>, off: nat, whole: nat)
      requires Valid() && bufLen == 0 && off + whole <= input.Length && whole % 64 == 0 && whole < TWO_32
      modifies this`v, this`total0, this`total1, this`msg
      ensures Valid() && msg == old(msg) + input[off..off + whole]
    {
      hide Held, Blocks, Count;
      ghost var part := input[off..off + whole];
      HeldMore(msg, v, buffer[..0], part);
      assert buffer[..0] + part == part && part[..whole] == part && part[whole..] == buffer[..0];
      HeldBlocks(msg + part, v, part, whole);
      ProcessBlock(input, off, whole);
      ModAdd(|msg|, whole);
      msg := msg + part;
    }

    /** The third part: the rest goes to the empty internal buffer. */
    method Store(input: array<byte>, off: nat, len: nat)
      requires Valid() && bufLen == 0 && input != buffer && off + len <= input.Length && len <= 64
      modifies this`bufLen, this`msg, buffer
      ensures Valid() && msg == old(msg) + input[off..off + len] && bufLen == len
    {
      hide Held, Blocks, Count;
      ghost var part := input[off..off + len];
      HeldMore(msg, v, buffer[..0], part);
      forall i | 0 <= i < len { buffer[i] := input[off + i]; }
      assert buffer[..len] == part && [] + part == part;
      bufLen := len;
      msg := msg + part;
    }

    /**
      md5_process: however the input is cut, the digest is that of everything given; a piece
      stays inside the buffer unless bytes are kept from before and 32 bits cannot count both.
    */
    method Process(input: array<byte>, bufferLen: nat) returns (inside: bool)
      requires Valid() && input != buffer && bufferLen <= input.Length && bufferLen < TWO_32
      modifies this`v, this`total0, this`total1, this`bufLen, this`msg, buffer
      ensures inside <==> old(bufLen) == 0 || old(bufLen) + bufferLen < TWO_32
      ensures inside ==> Valid() && msg == old(msg) + input[..bufferLen]
    {
      hide Valid;
      var off, len := 0, bufferLen;
      inside := true;
      assert old(msg) + input[..0] == old(msg);
      if bufLen > 0 {
        off, inside := FillBuffer(input, len);
        if !inside { return; }
        len := len - off;
      }
      if len > 64 {
        var whole := len - len % 64;
        TakeBlocks(input, off, whole);
        Extend(old(msg), input, off, whole);
        off := off + whole;
        len := len % 64;
      }
      if len > 0 {
        Store(input, off, len);
        Extend(old(msg), input, off, len);
      }
    }

    /** Appends the padding and the length to the bytes left in the buffer. */
    method PadBuffer(ghost n: nat) returns (bytes: nat)
      requires Shape() && bufLen <= 64 && Count(total0, total1) == n % TWO_64
      modifies buffer
      ensures bytes == bufLen + Padding(bufLen) + 8 <= 128
      ensures buffer[..bytes]
        == old(buffer[..bufLen]) + [0x80] + Zeros(Padding(bufLen) - 1) + LittleEndian(BitCount(n) % TWO_32)
        + LittleEndian(BitCount(n) / TWO_32)
    {
      hide LittleEndian, BitCount, Count;
      ghost var tail := buffer[..bufLen];
      bytes := bufLen;
      var pad := 64 - 8 - bytes;
      if pad <= 0 { pad := pad + 64; }
      if pad > 0 {
        buffer[bytes] := 0x80;
        if pad > 1 {
          forall i | bytes + 1 <= i < bytes + pad { buffer[i] := 0; }
        }
        bytes := bytes + pad;
      }
      assert buffer[..bytes] == tail + [0x80] + Zeros(pad - 1);
      LengthWords(total0, total1, n);
      PutWord(bytes, total0 % 0x2000_0000 * 8);
      bytes := bytes + 4;
      PutWord(bytes, total1 * 8 % TWO_32 + total0 / 0x2000_0000);
      bytes := bytes + 4;
    }

    method PutWord(at: nat, hold: nat)
      requires at + 4 <= buffer.Length
      modifies buffer
      ensures buffer[..at + 4] == old(buffer[..at]) + LittleEndian(hold)
    {
      ghost var before := buffer[..at];
      var b := LittleEndian(hold);
      forall i | 0 <= i < 4 { buffer[at + i] := b[i]; }
      assert buffer[..at + 4] == before + b;
    }

    /** md5_finish */
    method Finish(signature: array<byte>)
      requires Valid() && signature.Length >= 16 && signature != buffer
      modifies this`v, this`total0, this`total1, buffer, signature
      ensures signature[..16] == Digest(msg)
    {
      hide Held, Blocks, Count, BitCount, LittleEndian, WordBytes;
      ghost var tail, padding := buffer[..bufLen], Padded(msg)[|msg|..];
      AddTotal(bufLen);
      ModAdd(|msg| - bufLen, bufLen);
      HeldWhole(msg, v, tail);
      PaddingFits(msg, bufLen);
      HeldMore(msg, v, tail, padding);
      assert msg + padding == Padded(msg);
      var bytes := PadBuffer(|msg|);
      assert buffer[0..0 + bytes] == tail + padding;
      HeldBlocks(Padded(msg), v, tail + padding, bytes);
      ProcessBlock(buffer, 0, bytes);
      assert (tail + padding)[bytes..] == [] && (tail + padding)[..bytes] == tail + padding;
      HeldAll(Padded(msg), v, []);
      var d := DigestOf(v);
      forall i | 0 <= i < 16 { signature[i] := d[i]; }
    }
  }

  /** md5_buffer: the digest of buffer[..bufLen] in one call. */
  method Hash(buffer: array<byte>, bufLen: nat, signature: array<byte>)
    requires bufLen <= buffer.Length && bufLen < TWO_32 && signature.Length >= 16
    modifies signature
    ensures signature[..16] == Digest(old(buffer[..bufLen]))
  {
    hide Digest;
    var md5 := new Context();
    var inside := md5.Process(buffer, bufLen);
    assert [] + buffer[..bufLen] == buffer[..bufLen];
    md5.Finish(signature);
  }

  lemma WrappedSum(kept: nat, len: nat)
    requires kept <= 64 && len < TWO_32
    ensures (kept + len) % TWO_32 == if kept + len < TWO_32 then kept + len else kept + len - TWO_32
  {}

  lemma Extend(msg: seq<byte>, input: array<byte>, off: nat, n: nat)
    requires off + n <= input.Length
    ensures msg + input[..off] + input[off..off + n] == msg + input[..off + n]
  {}

  lemma NoRows(v: Regs, x: seq<bv32>)
    requires |x| == 16
    ensures v == Rows(v, x, 0)
  {}
}
