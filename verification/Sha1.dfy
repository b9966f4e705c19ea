/**
  SHA-1 as libwebsockets computes it (sha-1.c): a context that takes the message in
  pieces, a 16-word schedule overwritten in place, and padding at the end; against the
  definition of RFC 3174: padding (section 4), the 80-word schedule (section 6.1).
*/
module Sha1 {
  import opened Bytes
  import opened HashBlocks

  // ------------------------------------------------------------------ definition

  datatype Vars = Vars(a: bv32, b: bv32, c: bv32, d: bv32, e: bv32)

  const H0 := Vars(0x67452301, 0xefcdab89, 0x98badcfe, 0x10325476, 0xc3d2e1f0)

  function Rotl1(x: bv32): bv32 { (x << 1) | (x >> 31) }
  function Rotl5(x: bv32): bv32 { (x << 5) | (x >> 27) }
  function Rotl30(x: bv32): bv32 { (x << 30) | (x >> 2) }

  function F(t: nat, b: bv32, c: bv32, d: bv32): bv32 {
    if t < 20 then (b & c) | (!b & d)
    else if t < 40 then b ^ c ^ d
    else if t < 60 then (b & c) | (b & d) | (c & d)
    else b ^ c ^ d
  }

  function K(t: nat): bv32 {
    if t < 20 then 0x5a827999 else if t < 40 then 0x6ed9eba1 else if t < 60 then 0x8f1bbcdc else 0xca62c1d6
  }

  function Word(b0: byte, b1: byte, b2: byte, b3: byte): bv32 {
    (b0 as bv32 << 24) | (b1 as bv32 << 16) | (b2 as bv32 << 8) | (b3 as bv32)
  }

  function Words(block: seq<byte>): (w: seq<bv32>)
    requires |block| == 64
    ensures |w| == 16
  {
    seq(16, i requires 0 <= i < 16 => Word(block[4 * i], block[4 * i + 1], block[4 * i + 2], block[4 * i + 3]))
  }

  /** The word W(t) of the 80-word schedule. */
  function W(m: seq<bv32>, t: nat): bv32
    requires |m| == 16
  {
    if t < 16 then m[t] else Rotl1(W(m, t - 3) ^ W(m, t - 8) ^ W(m, t - 14) ^ W(m, t - 16))
  }

  function Round(v: Vars, t: nat, w: bv32): Vars {
    Vars(Rotl5(v.a) + F(t, v.b, v.c, v.d) + v.e + w + K(t), v.a, Rotl30(v.b), v.c, v.d)
  }

  function Rounds(v: Vars, m: seq<bv32>, t: nat): Vars
    requires |m| == 16
  {
    if t == 0 then v else Round(Rounds(v, m, t - 1), t - 1, W(m, t - 1))
  }

  function Compress(h: Vars, block: Block): Vars
  {
    Add(h, Rounds(h, Words(block), 80))
  }

  function Add(h: Vars, v: Vars): Vars { Vars(h.a + v.a, h.b + v.b, h.c + v.c, h.d + v.d, h.e + v.e) }

  /** The full blocks of a byte string compressed in order. */
  function Blocks(h: Vars, s: seq<byte>): Vars { Fold(Compress, h, s) }

  /** The eight bytes of a 64 bit number, most significant first. */
  function Length64(bits: nat): seq<byte> {
    [bits / 0x100_0000_0000_0000 % 256, bits / 0x1_0000_0000_0000 % 256,
     bits / 0x100_0000_0000 % 256, bits / 0x1_0000_0000 % 256,
     bits / 0x100_0000 % 256, bits / 0x1_0000 % 256, bits / 0x100 % 256, bits % 256]
  }

  const TWO_64 := 0x1_0000_0000_0000_0000

  function BitCount(msg: seq<byte>): nat { |msg| * 8 % TWO_64 }

  function Padded(msg: seq<byte>): seq<byte> {
    msg + [0x80] + Zeros(PadZeros(|msg|)) + Length64(BitCount(msg))
  }

  function WordBytes(w: bv32): (b: seq<byte>)
    ensures |b| == 4
  {
    [(w >> 24) as int, ((w >> 16) & 0xff) as int, ((w >> 8) & 0xff) as int, (w & 0xff) as int]
  }

  function DigestOf(h: Vars): seq<byte> {
    WordBytes(h.a) + WordBytes(h.b) + WordBytes(h.c) + WordBytes(h.d) + WordBytes(h.e)
  }

  function Digest(msg: seq<byte>): seq<byte> { DigestOf(Blocks(H0, Padded(msg))) }

  // ------------------------------------------------------------------ properties

  /** Padding completes the last block, whatever the length. */
  lemma PaddedIsWhole(msg: seq<byte>)
    ensures |Padded(msg)| % 64 == 0 && |msg| + 9 <= |Padded(msg)| < |msg| + 73
  {
    assert |Padded(msg)| == |msg| + 1 + PadZeros(|msg|) + 8;
    PadToBlock(|msg|);
  }

  /** The 16 slots hold the last 16 words of the schedule, each at its index mod 16. */
  ghost predicate Circular(slots: seq<bv32>, m: seq<bv32>, t: nat)
    requires |slots| == |m| == 16
  {
    forall u {:trigger W(m, u)} :: 0 <= u && t - 16 <= u < t ==> slots[u % 16] == W(m, u)
  }

  ghost predicate Scheduled(slots: seq<bv32>, m: seq<bv32>, t: nat)
    requires |slots| == |m| == 16
  {
    if t < 16 then slots == m else Circular(slots, m, t)
  }

  lemma Slots(t: nat)
    requires t >= 16
    ensures (t % 16 + 13) % 16 == (t - 3) % 16 && (t % 16 + 8) % 16 == (t - 8) % 16
    ensures (t % 16 + 2) % 16 == (t - 14) % 16 && t % 16 == (t - 16) % 16
  {
    var q, s := t / 16, t % 16;
    assert t - 16 == 16 * (q - 1) + s;
  }

  lemma OtherSlot(t: nat, u: nat)
    requires t - 16 < u < t
    ensures u % 16 != t % 16
  {
    assert u == 16 * (u / 16) + u % 16 && t == 16 * (t / 16) + t % 16;
  }

  /** The in-place schedule of section 6.2 refines section 6.1. */
  lemma CircularStep(slots: seq<bv32>, m: seq<bv32>, t: nat, w: bv32)
    requires |slots| == |m| == 16 && t >= 16 && Circular(slots, m, t)
    requires w == Rotl1(slots[(t % 16 + 13) % 16] ^ slots[(t % 16 + 8) % 16] ^ slots[(t % 16 + 2) % 16] ^ slots[t % 16])
    ensures w == W(m, t) && Circular(slots[t % 16 := w], m, t + 1)
  {
    Slots(t);
    assert slots[(t - 3) % 16] == W(m, t - 3) && slots[(t - 8) % 16] == W(m, t - 8);
    assert slots[(t - 14) % 16] == W(m, t - 14) && slots[(t - 16) % 16] == W(m, t - 16);
    assert w == W(m, t);
    forall u {:trigger W(m, u)} | 0 <= u && t + 1 - 16 <= u < t + 1 ensures slots[t % 16 := w][u % 16] == W(m, u) {
      if u < t { OtherSlot(t, u); }
    }
  }

  /** h has compressed all of data but the tail, which does not fill a block. */
  ghost predicate Held(data: seq<byte>, h: Vars, tail: seq<byte>) {
    && |tail| == |data| % 64 && tail == data[|data| - |tail|..]
    && h == Blocks(H0, data[..|data| - |tail|])
  }

  ghost predicate Absorbed(msg: seq<byte>, h: Vars, tail: seq<byte>, bits: nat) {
    Held(msg, h, tail) && bits == BitCount(msg)
  }

  // --------------------------------------------------------------------- context

  class Context {
    var h: Vars              // h.b32
    const m: array<byte>     // m.b8
    var count: nat           // bytes in m
    var bits: nat            // c.b64, the 64 bit count of message bits
    ghost var msg: seq<byte> // everything given to Loop so far

    ghost predicate Shape()
      reads this
    {
      m.Length == 64 && count < 64
    }

    ghost predicate Valid()
      reads this, m
    {
      Shape() && Absorbed(msg, h, m[..count], bits)
    }

    /** sha1_init */
    constructor ()
      ensures Valid() && msg == [] && fresh(m)
    {
      h, count, bits, msg := H0, 0, 0, [];
      m := new byte[64](_ => 0);
      new;
      assert msg[..0] == [] && msg[0..] == [] && m[..0] == [];
      assert Blocks(H0, []) == H0;
    }

    /** The word of round t, put in its slot from round 16 on. */
    method NextWord(w: array<bv32>, ghost words: seq<bv32>, t: nat) returns (word: bv32)
      requires w.Length == |words| == 16 && Scheduled(w[..], words, t)
      modifies w
      ensures word == W(words, t) && Scheduled(w[..], words, t + 1)
    {
      var s := t % 16;
      if t >= 16 {
        ghost var before := w[..];
        w[s] := Rotl1(w[(s + 13) % 16] ^ w[(s + 8) % 16] ^ w[(s + 2) % 16] ^ w[s]);
        CircularStep(before, words, t, w[s]);
        assert w[..] == before[s := w[s]];
      } else if t == 15 {
        StartCircular(words);
      }
      return w[s];
    }

    /** One of the four loops of sha1_step. */
    method RoundLoop(w: array<bv32>, ghost words: seq<bv32>, v0: Vars, t0: nat, t1: nat, ghost start: Vars)
      returns (v: Vars)
      requires w.Length == |words| == 16 && t0 <= t1
      requires v0 == Rounds(start, words, t0) && Scheduled(w[..], words, t0)
      modifies w
      ensures v == Rounds(start, words, t1) && Scheduled(w[..], words, t1)
    {
      v := v0;
      for t := t0 to t1
        invariant v == Rounds(start, words, t) && Scheduled(w[..], words, t)
      {
        var word := NextWord(w, words, t);
        v := Round(v, t, word);
      }
    }

    /** The 16 words of the block, which sha1_step overlays on its bytes. */
    method LoadWords() returns (w: array<bv32>)
      requires Shape()
      ensures fresh(w) && w[..] == Words(m[..])
    {
      w := new bv32[16];
      for i := 0 to 16
        invariant forall j :: 0 <= j < i ==> w[j] == Words(m[..])[j]
      {
        w[i] := Word(m[4 * i], m[4 * i + 1], m[4 * i + 2], m[4 * i + 3]);
      }
    }

    /** The 80 rounds, in four loops. */
    method AllRounds(w: array<bv32>, ghost words: seq<bv32>) returns (v: Vars)
      requires w.Length == 16 && w[..] == words
      modifies w
      ensures v == Rounds(h, words, 80)
    {
      v := RoundLoop(w, words, h, 0, 20, h);
      v := RoundLoop(w, words, v, 20, 40, h);
      v := RoundLoop(w, words, v, 40, 60, h);
      v := RoundLoop(w, words, v, 60, 80, h);
    }

    method ClearBlock()
      requires Shape()
      modifies m
      ensures m[..] == Zeros(64)
    {
      forall i | 0 <= i < 64 { m[i] := 0; }
    }

    /** sha1_step: compresses the full block in m, which is then cleared. */
    method Step()
      requires Shape()
      modifies this`h, m
      ensures h == Compress(old(h), old(m[..])) && m[..] == Zeros(64)
    {
      hide Rounds, W, Words, Round, Compress, Add;
      var w := LoadWords();
      ghost var words := w[..];
      var v := AllRounds(w, words);
      CompressIs(h, m[..], words, v);
      h := Add(h, v);
      ClearBlock();
    }

    /** sha1_loop: takes any amount of input, compressing whenever the block is full. */
    method Loop(input: array<byte>, len: nat)
      requires Valid() && len <= input.Length && input != m
      modifies this, m
      ensures Valid() && msg == old(msg) + input[..len]
    {
      hide Compress, Blocks, Absorbed;
      var off := 0;
      ghost var msg0 := msg;
      while off < len
        invariant Valid() && off <= len && msg == msg0 + input[..off]
      {
        var gapstart := count;
        var gaplen := 64 - gapstart;
        var copysiz := if gaplen < len - off then gaplen else len - off;
        TakeIn(input, off, copysiz);
        assert input[..off] + input[off..off + copysiz] == input[..off + copysiz];
        off := off + copysiz;
      }
    }

    /** One turn of that loop: copysiz bytes go to the gap at the end of m. */
    method TakeIn(input: array<byte>, off: nat, copysiz: nat)
      requires Valid() && off + copysiz <= input.Length && 0 < copysiz <= 64 - count && input != m
      modifies this, m
      ensures Valid() && msg == old(msg) + input[off..off + copysiz]
    {
      hide Compress, Blocks, Absorbed;
      ghost var part, tail := input[off..off + copysiz], m[..count];
      forall i | 0 <= i < copysiz { m[count + i] := input[off + i]; }
      assert m[..count + copysiz] == tail + part;
      AbsorbPart(msg, h, tail, bits, part);
      bits := (bits + copysiz * 8) % TWO_64;
      count := (count + copysiz) % 64;
      msg := msg + part;
      if count == 0 {
        assert m[..] == m[..64];
        Step();
        assert m[..0] == [];
      }
    }

    /** The PUTPAD macro: a byte that is not counted as part of the message. */
    method PutPad(ghost data: seq<byte>, x: byte)
      requires Shape() && Held(data, h, m[..count])
      modifies this`h, this`count, m
      ensures Shape() && Held(data + [x], h, m[..count]) && count == (old(count) + 1) % 64
    {
      hide Held, Compress;
      ghost var tail := m[..count];
      m[count % 64] := x;
      assert m[..count + 1] == tail + [x];
      HoldPart(data, h, tail, [x]);
      count := count + 1;
      count := count % 64;
      if count % 64 == 0 {
        assert m[..] == m[..64];
        Step();
        assert m[..0] == [];
      }
    }

    /** Clears n bytes behind the tail, short of completing the block. */
    method FillZeros(ghost data: seq<byte>, n: nat)
      requires Shape() && Held(data, h, m[..count]) && count + n < 64
      modifies this`count, m
      ensures Shape() && Held(data + Zeros(n), h, m[..count]) && count == old(count) + n
    {
      hide Held, Compress;
      ghost var tail := m[..count];
      forall i | 0 <= i < n { m[count + i] := 0; }
      assert m[..count + n] == tail + Zeros(n);
      HoldPart(data, h, tail, Zeros(n));
      count := (count + n) % 64;
    }

    /** Clears the rest of the block and compresses it. */
    method FillBlock(ghost data: seq<byte>)
      requires Shape() && Held(data, h, m[..count])
      modifies this`h, this`count, m
      ensures Shape() && Held(data + Zeros(64 - old(count)), h, m[..count]) && count == 0
    {
      hide Held, Compress;
      ghost var tail := m[..count];
      forall i | 0 <= i < 64 - count { m[count + i] := 0; }
      assert m[..] == tail + Zeros(64 - count);
      HoldPart(data, h, tail, Zeros(64 - count));
      count := (count + (64 - count)) % 64;
      Step();
      assert m[..0] == [];
    }

    /** The eight bytes of the count, most significant first. */
    method PutLength(ghost data: seq<byte>)
      requires Shape() && Held(data, h, m[..count])
      modifies this`h, this`count, m
      ensures Shape() && Held(data + Length64(bits), h, m[..count])
    {
      hide Held;
      var c := Length64(bits);
      PutPad(data, c[0]);
      PutPad(data + [c[0]], c[1]);
      PutPad(data + [c[0]] + [c[1]], c[2]);
      PutPad(data + [c[0]] + [c[1]] + [c[2]], c[3]);
      ghost var half := data + [c[0]] + [c[1]] + [c[2]] + [c[3]];
      PutPad(half, c[4]);
      PutPad(half + [c[4]], c[5]);
      PutPad(half + [c[4]] + [c[5]], c[6]);
      PutPad(half + [c[4]] + [c[5]] + [c[6]], c[7]);
      assert half + [c[4]] + [c[5]] + [c[6]] + [c[7]] == data + c;
    }

    /** sha1_pad, for every number of bytes left in the last block. */
    method Pad()
      requires Valid()
      modifies this`h, this`count, m
      ensures h == Blocks(H0, Padded(msg))
    {
      hide Held, Length64, Blocks;
      ghost var data, zeros := msg + [0x80], 0;
      HeldCount(msg, h, m[..count]);
      assert data + Zeros(0) == data;
      PutPad(msg, 0x80);
      var padlen := 64 - count;
      if padlen < 8 {
        FillBlock(data);
        zeros := padlen;
        padlen := 64 - count;
      }
      FillZeros(data + Zeros(zeros), padlen - 8);
      assert Zeros(zeros) + Zeros(padlen - 8) == Zeros(PadZeros(|msg|));
      assert data + Zeros(zeros) + Zeros(padlen - 8) == data + Zeros(PadZeros(|msg|));
      PutLength(data + Zeros(PadZeros(|msg|)));
      PaddedIsWhole(msg);
      WholeHeld(Padded(msg), h, m[..count]);
    }

    /** sha1_result */
    method Result(digest: array<byte>)
      requires Valid() && digest.Length >= 20 && digest != m
      modifies this`h, this`count, m, digest
      ensures digest[..20] == Digest(msg)
    {
      hide WordBytes, Blocks, Padded;
      Pad();
      var d := DigestOf(h);
      forall i | 0 <= i < 20 { digest[i] := d[i]; }
    }
  }

  /** SHA1: the digest of d[..n] in one call. */
  method Hash(d: array<byte>, n: nat, md: array<byte>)
    requires n <= d.Length && md.Length >= 20
    modifies md
    ensures md[..20] == Digest(old(d[..n]))
  {
    hide Digest;
    var ctx := new Context();
    ctx.Loop(d, n);
    assert [] + d[..n] == d[..n];
    ctx.Result(md);
  }

  /** Appending what fits: it completes the block, or joins the tail. */
  lemma HoldPart(data: seq<byte>, h: Vars, tail: seq<byte>, part: seq<byte>)
    requires Held(data, h, tail) && |part| <= 64 - |tail|
    ensures if |tail| + |part| == 64 then Held(data + part, Compress(h, tail + part), [])
      else Held(data + part, h, tail + part)
  {
    hide Compress, Fold;
    var head := data[..|data| - |tail|];
    LengthSplit(|data|, |part|);
    assert head + (tail + part) == data + part;
    if |tail| + |part| == 64 {
      FoldOneMore(Compress, H0, head, tail + part);
      assert (data + part)[..|data + part|] == data + part;
    } else {
      assert (data + part)[..|data + part| - |tail + part|] == head;
    }
  }

  lemma AbsorbPart(msg: seq<byte>, h: Vars, tail: seq<byte>, bits: nat, part: seq<byte>)
    requires Absorbed(msg, h, tail, bits) && |part| <= 64 - |tail|
    ensures if |tail| + |part| == 64
      then Absorbed(msg + part, Compress(h, tail + part), [], (bits + |part| * 8) % TWO_64)
            else Absorbed(msg + part, h, tail + part, (bits + |part| * 8) % TWO_64)
  {
    hide Held, Compress;
    BitsAdd(msg, part);
    HoldPart(msg, h, tail, part);
  }

  lemma HeldCount(data: seq<byte>, h: Vars, tail: seq<byte>)
    requires Held(data, h, tail)
    ensures |tail| == |data| % 64
  {}

  lemma WholeHeld(data: seq<byte>, h: Vars, tail: seq<byte>)
    requires Held(data, h, tail) && |data| % 64 == 0
    ensures tail == [] && h == Blocks(H0, data)
  {
    assert data[..|data|] == data;
  }

  lemma LengthSplit(n: nat, k: nat)
    requires n % 64 + k <= 64
    ensures (n - n % 64) % 64 == 0 && (n + k) % 64 == (n % 64 + k) % 64
  {
    var q, r := n / 64, n % 64;
    assert n == 64 * q + r;
    if r + k == 64 { assert n + k == 64 * (q + 1); }
  }

  lemma BitsAdd(msg: seq<byte>, part: seq<byte>)
    ensures (BitCount(msg) + |part| * 8) % TWO_64 == BitCount(msg + part)
  {
    var q := |msg| * 8 / TWO_64;
    assert |msg| * 8 == q * TWO_64 + BitCount(msg);
  }

  lemma CompressIs(h: Vars, block: seq<byte>, words: seq<bv32>, v: Vars)
    requires |block| == 64 && words == Words(block) && v == Rounds(h, words, 80)
    ensures Compress(h, block) == Add(h, v)
  {}

  lemma StartCircular(words: seq<bv32>)
    requires |words| == 16
    ensures Circular(words, words, 16)
  {}
}
