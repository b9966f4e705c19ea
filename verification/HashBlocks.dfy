/** What SHA-1 and MD5 have in common: 64 byte blocks compressed in order, and how the last one is filled. */
module HashBlocks {
  import opened Bytes

  type Block = b: seq<byte> | |b| == 64 witness Zeros(64)

  /** Compressing the full blocks of a byte string in order; a remainder is left out. */
  function Fold<S>(compress: (S, Block) -> S, h: S, s: seq<byte>): S
    decreases |s|
  {
    if |s| < 64 then h else Fold(compress, compress(h, s[..64]), s[64..])
  }

  function Zeros(n: nat): seq<byte> { seq(n, _ => 0) }

  /** The zero bytes between the 0x80 and the length. */
  function PadZeros(n: nat): nat { if n % 64 < 56 then 55 - n % 64 else 119 - n % 64 }

  lemma PadToBlock(n: nat)
    ensures (n + 1 + PadZeros(n) + 8) % 64 == 0
  {
    var q, r := n / 64, n % 64;
    assert n == 64 * q + r;
    if r < 56 {
      assert n + 1 + PadZeros(n) + 8 == 64 * (q + 1);
    } else {
      assert n + 1 + PadZeros(n) + 8 == 64 * (q + 2);
    }
  }

  /** Hashing block by block may stop and resume at any block boundary. */
  lemma {:induction false} FoldAppend<S>(compress: (S, Block) -> S, h: S, s: seq<byte>, t: seq<byte>)
    requires |s| % 64 == 0
    ensures Fold(compress, h, s + t) == Fold(compress, Fold(compress, h, s), t)
    decreases |s|
  {
    if s == [] {
      assert s + t == t;
    } else {
      assert (s + t)[..64] == s[..64] && (s + t)[64..] == s[64..] + t;
      FoldAppend(compress, compress(h, s[..64]), s[64..], t);
    }
  }

  /** One more full block. */
  lemma FoldOneMore<S>(compress: (S, Block) -> S, h: S, s: seq<byte>, block: Block)
    requires |s| % 64 == 0
    ensures Fold(compress, h, s + block) == compress(Fold(compress, h, s), block)
  {
    FoldAppend(compress, h, s, block);
    assert block[..64] == block && block[64..] == [];
  }
}
