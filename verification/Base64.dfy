/**
  The base64 encoder of libwebsockets (base64-decode.c) against the decoding that
  section 4 of RFC 4648 defines.
*/
module Base64 {
  import opened Bytes

  const UPPER := "ABCDEFGHIJKLMNOPQRSTUVWXYZ"
  const LOWER := "abcdefghijklmnopqrstuvwxyz"
  const OTHER := "0123456789+/"
  const ENCODE := UPPER + LOWER + OTHER

  // -------------------------------------------------------------------- decoding

  /** The value of a character of the alphabet. */
  function Value(c: char): int {
    if 'A' <= c <= 'Z' then c as int - 'A' as int
    else if 'a' <= c <= 'z' then c as int - 'a' as int + 26
    else if '0' <= c <= '9' then c as int - '0' as int + 52
    else if c == '+' then 62 else if c == '/' then 63 else -1
  }

  datatype Option<T> = None | Some(value: T)

  /** The bytes of one group of four characters; padding is allowed in the last group only. */
  function DecodeGroup(g: string, last: bool): Option<seq<byte>>
    requires |g| == 4
  {
    var a, b, c, d := Value(g[0]), Value(g[1]), Value(g[2]), Value(g[3]);
    if a < 0 || b < 0 then None
    else if g[2] == '=' && g[3] == '=' then if last && b % 16 == 0 then Some([a * 4 + b / 16]) else None
    else if c < 0 then None
    else if g[3] == '=' then if last && c % 4 == 0 then Some([a * 4 + b / 16, b % 16 * 16 + c / 4]) else None
    else if d < 0 then None
    else Some([a * 4 + b / 16, b % 16 * 16 + c / 4, c % 4 * 64 + d])
  }

  function Decode(s: string): Option<seq<byte>>
    decreases |s|
  {
    if s == "" then Some([])
    else if |s| < 4 then None
    else
      var g, rest := DecodeGroup(s[..4], |s| == 4), Decode(s[4..]);
      if g.Some? && rest.Some? then Some(g.value + rest.value) else None
  }

  // -------------------------------------------------------------------- encoding

  function Char(v: int): char
    requires 0 <= v < 64
  {
    ENCODE[v]
  }

  /** One to three bytes as four characters. */
  function Group(t: seq<byte>): (g: string)
    requires 1 <= |t| <= 3
    ensures |g| == 4
  {
    var t1: byte, t2: byte := if |t| > 1 then t[1] else 0, if |t| > 2 then t[2] else 0;
    [Char(t[0] / 4), Char(t[0] % 4 * 16 + t1 / 16),
     if |t| > 1 then Char(t1 % 16 * 4 + t2 / 64) else '=', if |t| > 2 then Char(t2 % 64) else '=']
  }

  function Encode(s: seq<byte>): string
    decreases |s|
  {
    if s == [] then "" else if |s| <= 3 then Group(s) else Group(s[..3]) + Encode(s[3..])
  }

  lemma {:induction false} EncodeLength(s: seq<byte>)
    ensures |Encode(s)| == (|s| + 2) / 3 * 4
    decreases |s|
  {
    hide Group;
    if |s| > 3 {
      EncodeLength(s[3..]);
      assert (|s| + 2) / 3 == (|s| - 3 + 2) / 3 + 1;
    }
  }

  // ------------------------------------------------------------------- properties

  /** The encoder's table is the alphabet. */
  lemma Alphabet(v: int)
    requires 0 <= v < 64
    ensures Value(Char(v)) == v && Char(v) != '='
  {
    if v < 26 { Upper(v); } else if v < 52 { Lower(v - 26); } else { Other(v - 52); }
  }

  lemma Upper(v: int)
    requires 0 <= v < 26
    ensures UPPER[v] as int == 'A' as int + v
  {}

  lemma Lower(v: int)
    requires 0 <= v < 26
    ensures LOWER[v] as int == 'a' as int + v
  {}

  lemma Other(v: int)
    requires 0 <= v < 12
    ensures Value(OTHER[v]) == v + 52 && OTHER[v] != '='
  {}

  /** The six-bit pieces of three bytes, put together again. */
  lemma Pieces(t0: byte, t1: byte, t2: byte)
    ensures var b, c := t0 % 4 * 16 + t1 / 16, t1 % 16 * 4 + t2 / 64;
      b / 16 == t0 % 4 && b % 16 == t1 / 16 && c / 4 == t1 % 16 && c % 4 == t2 / 64
  {}

  lemma GroupDecodes(t: seq<byte>, last: bool)
    requires 1 <= |t| <= 3 && (last || |t| == 3)
    ensures DecodeGroup(Group(t), last) == Some(t)
  {
    hide Char, Value;
    var t1: byte, t2: byte := if |t| > 1 then t[1] else 0, if |t| > 2 then t[2] else 0;
    Alphabet(t[0] / 4);
    Alphabet(t[0] % 4 * 16 + t1 / 16);
    Alphabet(t1 % 16 * 4 + t2 / 64);
    Alphabet(t2 % 64);
    PadIs();
    Pieces(t[0], t1, t2);
    assert t == if |t| == 1 then [t[0]] else if |t| == 2 then [t[0], t1] else [t[0], t1, t2];
  }

  lemma PadIs()
    ensures Value('=') == -1
  {}

  /** Whatever the length, the text decodes back to the bytes. */
  lemma {:induction false} EncodeDecodes(s: seq<byte>)
    ensures Decode(Encode(s)) == Some(s)
    decreases |s|
  {
    hide Group, DecodeGroup;
    if s == [] {
    } else if |s| <= 3 {
      GroupDecodes(s, true);
      assert Encode(s)[..4] == Encode(s) && Encode(s)[4..] == "" && s + [] == s;
    } else {
      GroupDecodes(s[..3], false);
      EncodeDecodes(s[3..]);
      EncodeLength(s[3..]);
      assert s[..3] + s[3..] == s && |Encode(s[3..])| >= 4;
      assert Encode(s)[..4] == Group(s[..3]) && Encode(s)[4..] == Encode(s[3..]);
    }
  }

  // ------------------------------------------------------------------- the encoder

  /** lws_b64_encode_string: succeeds exactly when the text, its NUL and one spare character fit. */
  method LwsB64EncodeString(input: array<byte>, inLen: nat, out: array<char>, outSize: int) returns (ret: int)
    requires inLen <= input.Length && outSize <= out.Length
    modifies out
    ensures ret == -1 <==> outSize < (inLen + 2) / 3 * 4 + 2
    ensures ret != -1 ==> ret == (inLen + 2) / 3 * 4 && out[..ret] == Encode(input[..inLen]) && out[ret] == '\0'
  {
    hide Group, Encode;
    var at: nat, done: nat := 0, 0;
    ghost var s := input[..inLen];
    EncodeLength(s);
    assert s[0..] == s && out[..0] + Encode(s) == Encode(s);
    while at < inLen
      invariant at <= inLen && done <= out.Length && (done == 0 || done < outSize)
      invariant out[..done] + Encode(s[at..]) == Encode(s)
    {
      var len := if inLen - at < 3 then inLen - at else 3;
      NextGroup(s, at, len, out[..done]);
      if done + 4 >= outSize { return -1; }
      assert input[at..at + len] == s[at..at + len];
      PutGroup(out, done, Group(input[at..at + len]));
      at := at + len;
      done := done + 4;
    }
    AllEncoded(s, out[..done]);
    if done + 1 >= outSize { return -1; }
    out[done] := '\0';
    ret := done;
  }

  method PutGroup(out: array<char>, at: nat, g: string)
    requires |g| == 4 && at + 4 <= out.Length
    modifies out
    ensures out[..at + 4] == old(out[..at]) + g
  {
    forall i | 0 <= i < 4 { out[at + i] := g[i]; }
  }

  lemma AllEncoded(s: seq<byte>, done: string)
    requires done + Encode(s[|s|..]) == Encode(s)
    ensures done == Encode(s)
  {
    assert s[|s|..] == [];
  }

  lemma NextGroup(s: seq<byte>, at: nat, len: nat, done: string)
    requires at < |s| && len == (if |s| - at < 3 then |s| - at else 3) && done + Encode(s[at..]) == Encode(s)
    ensures done + Group(s[at..at + len]) + Encode(s[at + len..]) == Encode(s) && |done| + 4 <= |Encode(s)|
  {
    hide Group;
    if |s| - at <= 3 {
      assert s[at..] == s[at..at + len] && s[at + len..] == [];
    } else {
      assert s[at..][..3] == s[at..at + 3] && s[at..][3..] == s[at + 3..];
    }
    assert Encode(s[at..]) == Group(s[at..at + len]) + Encode(s[at + len..]);
    assert done + (Group(s[at..at + len]) + Encode(s[at + len..]))
      == done + Group(s[at..at + len]) + Encode(s[at + len..]);
  }
}
