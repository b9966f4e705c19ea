/**
  The packed byte table that minilex.c emits for a trie, and its interpreter
  lextable_decode (minilex.c and parsers.c).  Branches take a 1-byte form when
  the target follows at once and a 3-byte form with a forward jump otherwise; a
  terminal marker takes two bytes.
*/
module LexTable {
  import opened Bytes
  import opened LexTrie

  // -------------------------------------------------------- positions and bytes

  /** Two per used slot of the earlier states: `bytepos`. */
  function BytePos(t: Trie, n: nat): nat
    requires n <= |t|
  {
    if n == 0 then 0 else BytePos(t, n - 1) + 2 * |t[n - 1]|
  }

  /** The target starts right behind this entry, so no jump is needed. */
  predicate OneByte(t: Trie, n: nat, m: nat)
    requires n < |t| && m < |t[n]|
  {
    0 < t[n][m].state < |t| && BytePos(t, t[n][m].state) - (BytePos(t, n) + 2 * m) == 2
  }

  function EntrySize(t: Trie, n: nat, m: nat): nat
    requires n < |t| && m < |t[n]|
  {
    if t[n][m].state == 0 then 2
    else if OneByte(t, n, m) then 1
    else if m == |t[n]| - 1 then 4 else 3
  }

  function EntriesSize(t: Trie, n: nat, m: nat): nat
    requires n < |t| && m <= |t[n]|
  {
    if m == 0 then 0 else EntriesSize(t, n, m - 1) + EntrySize(t, n, m - 1)
  }

  /** Where state n starts in the table: `real_pos`. */
  function RealPos(t: Trie, n: nat): nat
    requires n <= |t|
  {
    if n == 0 then 0 else RealPos(t, n - 1) + EntriesSize(t, n - 1, |t[n - 1]|)
  }

  function Jump(t: Trie, n: nat, m: nat): int
    requires n < |t| && m < |t[n]| && t[n][m].state < |t|
  {
    RealPos(t, t[n][m].state) - (RealPos(t, n) + EntriesSize(t, n, m))
  }

  predicate NeedsJump(t: Trie, n: nat, m: nat)
    requires n < |t| && m < |t[n]|
  {
    t[n][m].state != 0 && !OneByte(t, n, m)
  }

  ghost predicate JumpFits(t: Trie, n: nat, m: nat)
    requires n < |t| && m < |t[n]|
  {
    NeedsJump(t, n, m) && t[n][m].state < |t| ==> Jump(t, n, m) <= 0xffff
  }

  ghost predicate StateFits(t: Trie, n: nat)
    requires n < |t|
  {
    forall m :: 0 <= m < |t[n]| ==> JumpFits(t, n, m)
  }

  ghost predicate StatesFit(t: Trie, n: nat)
    requires n <= |t|
  {
    n == 0 || (StatesFit(t, n - 1) && StateFits(t, n - 1))
  }

  ghost predicate AllJumpsFit(t: Trie) { StatesFit(t, |t|) }

  lemma {:induction false} FitsEach(t: Trie, n: nat, k: nat)
    requires n < k <= |t| && StatesFit(t, k)
    ensures StateFits(t, n)
  {
    if n < k - 1 { FitsEach(t, n, k - 1); }
  }

  lemma {:induction false} FitsAll(t: Trie, n: nat, k: nat)
    requires n <= k <= |t| && !StatesFit(t, n)
    ensures !StatesFit(t, k)
  {
    if n < k { FitsAll(t, n, k - 1); }
  }

  lemma {:induction false} EntriesBound(t: Trie, n: nat, m: nat)
    requires n < |t| && m <= |t[n]|
    ensures EntriesSize(t, n, m) <= 4 * m
  {
    hide OneByte;
    if m > 0 { EntriesBound(t, n, m - 1); }
  }

  lemma {:induction false} RealPosBound(t: Trie, n: nat)
    requires n <= |t|
    ensures RealPos(t, n) <= 4 * Slots(t, n)
  {
    if n > 0 {
      EntriesBound(t, n - 1, |t[n - 1]|);
      RealPosBound(t, n - 1);
    }
  }

  lemma {:induction false} SlotsGrow(t: Trie, n: nat, n': nat)
    requires n <= n' <= |t|
    ensures Slots(t, n) <= Slots(t, n')
  {
    if n < n' { SlotsGrow(t, n, n' - 1); }
  }

  /** In 1000 states no jump comes near 64K, so the test for it never fails. */
  lemma {:induction false} JumpsFit(t: Trie, n: nat)
    requires Grown(t) && |t| <= MAX_STATES && n <= |t|
    ensures StatesFit(t, n)
  {
    hide RealPos, OneByte, EntriesSize;
    if n > 0 {
      JumpsFit(t, n - 1);
      var p := n - 1;
      forall m | 0 <= m < |t[p]| ensures JumpFits(t, p, m) {
        if t[p][m].state < |t| {
          RealPosBound(t, t[p][m].state);
          SlotsGrow(t, t[p][m].state, |t|);
        }
      }
    }
  }

  function EntryBytes(t: Trie, n: nat, m: nat): seq<byte>
    requires n < |t| && m < |t[n]| && t[n][m].state < |t|
  {
    var e := t[n][m];
    if e.state == 0 then [if e.c < 0 then 255 else 0, e.c % 256]
    else if OneByte(t, n, m) then [e.c % 128 + 128]
    else [e.c % 256, Jump(t, n, m) % 256, Jump(t, n, m) / 256 % 256] + if m == |t[n]| - 1 then [FAIL_CHAR] else []
  }

  ghost predicate Targets(t: Trie) {
    forall n, k :: 0 <= n < |t| && 0 <= k < |t[n]| ==> t[n][k].state < |t|
  }

  function StateBytes(t: Trie, n: nat, m: nat): (b: seq<byte>)
    requires n < |t| && m <= |t[n]| && Targets(t)
    ensures |b| == EntriesSize(t, n, m)
  {
    if m == 0 then [] else StateBytes(t, n, m - 1) + EntryBytes(t, n, m - 1)
  }

  function TableBytes(t: Trie, n: nat): (b: seq<byte>)
    requires n <= |t| && Targets(t)
    ensures |b| == RealPos(t, n)
  {
    if n == 0 then [] else TableBytes(t, n - 1) + StateBytes(t, n - 1, |t[n - 1]|)
  }

  function Table(t: Trie): seq<byte> requires Targets(t) { TableBytes(t, |t|) }

  lemma {:induction false} StateBytesPrefix(t: Trie, n: nat, m: nat, m': nat)
    requires n < |t| && m <= m' <= |t[n]| && Targets(t)
    ensures StateBytes(t, n, m) <= StateBytes(t, n, m')
  {
    hide EntryBytes, EntriesSize;
    if m < m' { StateBytesPrefix(t, n, m, m' - 1); }
  }

  lemma {:induction false} TableBytesPrefix(t: Trie, n: nat, n': nat)
    requires n <= n' <= |t| && Targets(t)
    ensures TableBytes(t, n) <= TableBytes(t, n')
  {
    hide StateBytes, RealPos;
    if n < n' { TableBytesPrefix(t, n, n' - 1); }
  }

  function EntryPos(t: Trie, n: nat, m: nat): nat
    requires n < |t| && m <= |t[n]|
  {
    RealPos(t, n) + EntriesSize(t, n, m)
  }

  lemma Within(head: seq<byte>, mid: seq<byte>, e: seq<byte>, state: seq<byte>, whole: seq<byte>)
    requires mid + e <= state && head + state <= whole
    ensures |head| + |mid| + |e| <= |whole| && whole[|head| + |mid|..|head| + |mid| + |e|] == e
  {
    assert forall i :: 0 <= i < |state| ==> whole[|head| + i] == state[i];
    assert forall i :: 0 <= i < |e| ==> state[|mid| + i] == e[i];
  }

  lemma EntryLength(t: Trie, n: nat, m: nat)
    requires n < |t| && m < |t[n]| && t[n][m].state < |t|
    ensures |EntryBytes(t, n, m)| == EntrySize(t, n, m)
  {
    hide BytePos, Jump;
  }

  lemma EntryAt(t: Trie, n: nat, m: nat)
    requires n < |t| && m < |t[n]| && Targets(t)
    ensures |EntryBytes(t, n, m)| == EntrySize(t, n, m)
    ensures EntryPos(t, n, m) + EntrySize(t, n, m) <= |Table(t)|
    ensures Table(t)[EntryPos(t, n, m)..EntryPos(t, n, m) + EntrySize(t, n, m)] == EntryBytes(t, n, m)
  {
    hide BytePos, Jump, OneByte, EntryBytes, EntrySize, RealPos, EntriesSize;
    EntryLength(t, n, m);
    StateBytesPrefix(t, n, m + 1, |t[n]|);
    TableBytesPrefix(t, n + 1, |t|);
    assert TableBytes(t, n + 1) == TableBytes(t, n) + StateBytes(t, n, |t[n]|);
    assert StateBytes(t, n, m + 1) == StateBytes(t, n, m) + EntryBytes(t, n, m);
    Within(TableBytes(t, n), StateBytes(t, n, m), EntryBytes(t, n, m), StateBytes(t, n, |t[n]|), Table(t));
  }

  lemma EntryByte(t: Trie, n: nat, m: nat, i: nat)
    requires n < |t| && m < |t[n]| && Targets(t) && i < |EntryBytes(t, n, m)|
    ensures EntryPos(t, n, m) + i < |Table(t)| && Table(t)[EntryPos(t, n, m) + i] == EntryBytes(t, n, m)[i]
  {
    EntryAt(t, n, m);
    var pos := EntryPos(t, n, m);
    assert Table(t)[pos..pos + EntrySize(t, n, m)][i] == Table(t)[pos + i];
  }

  lemma {:induction false} BytePosGrows(t: Trie, a: nat, b: nat)
    requires a <= b <= |t| && forall n :: a <= n < b ==> t[n] != []
    ensures BytePos(t, b) >= BytePos(t, a) + 2 * (b - a)
  {
    if a < b { BytePosGrows(t, a, b - 1); }
  }

  /** The adjacency test picks out the last branch of a state when it leads to the next state. */
  lemma OneByteIff(t: Trie, words: seq<seq<byte>>, n: nat, m: nat)
    requires Built(t, words) && n < |t| && m < |t[n]| && t[n][m].state != 0
    ensures OneByte(t, n, m) <==> m == |t[n]| - 1 && t[n][m].state == n + 1
  {
    assert EdgeOk(t, n, m);
    var v := t[n][m].state;
    BytePosGrows(t, n + 1, v);
    assert BytePos(t, n + 1) == BytePos(t, n) + 2 * |t[n]|;
  }

  // ------------------------------------------------------------- the interpreter

  datatype Found = At(pos: nat) | Fail | Overrun

  /** One character against the table from pos; Overrun is a read past the end of the table. */
  function Decode(tb: seq<byte>, pos: nat, c: int): Found
    decreases |tb| - pos
  {
    if pos >= |tb| then Overrun
    else if tb[pos] >= 128 then
      if tb[pos] - 128 != c then Fail
      else if pos + 1 >= |tb| then Overrun
      else if tb[pos + 1] == FAIL_CHAR then Fail
      else At(pos + 1)
    else if tb[pos] < FAIL_CHAR then At(pos)
    else if tb[pos] == c then
      if pos + 2 >= |tb| then Overrun else At(pos + tb[pos + 1] as int + 256 * (tb[pos + 2] as int))
    else Decode(tb, pos + 3, c)
  }

  // Marker: a terminal marker was reached with `left` characters unread.
  datatype Outcome = Rejected | Overran | Marker(index: nat, left: nat) | Unfinished(pos: nat)

  /** Feeding a name character by character until a marker or a failure. */
  function Feed(tb: seq<byte>, pos: nat, s: seq<int>): Outcome
    decreases |s|
  {
    if s == [] then Unfinished(pos)
    else match Decode(tb, pos, s[0])
      case Fail => Rejected
      case Overrun => Overran
      case At(q) =>
        if q >= |tb| then Overran
        else if tb[q] >= FAIL_CHAR then Feed(tb, q, s[1..])
        else if q + 1 >= |tb| then Overran
        else Marker(tb[q] as int * 256 + tb[q + 1] as int, |s| - 1)
  }

  lemma FirstByte(t: Trie, words: seq<seq<byte>>, n: nat)
    requires Built(t, words) && Targets(t) && 0 < n < |t|
    ensures RealPos(t, n) + 1 < |Table(t)| && Table(t)[RealPos(t, n)] != FAIL_CHAR
    ensures t[n][0].state != 0 ==> Table(t)[RealPos(t, n)] > FAIL_CHAR
    ensures t[n][0].state == 0 ==> Table(t)[RealPos(t, n)] == (if t[n][0].c < 0 then 255 else 0)
    ensures t[n][0].state == 0 ==> Table(t)[RealPos(t, n) + 1] == t[n][0].c % 256
  {
    assert t[n] != [];
    assert EdgeOk(t, n, 0);
    EntryByte(t, n, 0, 0);
    if t[n][0].state == 0 { EntryByte(t, n, 0, 1); }
    else if !OneByte(t, n, 0) { EntryByte(t, n, 0, 1); }
    else { NextState(t, words, n); }
  }

  /** A state whose only way on is the 1-byte form is followed by another state. */
  lemma NextState(t: Trie, words: seq<seq<byte>>, n: nat)
    requires Built(t, words) && Targets(t) && n < |t| && t[n] != [] && t[n][0].state != 0 && OneByte(t, n, 0)
    ensures RealPos(t, n) + 1 < |Table(t)|
  {
    assert EdgeOk(t, n, 0);
    OneByteIff(t, words, n, 0);
    assert t[n + 1] != [];
    EntryAt(t, n + 1, 0);
    assert EntriesSize(t, n, 1) == EntrySize(t, n, 0);
  }

  lemma {:induction false} RealPosGrows(t: Trie, a: nat, b: nat)
    requires a <= b <= |t|
    ensures RealPos(t, a) <= RealPos(t, b)
  {
    if a < b { RealPosGrows(t, a, b - 1); }
  }

  /** A branch in the 1-byte form: the marked character, then the target state. */
  lemma OneByteBranch(t: Trie, words: seq<seq<byte>>, n: nat, k: nat)
    requires Built(t, words) && Targets(t) && n < |t| && k < |t[n]| && t[n][k].state != 0
    requires OneByte(t, n, k)
    ensures CharOk(t[n][k].c) && EntryPos(t, n, k) < |Table(t)| && Table(t)[EntryPos(t, n, k)] == t[n][k].c + 128
    ensures k == |t[n]| - 1 && RealPos(t, t[n][k].state) == EntryPos(t, n, k) + 1
  {
    assert EdgeOk(t, n, k);
    EntryByte(t, n, k, 0);
    OneByteIff(t, words, n, k);
  }

  /** A branch in the 3-byte form: the character and the forward jump, little end first. */
  lemma JumpBranch(t: Trie, words: seq<seq<byte>>, n: nat, k: nat)
    requires Built(t, words) && Targets(t) && n < |t| && k < |t[n]| && t[n][k].state != 0
    requires !OneByte(t, n, k)
    ensures CharOk(t[n][k].c) && 0 < Jump(t, n, k)
    ensures var tb, pos := Table(t), EntryPos(t, n, k); pos + 2 < |tb| && tb[pos] == t[n][k].c
    ensures var tb, pos, j := Table(t), EntryPos(t, n, k), Jump(t, n, k);
      tb[pos + 1] == j % 256 && tb[pos + 2] == j / 256 % 256
    ensures if k == |t[n]| - 1
            then RealPos(t, n + 1) == EntryPos(t, n, k) + 4 <= |Table(t)|
              && Table(t)[EntryPos(t, n, k) + 3] == FAIL_CHAR
            else EntryPos(t, n, k + 1) == EntryPos(t, n, k) + 3
  {
    hide TableBytes, BytePos, StateBytes;
    assert EdgeOk(t, n, k);
    EntryByte(t, n, k, 0);
    EntryByte(t, n, k, 1);
    EntryByte(t, n, k, 2);
    if k == |t[n]| - 1 { EntryByte(t, n, k, 3); }
    RealPosGrows(t, n + 1, t[n][k].state);
    EntriesGrow(t, n, k + 1, |t[n]|);
  }

  lemma DecodeSkip(tb: seq<byte>, pos: nat, c: int)
    requires pos < |tb| && FAIL_CHAR <= tb[pos] < 128 && tb[pos] != c
    ensures Decode(tb, pos, c) == Decode(tb, pos + 3, c)
  {}

  /** A character that matches none of the entries j..k is carried past all of them. */
  lemma {:induction false} SkipEntries(t: Trie, words: seq<seq<byte>>, n: nat, j: nat, k: nat, c: int)
    requires Built(t, words) && Targets(t) && n < |t| && j <= k < |t[n]| && t[n][0].state != 0
    requires forall i :: j <= i < k ==> t[n][i].c != c
    ensures Decode(Table(t), EntryPos(t, n, j), c) == Decode(Table(t), EntryPos(t, n, k), c)
    decreases k - j
  {
    if j < k {
      assert EdgeOk(t, n, 0) && EdgeOk(t, n, j);
      OneByteIff(t, words, n, j);
      JumpBranch(t, words, n, j);
      DecodeSkip(Table(t), EntryPos(t, n, j), c);
      SkipEntries(t, words, n, j + 1, k, c);
    }
  }

  lemma DecodeOneByte(tb: seq<byte>, pos: nat, c: int)
    requires pos + 1 < |tb| && tb[pos] >= 128 && tb[pos] - 128 == c && tb[pos + 1] != FAIL_CHAR
    ensures Decode(tb, pos, c) == At(pos + 1)
  {}

  lemma DecodeJump(tb: seq<byte>, pos: nat, c: int, j: int)
    requires pos + 2 < |tb| && FAIL_CHAR <= tb[pos] < 128 && tb[pos] == c
    requires 0 <= j <= 0xffff && tb[pos + 1] == j % 256 && tb[pos + 2] == j / 256 % 256
    ensures Decode(tb, pos, c) == At(pos + j)
  {}

  lemma BeforeEdge(t: Trie, words: seq<seq<byte>>, n: nat, k: nat)
    requires Built(t, words) && n < |t| && k < |t[n]| && t[n][k].state != 0
    ensures 0 < t[n][k].state < |t| && t[n][0].state != 0 && EntryPos(t, n, 0) == RealPos(t, n)
    ensures forall i :: 0 <= i < k ==> t[n][i].c != t[n][k].c
  {
    assert EdgeOk(t, n, k) && EdgeOk(t, n, 0) && Distinct(t[n]);
  }

  lemma DecodeOneByteEdge(t: Trie, words: seq<seq<byte>>, n: nat, k: nat)
    requires Built(t, words) && Targets(t)
    requires n < |t| && k < |t[n]| && 0 < t[n][k].state < |t| && OneByte(t, n, k)
    ensures Decode(Table(t), EntryPos(t, n, k), t[n][k].c) == At(RealPos(t, t[n][k].state))
  {
    hide Built, Targets, Table, EntryPos, RealPos, OneByte;
    OneByteBranch(t, words, n, k);
    FirstByte(t, words, t[n][k].state);
    DecodeOneByte(Table(t), EntryPos(t, n, k), t[n][k].c);
  }

  lemma JumpLands(t: Trie, n: nat, k: nat)
    requires n < |t| && k < |t[n]| && 0 < t[n][k].state < |t| && !OneByte(t, n, k) && AllJumpsFit(t)
    ensures Jump(t, n, k) <= 0xffff && EntryPos(t, n, k) + Jump(t, n, k) == RealPos(t, t[n][k].state)
  {
    FitsEach(t, n, |t|);
    assert JumpFits(t, n, k);
  }

  lemma DecodeJumpEdge(t: Trie, words: seq<seq<byte>>, n: nat, k: nat)
    requires Built(t, words) && Targets(t) && AllJumpsFit(t)
    requires n < |t| && k < |t[n]| && 0 < t[n][k].state < |t| && !OneByte(t, n, k)
    ensures Decode(Table(t), EntryPos(t, n, k), t[n][k].c) == At(RealPos(t, t[n][k].state))
  {
    hide Built, Targets, Table, EntryPos, RealPos, OneByte, Jump, AllJumpsFit, Decode;
    JumpBranch(t, words, n, k);
    JumpLands(t, n, k);
    DecodeJump(Table(t), EntryPos(t, n, k), t[n][k].c, Jump(t, n, k));
  }

  /** The heart of the compiler: decoding the character of an edge lands on the edge's target. */
  lemma DecodeEdge(t: Trie, words: seq<seq<byte>>, n: nat, k: nat)
    requires Built(t, words) && Targets(t) && AllJumpsFit(t)
    requires n < |t| && k < |t[n]| && t[n][k].state != 0
    ensures Decode(Table(t), RealPos(t, n), t[n][k].c) == At(RealPos(t, t[n][k].state))
  {
    hide Built, Targets, Table, EntryPos, RealPos, OneByte, AllJumpsFit, Decode;
    BeforeEdge(t, words, n, k);
    SkipEntries(t, words, n, 0, k, t[n][k].c);
    if OneByte(t, n, k) { DecodeOneByteEdge(t, words, n, k); } else { DecodeJumpEdge(t, words, n, k); }
  }

  lemma {:induction false} EntriesGrow(t: Trie, n: nat, a: nat, b: nat)
    requires n < |t| && a <= b <= |t[n]|
    ensures EntriesSize(t, n, a) <= EntriesSize(t, n, b)
  {
    if a < b { EntriesGrow(t, n, a, b - 1); }
  }

  /** What the table yields when the characters s lead from state n to the terminal w. */
  lemma {:induction false} FeedWord(t: Trie, words: seq<seq<byte>>, n: nat, s: seq<byte>)
    requires Built(t, words) && Targets(t) && AllJumpsFit(t)
    requires n < |t| && s != [] && Go(t, n, s) >= 0
    ensures var w := Go(t, n, s); w < |t| && (Leaf(t[w]) ==>
      Feed(Table(t), RealPos(t, n), s) == if t[w][0].c < 0 then Unfinished(RealPos(t, w)) else Marker(t[w][0].c, 0))
    decreases |s|
  {
    hide Table, TableBytes, StateBytes, EntryBytes, BytePos, RealPos, Decode, StatesFit;
    var v := Child(t[n], s[0]);
    var k := ChildFound(t[n], s[0]);
    assert EdgeOk(t, n, k);
    DecodeEdge(t, words, n, k);
    FirstByte(t, words, v);
    if s[1..] == [] {
      assert t[v] != [] && EdgeOk(t, v, 0);
      assert Feed(Table(t), RealPos(t, v), s[1..]) == Unfinished(RealPos(t, v));
    } else {
      FeedWord(t, words, v, s[1..]);
      var k' := ChildFound(t[v], s[1]);
      assert EdgeOk(t, v, k') && EdgeOk(t, v, 0);
      assert t[v][0].state != 0;
    }
  }

  lemma TargetsOfBuilt(t: Trie, words: seq<seq<byte>>)
    requires Built(t, words)
    ensures Targets(t)
  {
    forall n, k | 0 <= n < |t| && 0 <= k < |t[n]| ensures t[n][k].state < |t| { assert EdgeOk(t, n, k); }
  }

  // ------------------------------------------------------------- what the table means

  /**
    Every string of the set is recognised, at its last character, with its own index,
    exactly when that index survives being stored in a char.
  */
  lemma MembersDecode(t: Trie, words: seq<seq<byte>>, i: nat)
    requires Built(t, words) && Targets(t) && AllJumpsFit(t) && i < |words| && words[i] != []
    ensures Feed(Table(t), 0, words[i]) == Marker(i, 0) <==> i < 128
    ensures Feed(Table(t), 0, words[i]).Unfinished?
      || (Feed(Table(t), 0, words[i]).Marker? && Feed(Table(t), 0, words[i]).left == 0)
  {
    assert Holds(t, words, i);
    FeedWord(t, words, 0, words[i]);
  }

  function ToLower(c: int): int { if 65 <= c <= 90 then c + 32 else c }

  function Lowered(s: seq<int>): seq<int> { seq(|s|, k requires 0 <= k < |s| => ToLower(s[k])) }

  /** The NAME_PART state of the request parser: the same walk, folding case first. */
  function FeedFolded(tb: seq<byte>, pos: nat, s: seq<int>): Outcome
    decreases |s|
  {
    if s == [] then Unfinished(pos)
    else match Decode(tb, pos, ToLower(s[0]))
      case Fail => Rejected
      case Overrun => Overran
      case At(q) =>
        if q >= |tb| then Overran
        else if tb[q] >= FAIL_CHAR then FeedFolded(tb, q, s[1..])
        else if q + 1 >= |tb| then Overran
        else Marker(tb[q] as int * 256 + tb[q + 1] as int, |s| - 1)
  }

  lemma {:induction false} FoldedIsLowered(tb: seq<byte>, pos: nat, s: seq<int>)
    ensures FeedFolded(tb, pos, s) == Feed(tb, pos, Lowered(s))
    decreases |s|
  {
    if s != [] {
      assert Lowered(s)[1..] == Lowered(s[1..]);
      match Decode(tb, pos, ToLower(s[0])) {
        case At(q) => FoldedIsLowered(tb, q, s[1..]);
        case _ =>
      }
    }
  }

  /** The same characters, but for capitals where w has the small letter, 32 codes on. */
  predicate AnyCase(s: seq<int>, w: seq<int>) {
    |s| == |w| && forall k :: 0 <= k < |s| ==>
      s[k] == w[k] || (97 <= w[k] <= 122 && s[k] == w[k] - 32)
  }

  predicate NoCapitals(w: seq<int>) { forall k :: 0 <= k < |w| ==> !(65 <= w[k] <= 90) }

  /** Folding case undoes any mix of cases of a text without capitals, and nothing else. */
  lemma LoweredExactly(s: seq<int>, w: seq<int>)
    requires NoCapitals(w)
    ensures Lowered(s) == w <==> AnyCase(s, w)
  {
    if Lowered(s) == w {
      forall k | 0 <= k < |s| ensures s[k] == w[k] || (97 <= w[k] <= 122 && s[k] == w[k] - 32) {
        assert Lowered(s)[k] == ToLower(s[k]);
      }
    }
    if AnyCase(s, w) {
      forall k | 0 <= k < |s| ensures Lowered(s)[k] == w[k] {}
    }
  }

  /** A header name in any mix of cases is recognised as its lower-case entry. */
  lemma HeaderNamesDecode(t: Trie, words: seq<seq<byte>>, i: nat, s: seq<int>)
    requires Built(t, words) && Targets(t) && AllJumpsFit(t) && i < |words| && words[i] != []
    requires NoCapitals(words[i]) && AnyCase(s, words[i])
    ensures FeedFolded(Table(t), 0, s) == Marker(i, 0) <==> i < 128
  {
    LoweredExactly(s, words[i]);
    FoldedIsLowered(Table(t), 0, s);
    MembersDecode(t, words, i);
  }

  /**
    What happens to a character no branch of state n carries: a single branch rejects it; a
    state with more of them ends in the fail byte, which does not stop the walk, and that
    resumes two bytes into the next state.
  */
  lemma MismatchExactly(t: Trie, words: seq<seq<byte>>, n: nat, c: int)
    requires Built(t, words) && Targets(t) && n < |t| && t[n] != [] && t[n][0].state != 0 && c != FAIL_CHAR
    requires Child(t[n], c) == 0
    ensures Decode(Table(t), RealPos(t, n), c)
      == if |t[n]| == 1 then Fail else Decode(Table(t), RealPos(t, n + 1) + 2, c)
  {
    var tb, last := Table(t), |t[n]| - 1;
    assert EdgeOk(t, n, 0) && EdgeOk(t, n, last);
    forall k | 0 <= k < |t[n]| ensures t[n][k].state != 0 { assert EdgeOk(t, n, k); }
    forall k | 0 <= k < |t[n]| ensures t[n][k].c != c { Unmatched(t[n], c, k); }
    SkipEntries(t, words, n, 0, last, c);
    LastOneByteIff(t, words, n);
    if OneByte(t, n, last) {
      OneByteBranch(t, words, n, last);
    } else {
      JumpBranch(t, words, n, last);
      DecodeSkip(tb, EntryPos(t, n, last), c);
      DecodeSkip(tb, EntryPos(t, n, last) + 3, c);
    }
  }

  /**
    The 1-byte form ends exactly the states with a single branch, since only a state's first child
    comes right behind it.
  */
  lemma LastOneByteIff(t: Trie, words: seq<seq<byte>>, n: nat)
    requires Built(t, words) && n < |t| && t[n] != [] && t[n][0].state != 0
    ensures OneByte(t, n, |t[n]| - 1) <==> |t[n]| == 1
  {
    assert EdgeOk(t, n, |t[n]| - 1);
    OneByteIff(t, words, n, |t[n]| - 1);
  }

  /**
    A state rejects a character exactly when no branch carries it and the state has a single
    branch or the walk resumed in the next state rejects it.
  */
  lemma RejectsExactly(t: Trie, words: seq<seq<byte>>, n: nat, c: int)
    requires Built(t, words) && Targets(t) && AllJumpsFit(t)
    requires n < |t| && t[n] != [] && t[n][0].state != 0 && c != FAIL_CHAR
    ensures Decode(Table(t), RealPos(t, n), c) == Fail <==>
      Child(t[n], c) == 0 && (|t[n]| == 1 || Decode(Table(t), RealPos(t, n + 1) + 2, c) == Fail)
  {
    hide Table, RealPos, OneByte, Decode, StatesFit;
    if Child(t[n], c) == 0 { MismatchExactly(t, words, n, c); }
    else {
      var k := ChildFound(t[n], c);
      DecodeEdge(t, words, n, k);
    }
  }

  /** As long as a name follows the trie, the table follows it too. */
  lemma {:induction false} FeedFollows(t: Trie, words: seq<seq<byte>>, n: nat, s: seq<byte>, k: nat)
    requires Built(t, words) && Targets(t) && AllJumpsFit(t) && n < |t| && k <= |s|
    requires 0 <= Go(t, n, s[..k]) < |t| && !Leaf(t[Go(t, n, s[..k])])
    ensures Feed(Table(t), RealPos(t, n), s) == Feed(Table(t), RealPos(t, Go(t, n, s[..k])), s[k..])
    decreases k
  {
    hide Table, TableBytes, StateBytes, EntryBytes, BytePos, RealPos, Decode, StatesFit;
    if k > 0 {
      assert s[..k][1..] == s[1..][..k - 1] && s[1..][k - 1..] == s[k..];
      var v := Child(t[n], s[0]);
      var j := ChildFound(t[n], s[0]);
      assert EdgeOk(t, n, j);
      DecodeEdge(t, words, n, j);
      FirstByte(t, words, v);
      PathNotLeaf(t, words, v, s[1..][..k - 1]);
      FeedFollows(t, words, v, s[1..], k - 1);
    }
  }

  lemma PathNotLeaf(t: Trie, words: seq<seq<byte>>, v: nat, s: seq<byte>)
    requires Built(t, words) && 0 < v < |t| && 0 <= Go(t, v, s) < |t| && !Leaf(t[Go(t, v, s)])
    ensures t[v] != [] && t[v][0].state != 0
  {
    assert EdgeOk(t, v, 0);
    if s != [] {
      var k := ChildFound(t[v], s[0]);
      assert EdgeOk(t, v, k);
    }
  }

  /** The name follows the trie for k characters and leaves it, unmatched, at state w. */
  ghost predicate Leaves(t: Trie, s: seq<byte>, k: nat, w: nat) {
    && k < |s| && w < |t| && Go(t, 0, s[..k]) == w && t[w] != [] && t[w][0].state != 0
    && Child(t[w], s[k]) == 0 && s[k] != FAIL_CHAR
  }

  /**
    What becomes of every name that leaves the trie: rejected on the spot where a single
    branch was left, and else read on from two bytes into the next state.
  */
  lemma LeaverExactly(t: Trie, words: seq<seq<byte>>, s: seq<byte>, k: nat, w: nat)
    requires Built(t, words) && Targets(t) && AllJumpsFit(t) && Leaves(t, s, k, w)
    ensures Feed(Table(t), 0, s) == if |t[w]| == 1 then Rejected else Feed(Table(t), RealPos(t, w + 1) + 2, s[k..])
  {
    hide Table, OneByte, Decode, StatesFit, Leaf;
    assert !Leaf(t[w]) by { InnerNotLeaf(t[w]); }
    FeedFollows(t, words, 0, s, k);
    MismatchExactly(t, words, w, s[k]);
  }

  lemma InnerNotLeaf(edges: seq<Edge>)
    requires edges != [] && edges[0].state != 0
    ensures !Leaf(edges)
  {}

  /** How far a name follows the trie: to its own end, to a terminal, or to a state with no branch for it. */
  lemma {:induction false} FollowsTo(t: Trie, words: seq<seq<byte>>, n: nat, s: seq<byte>) returns (k: nat, w: nat)
    requires Built(t, words) && n < |t| && t[n] != [] && t[n][0].state != 0
    ensures k <= |s| && w < |t| && Go(t, n, s[..k]) == w && t[w] != [] && (Leaf(t[w]) <==> t[w][0].state == 0)
    ensures k == |s| || Leaf(t[w]) || Child(t[w], s[k]) == 0
    ensures Leaf(t[w]) ==> k > 0 && 0 <= Go(t, n, s[..k - 1]) < |t| && !Leaf(t[Go(t, n, s[..k - 1])])
    ensures k > 0 ==> 0 <= Go(t, n, s[..k - 1]) < |t| && Child(t[Go(t, n, s[..k - 1])], s[k - 1]) == w
    decreases |s|
  {
    k, w := 0, n;
    InnerNotLeaf(t[n]);
    if s != [] && Child(t[n], s[0]) != 0 {
      var j := ChildFound(t[n], s[0]);
      var v := Child(t[n], s[0]);
      assert EdgeOk(t, n, j) && t[v] != [] && EdgeOk(t, v, 0);
      assert s[..1][1..] == [];
      if t[v][0].state == 0 {
        k, w := 1, v;
        assert s[..0] == [];
      } else {
        k, w := FollowsTo(t, words, v, s[1..]);
        assert s[..k + 1][1..] == s[1..][..k];
        if k > 0 { assert s[..k][1..] == s[1..][..k - 1]; }
        k := k + 1;
      }
    }
  }

  /**
    The table on every name, for a set whose indices fit: a terminal reached is reported with
    its index and what is left of the name, a name that ends early is unfinished, and a name
    that leaves the trie is rejected exactly at a single branch, or else read on elsewhere.
  */
  lemma FeedExactly(t: Trie, words: seq<seq<byte>>, s: seq<byte>) returns (k: nat, w: nat)
    requires Built(t, words) && Targets(t) && AllJumpsFit(t) && |t| > 1 && t[0][0].state != 0
    requires forall n :: 0 <= n < |t| && Leaf(t[n]) ==> t[n][0].c >= 0
    requires FAIL_CHAR !in s
    ensures k <= |s| && w < |t| && Go(t, 0, s[..k]) == w
    ensures Feed(Table(t), 0, s) ==
      if Leaf(t[w]) then Marker(t[w][0].c, |s| - k)
      else if k == |s| then Unfinished(RealPos(t, w))
      else if |t[w]| == 1 then Rejected
      else Feed(Table(t), RealPos(t, w + 1) + 2, s[k..])
  {
    hide Table, RealPos, Decode, StatesFit;
    k, w := FollowsTo(t, words, 0, s);
    RootPos(t);
    if Leaf(t[w]) {
      TerminalReached(t, words, s, k, w);
    } else if k == |s| {
      FeedFollows(t, words, 0, s, k);
    } else {
      LeaverExactly(t, words, s, k, w);
    }
  }

  lemma RootPos(t: Trie)
    ensures RealPos(t, 0) == 0
  {}

  lemma TerminalReached(t: Trie, words: seq<seq<byte>>, s: seq<byte>, k: nat, w: nat)
    requires Built(t, words) && Targets(t) && AllJumpsFit(t) && 0 < k <= |s| && w < |t|
    requires 0 <= Go(t, 0, s[..k - 1]) < |t| && !Leaf(t[Go(t, 0, s[..k - 1])])
      && Child(t[Go(t, 0, s[..k - 1])], s[k - 1]) == w
    requires w > 0 && Leaf(t[w]) && t[w][0].c >= 0
    ensures Feed(Table(t), 0, s) == Marker(t[w][0].c, |s| - k)
  {
    var u := Go(t, 0, s[..k - 1]);
    var j := ChildFound(t[u], s[k - 1]);
    hide *;
    RootPos(t);
    FeedFollows(t, words, 0, s, k - 1);
    DecodeEdge(t, words, u, j);
    LeafBytes(t, words, w);
    assert s[k - 1..][0] == s[k - 1];
    FeedToMarker(Table(t), RealPos(t, u), s[k - 1..], RealPos(t, w));
  }

  lemma LeafBytes(t: Trie, words: seq<seq<byte>>, w: nat)
    requires Built(t, words) && Targets(t) && 0 < w < |t| && Leaf(t[w]) && t[w][0].c >= 0
    ensures var pos := RealPos(t, w); pos + 1 < |Table(t)| && Table(t)[pos] == 0 && Table(t)[pos + 1] == t[w][0].c
  {
    hide Table, RealPos;
    FirstByte(t, words, w);
    assert EdgeOk(t, w, 0);
  }

  lemma FeedToMarker(tb: seq<byte>, pos: nat, s: seq<byte>, q: nat)
    requires s != [] && Decode(tb, pos, s[0]) == At(q) && q + 1 < |tb| && tb[q] == 0
    ensures Feed(tb, pos, s) == Marker(tb[q + 1] as int, |s| - 1)
  {}

  /**
    Where a string ends one character behind a branching state w, a name leaving the trie at
    w is read on as if it stood in the state after that end.
  */
  lemma LeaverBehindLeaf(t: Trie, words: seq<seq<byte>>, s: seq<byte>, k: nat, w: nat)
    requires Built(t, words) && Targets(t) && AllJumpsFit(t) && Leaves(t, s, k, w)
    requires |t[w]| > 1 && Leaf(t[w + 1])
    ensures w + 2 < |t| && Feed(Table(t), 0, s) == Feed(Table(t), RealPos(t, w + 2), s[k..])
  {
    LeaverExactly(t, words, s, k, w);
    assert EdgeOk(t, w, 1) && t[w][1].state > w + 1;
    assert EntriesSize(t, w + 1, 1) == 2;
  }

  /** If a second string ends there, it is found in place of the unknown name. */
  lemma LeaverTakenForNeighbour(t: Trie, words: seq<seq<byte>>, s: seq<byte>, k: nat, w: nat)
    requires Built(t, words) && Targets(t) && AllJumpsFit(t) && Leaves(t, s, k, w)
    requires |t[w]| > 1 && w + 2 < |t| && Leaf(t[w + 1]) && Leaf(t[w + 2]) && t[w + 2][0].c >= 0
    ensures Feed(Table(t), 0, s) == Marker(t[w + 2][0].c, |s| - k - 1)
  {
    hide Feed, Decode, Table, OneByte, RealPos, Built;
    LeaverBehindLeaf(t, words, s, k, w);
    LeafBytes(t, words, w + 2);
    FeedAtMarker(Table(t), RealPos(t, w + 2), s[k..]);
  }

  lemma FeedAtMarker(tb: seq<byte>, pos: nat, s: seq<byte>)
    requires s != [] && pos + 1 < |tb| && tb[pos] < FAIL_CHAR
    ensures Feed(tb, pos, s) == Marker(tb[pos] as int * 256 + tb[pos + 1] as int, |s| - 1)
  {}

  lemma {:induction false} Unmatched(edges: seq<Edge>, c: int, k: nat)
    requires k < |edges| && Child(edges, c) == 0 && forall j :: 0 <= j < |edges| ==> edges[j].state != 0
    ensures edges[k].c != c
  {
    if k > 0 { Unmatched(edges[1..], c, k - 1); }
  }

  function AbAc(): seq<seq<byte>> { [[97, 98], [97, 99]] }

  function AbAcTrie(): Trie { [[Edge(97, 1)], [Edge(98, 2), Edge(99, 3)], [Edge(0, 0)], [Edge(1, 0)]] }

  lemma AbAcHolds()
    ensures Holds(AbAcTrie(), AbAc(), 0) && Holds(AbAcTrie(), AbAc(), 1)
  {
    var words, t := AbAc(), AbAcTrie();
    assert t[1][1..] == [Edge(99, 3)] && Child(t[1][1..], 99) == 3;
    assert words[0][1..] == [98] && words[1][1..] == [99] && [98 as byte][1..] == [] && [99 as byte][1..] == [];
    assert Go(t, 1, [98]) == 2 && Go(t, 1, [99]) == 3;
  }

  lemma AbAcBuilt()
    ensures Built(AbAcTrie(), AbAc()) && Targets(AbAcTrie())
  {
    hide Holds;
    var t := AbAcTrie();
    AbAcHolds();
    assert Slots(t, 1) == 1 && Slots(t, 2) == 3 && Slots(t, 3) == 4 && Slots(t, 4) == 5;
  }

  lemma AbAcPlaces()
    ensures RealPos(AbAcTrie(), 0) == 0 && RealPos(AbAcTrie(), 1) == 1
    ensures RealPos(AbAcTrie(), 2) == 8 && RealPos(AbAcTrie(), 3) == 10
    ensures !OneByte(AbAcTrie(), 1, 1) && AllJumpsFit(AbAcTrie())
  {
    var t := AbAcTrie();
    assert BytePos(t, 0) == 0 && BytePos(t, 1) == 2 && BytePos(t, 2) == 6 && BytePos(t, 3) == 8;
    assert EntriesSize(t, 0, 1) == 1 && EntriesSize(t, 1, 1) == 3 && EntriesSize(t, 1, 2) == 7
      && EntriesSize(t, 2, 1) == 2;
    assert StatesFit(t, 1) && StatesFit(t, 2) && StatesFit(t, 3) && StatesFit(t, 4);
  }

  /** The table of the two strings, byte by byte. */
  lemma AbAcTable()
    ensures Targets(AbAcTrie())
    ensures Table(AbAcTrie()) == [0xe1, 0x62, 7, 0, 0x63, 6, 0, FAIL_CHAR, 0, 0, 0, 1]
  {
    var t := AbAcTrie();
    AbAcBuilt();
    AbAcPlaces();
    AbAcEntries();
    assert StateBytes(t, 1, 2) == StateBytes(t, 1, 1) + [0x63, 6, 0, FAIL_CHAR]
      && StateBytes(t, 1, 1) == [] + [0x62, 7, 0];
    assert StateBytes(t, 0, 1) == [] + [0xe1] && StateBytes(t, 2, 1) == [] + [0, 0]
      && StateBytes(t, 3, 1) == [] + [0, 1];
    hide StateBytes, EntryBytes, RealPos, AbAcTrie;
    assert TableBytes(t, 1) == [] + [0xe1];
    assert TableBytes(t, 2) == TableBytes(t, 1) + StateBytes(t, 1, 2);
    assert TableBytes(t, 3) == TableBytes(t, 2) + [0, 0];
    assert TableBytes(t, 4) == TableBytes(t, 3) + [0, 1];
  }

  lemma AbAcEntries()
    ensures var t := AbAcTrie();
      && EntryBytes(t, 0, 0) == [0xe1] && EntryBytes(t, 1, 0) == [0x62, 7, 0]
      && EntryBytes(t, 1, 1) == [0x63, 6, 0, FAIL_CHAR] && EntryBytes(t, 2, 0) == [0, 0]
        && EntryBytes(t, 3, 0) == [0, 1]
  {
    var t := AbAcTrie();
    AbAcPlaces();
    assert BytePos(t, 0) == 0 && BytePos(t, 1) == 2 && BytePos(t, 2) == 6 && BytePos(t, 3) == 8;
    assert EntriesSize(t, 1, 1) == 3 && EntriesSize(t, 1, 0) == 0;
    assert Jump(t, 1, 0) == 7 && Jump(t, 1, 1) == 6;
  }

  /**
    The comment in minilex.c calls 0x08 the fail code, yet the set {"ab", "ac"} compiles to
    a table in which "a" and any other character is taken for "ac".
  */
  lemma UnknownNameAccepted(x: byte)
    requires x != 98 && x != 99 && x != FAIL_CHAR
    ensures Built(AbAcTrie(), AbAc()) && Targets(AbAcTrie()) && AllJumpsFit(AbAcTrie()) && [97, x] !in AbAc()
    ensures Feed(Table(AbAcTrie()), 0, [97, x]) == Marker(1, 0)
  {
    var words, t, s := AbAc(), AbAcTrie(), [97, x];
    AbAcBuilt();
    AbAcPlaces();
    var second := [Edge(99, 3)];
    assert second[1..] == [] && Child(second, x) == 0;
    assert t[1][1..] == second && Child(t[1], x) == 0;
    assert s[..1] == [97] && [97 as byte][1..] == [];
    assert Go(t, 0, s[..1]) == Go(t, 1, []) == 1;
    LeaverTakenForNeighbour(t, words, s, 1, 1);
  }
}
