/**
  The generator program itself (main of minilex.c), over its global state array.
*/
module MinilexProgram {
  import opened Bytes
  import opened LexTrie
  import opened LexTable

  // ------------------------------------------------------------- the generator

  /** The result of main: 0, or the exit code of the failing stage. */
  const OK := 0
  const JUMP_TOO_FAR := 1
  const TERMINAL_TOO_BIG := 2
  const DECODE_FAILED := 3
  const WRONG_INDEX := 4

  /** Leaving an array, which is undefined in C. */
  const OUT_OF_BOUNDS := -1

  /** What "try to parse every legal input string" makes of one string and a table. */
  function TryCode(tb: seq<byte>, s: seq<byte>, i: nat): int {
    match Feed(tb, 0, s)
    case Overran => OUT_OF_BOUNDS
    case Rejected => DECODE_FAILED
    case Marker(y, _) => if y == i then OK else WRONG_INDEX
    case Unfinished(_) => WRONG_INDEX
  }

  /** The self check from string i on. */
  function CheckCode(tb: seq<byte>, words: seq<seq<byte>>, i: nat): int
    requires i <= |words|
    decreases |words| - i
  {
    if i == |words| then OK
    else if words[i] != [] && TryCode(tb, words[i], i) != OK then TryCode(tb, words[i], i)
    else CheckCode(tb, words, i + 1)
  }

  /** On a table made for the same strings the self check passes exactly when every index fits a char. */
  lemma {:induction false} CheckedExactly(t: Trie, words: seq<seq<byte>>, i: nat)
    requires Built(t, words) && Targets(t) && |t| <= MAX_STATES && i <= |words|
    ensures CheckCode(Table(t), words, i) ==
      if forall k :: i <= k < |words| && words[k] != [] ==> k < 128 then OK else WRONG_INDEX
    decreases |words| - i
  {
    hide Built, Targets, Table, Feed, Holds;
    if i < |words| {
      GrownOfBuilt(t, words);
      JumpsFit(t, |t|);
      if words[i] != [] { MembersDecode(t, words, i); }
      CheckedExactly(t, words, i + 1);
    }
  }

  lemma GrownOfBuilt(t: Trie, words: seq<seq<byte>>)
    requires Built(t, words)
    ensures Grown(t)
  {}

  class Minilex {
    const words: seq<seq<byte>>
    const lextable: seq<byte>   // lextable.h as it was when the generator was compiled
    const state: array<seq<Edge>>
    const bytepos: array<int>
    const realPos: array<int>
    var next: nat
    var output: seq<byte>       // the lextable.h it writes

    constructor (words: seq<seq<byte>>, lextable: seq<byte>)
      ensures this.words == words && this.lextable == lextable && Valid() && Fresh()
      ensures fresh(state) && fresh(bytepos) && fresh(realPos)
    {
      this.words := words;
      this.lextable := lextable;
      state := new seq<Edge>[MAX_STATES](_ => []);
      bytepos := new int[MAX_STATES](_ => 0);
      realPos := new int[MAX_STATES](_ => 0);
      next := 1;
      output := [];
    }

    ghost predicate Valid()
      reads this
    {
      && state.Length == bytepos.Length == realPos.Length == MAX_STATES
      && bytepos != realPos && 1 <= next <= MAX_STATES
    }

    /** No state has more branches than its arrays hold. */
    ghost predicate Narrow()
      reads this, state
      requires Valid()
    {
      forall v :: 0 <= v < next ==> |state[v]| <= PARALLEL
    }

    ghost predicate Fresh()
      reads this, state
    {
      next == 1 && forall v :: 0 <= v < state.Length ==> state[v] == []
    }

    ghost function Trie(): Trie
      reads this, state
      requires Valid()
    {
      state[..next]
    }

    /** The first branch of state walk for the character, and whether there is one. */
    method Lookup(walk: nat, c: byte) returns (saw: bool, target: nat)
      requires Valid() && walk < next
      requires forall k :: 0 <= k < |state[walk]| ==> state[walk][k].state != 0
      ensures saw <==> Child(state[walk], c) != 0
      ensures saw ==> target == Child(state[walk], c)
    {
      for y := 0 to |state[walk]|
        invariant forall k :: 0 <= k < y ==> state[walk][k].c != c
      {
        if state[walk][y].c == c {
          ChildIs(state[walk], c, y);
          return true, state[walk][y].state;
        }
      }
      ChildNone(state[walk], c);
      return false, 0;
    }

    ghost predicate Unused()
      reads this, state
      requires Valid()
    {
      forall v :: next <= v < MAX_STATES ==> state[v] == []
    }

    /** Claims the next free state as a new branch of state walk, if the arrays have room. */
    method NewChild(walk: nat, c: byte) returns (inBounds: bool)
      requires Valid() && Unused() && Narrow() && walk < next
      modifies this`next, state
      ensures Valid() && Unused() && Narrow()
      ensures inBounds == (old(next) < MAX_STATES && |old(state[walk])| < PARALLEL)
      ensures inBounds ==> next == old(next) + 1 && Trie() == AddChild(old(Trie()), walk, c)
    {
      if next == MAX_STATES || |state[walk]| == PARALLEL { return false; }
      state[walk] := state[walk] + [Edge(c, next)];
      next := next + 1;
      inBounds := true;
    }

    /** One character of string n: follow the branch there is, or claim a new state. */
    method Advance(n: nat, m: nat, walk: nat, ghost paths: seq<seq<byte>>, ghost owner: seq<nat>)
      returns (inBounds: bool, walk': nat, ghost paths': seq<seq<byte>>, ghost owner': seq<nat>)
      requires Valid() && Unused() && Narrow()
      requires Walking(Trie(), paths, owner, words, n, m, walk) && m < |words[n]|
      modifies this`next, state
      ensures Valid() && Unused() && Narrow() && (!inBounds ==> !Fits(words))
      ensures inBounds ==> Walking(Trie(), paths', owner', words, n, m + 1, walk')
    {
      hide Fits;
      ghost var t := Trie();
      TargetsAlive(t, paths, owner, words, n, m);
      var saw, target := Lookup(walk, words[n][m]);
      if saw {
        FollowChild(t, paths, owner, words, n, m, walk);
        return true, target, paths, owner;
      }
      RoomForChild(t, paths, owner, words, n, m);
      FreshChild(t, paths, owner, words, n, m, walk);
      walk' := next;
      inBounds := NewChild(walk, words[n][m]);
      paths', owner' := paths + [words[n][..m + 1]], owner + [n];
    }

    /** One string: place all its characters, then mark the last state with the string's index. */
    method InsertWord(n: nat, ghost paths: seq<seq<byte>>, ghost owner: seq<nat>)
      returns (inBounds: bool, ghost paths': seq<seq<byte>>, ghost owner': seq<nat>)
      requires Valid() && Unused() && Narrow() && n < |words| && words[n] != []
      requires Between(Trie(), paths, owner, words, n)
      modifies this`next, state
      ensures Valid() && Unused() && Narrow() && (!inBounds ==> !Fits(words))
      ensures inBounds ==> Between(Trie(), paths', owner', words, n + 1)
    {
      hide Fits;
      BetweenWords(Trie(), paths, owner, words, n);
      inBounds, paths', owner' := true, paths, owner;
      var m, walk: nat := 0, 0;
      while m < |words[n]|
        invariant Valid() && Unused() && Narrow() && m <= |words[n]|
        invariant Walking(Trie(), paths', owner', words, n, m, walk)
      {
        inBounds, walk, paths', owner' := Advance(n, m, walk, paths', owner');
        if !inBounds { return; }
        m := m + 1;
      }
      inBounds := true;
      assert words[n][..m] == words[n];
      ghost var t := Trie();
      MarkLeafKeeps(t, paths', owner', words, n, walk);
      state[walk] := [Edge(ToChar(n), 0)];
      assert Trie() == t[walk := [Edge(ToChar(n), 0)]];
    }

    /** Inserts every string of the set; leaves the fixed arrays exactly when the strings do not fit them. */
    method BuildTrie() returns (inBounds: bool)
      requires Valid() && Fresh() && Words(words)
      modifies this`next, state
      ensures Valid() && inBounds == Fits(words)
      ensures inBounds ==> Built(Trie(), words)
    {
      hide Fits;
      ghost var paths: seq<seq<byte>>, owner: seq<nat> := [[]], [0];
      assert Trie() == [[]];
      NothingInserted(words);
      var n := 0;
      while n < |words|
        invariant Valid() && Unused() && Narrow() && n <= |words|
        invariant Between(Trie(), paths, owner, words, n)
      {
        if words[n] == [] {
          SkipEmptyWord(Trie(), paths, owner, words, n);
        } else {
          inBounds, paths, owner := InsertWord(n, paths, owner);
          if !inBounds { return; }
        }
        n := n + 1;
      }
      inBounds := true;
      InsertedIsBuilt(Trie(), paths, owner, words);
      BuiltFits(Trie(), paths, owner, words);
    }

    /** Two counted slots per branch, in state order. */
    method AssignBytePositions()
      requires Valid()
      modifies bytepos
      ensures forall n :: 0 <= n < next ==> bytepos[n] == BytePos(Trie(), n)
    {
      ghost var t := Trie();
      var walk := 0;
      for n := 0 to next
        invariant Trie() == t && walk == BytePos(t, n)
        invariant forall k :: 0 <= k < n ==> bytepos[k] == BytePos(t, k)
      {
        bytepos[n] := walk;
        walk := walk + 2 * |state[n]|;
      }
    }

    /** Where each state will start in the table. */
    method AssignRealPositions()
      requires Valid() && Targets(Trie())
      requires forall n :: 0 <= n < next ==> bytepos[n] == BytePos(Trie(), n)
      modifies realPos
      ensures forall n :: 0 <= n < next ==> realPos[n] == RealPos(Trie(), n)
    {
      ghost var t := Trie();
      var pos, walk := 0, 0;
      for n := 0 to next
        invariant walk == BytePos(t, n) && pos == RealPos(t, n)
        invariant forall k :: 0 <= k < n ==> realPos[k] == RealPos(t, k)
      {
        realPos[n] := pos;
        for m := 0 to |state[n]|
          invariant walk == BytePos(t, n) + 2 * m && pos == EntryPos(t, n, m)
        {
          var saw := state[n][m].state;
          assert t[n] == state[n] && bytepos[saw] == BytePos(t, saw);
          if saw == 0 {
            pos := pos + 2;
          } else if bytepos[saw] - walk == 2 {
            pos := pos + 1;
          } else {
            pos := pos + 3;
            if m == |state[n]| - 1 { pos := pos + 1; }
          }
          walk := walk + 2;
        }
      }
    }

    ghost predicate Positioned()
      reads this, state, bytepos, realPos
    {
      Valid() && forall n :: 0 <= n < next ==> bytepos[n] == BytePos(Trie(), n) && realPos[n] == RealPos(Trie(), n)
    }

    /** Appends the bytes of one branch, or reports why it cannot be expressed. */
    method EmitEntry(ghost t: Trie, n: nat, m: nat, pos: nat, walk: nat) returns (code: int, size: int)
      requires Positioned() && t == Trie() && Built(t, words) && Targets(t)
      requires n < |t| && m < |t[n]| && pos == EntryPos(t, n, m) && walk == BytePos(t, n) + 2 * m
      modifies this`output
      ensures code == (if JumpFits(t, n, m) then OK else JUMP_TOO_FAR)
      ensures code == OK ==> output == old(output) + EntryBytes(t, n, m) && size == EntrySize(t, n, m)
    {
      var y, saw := state[n][m].c, state[n][m].state;
      assert EdgeOk(t, n, m);
      assert t[n] == state[n] && bytepos[saw] == BytePos(t, saw) && realPos[saw] == RealPos(t, saw);
      if saw == 0 {
        if y > 0x7ff { return TERMINAL_TOO_BIG, 0; }
        output := output + [if y < 0 then 255 else 0, y % 256];
        return OK, 2;
      }
      if bytepos[saw] - walk == 2 {
        output := output + [y % 128 + 128];
        return OK, 1;
      }
      var j := realPos[saw] - pos;
      if j > 0xffff { return JUMP_TOO_FAR, 0; }
      output := output + [y % 256, j % 256, j / 256 % 256];
      if m == |state[n]| - 1 {
        output := output + [FAIL_CHAR];
        return OK, 4;
      }
      return OK, 3;
    }

    /** Appends all branches of one state. */
    method EmitState(ghost t: Trie, n: nat, pos0: nat, walk0: nat) returns (code: int, pos: nat, walk: nat)
      requires Positioned() && t == Trie() && Built(t, words) && Targets(t)
      requires n < |t| && pos0 == RealPos(t, n) && walk0 == BytePos(t, n)
      modifies this`output
      ensures code == (if StateFits(t, n) then OK else JUMP_TOO_FAR)
      ensures code == OK ==> output == old(output) + StateBytes(t, n, |t[n]|)
      ensures code == OK ==> pos == RealPos(t, n + 1) && walk == BytePos(t, n + 1)
    {
      hide EntryBytes, EntrySize, OneByte, Jump, Built;
      assert t[n] == state[n];
      pos, walk := pos0, walk0;
      for m := 0 to |state[n]|
        invariant Positioned() && t == Trie() && walk == walk0 + 2 * m && pos == EntryPos(t, n, m)
        invariant output == old(output) + StateBytes(t, n, m)
        invariant forall m' :: 0 <= m' < m ==> JumpFits(t, n, m')
      {
        var size;
        code, size := EmitEntry(t, n, m, pos, walk);
        if code != OK { return; }
        assert output == old(output) + (StateBytes(t, n, m) + EntryBytes(t, n, m));
        pos, walk := pos + size, walk + 2;
      }
      return OK, pos, walk;
    }

    /** Emits the table, or stops with the exit code of a jump that does not fit. */
    method EmitTable() returns (code: int)
      requires Positioned() && Built(Trie(), words) && Targets(Trie())
      modifies this`output
      ensures code == (if AllJumpsFit(Trie()) then OK else JUMP_TOO_FAR)
      ensures code == OK ==> output == Table(Trie())
    {
      ghost var t := Trie();
      output := [];
      var walk: nat, pos: nat := 0, 0;
      for n := 0 to next
        invariant Trie() == t && walk == BytePos(t, n) && pos == RealPos(t, n) && output == TableBytes(t, n)
        invariant StatesFit(t, n)
      {
        code, pos, walk := EmitState(t, n, pos, walk);
        if code != OK {
          FitsAll(t, n + 1, |t|);
          return;
        }
      }
      return OK;
    }

    /** lextable_decode of minilex.c; leaving the table is undefined in C and shows as Overrun. */
    method LextableDecode(pos0: nat, c: int) returns (r: Found)
      ensures r == Decode(lextable, pos0, c)
    {
      var pos := pos0;
      while true
        invariant Decode(lextable, pos0, c) == Decode(lextable, pos, c)
        decreases |lextable| - pos
      {
        if pos >= |lextable| { return Overrun; }
        if lextable[pos] >= 128 {
          if lextable[pos] - 128 != c { return Fail; }
          pos := pos + 1;
          if pos >= |lextable| { return Overrun; }
          if lextable[pos] == FAIL_CHAR { return Fail; }
          return At(pos);
        }
        if lextable[pos] < FAIL_CHAR { return At(pos); }
        if lextable[pos] == c {
          if pos + 2 >= |lextable| { return Overrun; }
          return At(pos + lextable[pos + 1] as int + 256 * (lextable[pos + 2] as int));
        }
        pos := pos + 3;
      }
    }

    /** The walk of one string through the table main was compiled with; y is the index found, or -1. */
    method TryString(s: seq<byte>) returns (code: int, y: int)
      ensures code
        == match Feed(lextable, 0, s) case Overran => OUT_OF_BOUNDS case Rejected => DECODE_FAILED case _ => OK
      ensures code == OK ==> y == (match Feed(lextable, 0, s) case Marker(i, _) => i case _ => -1)
    {
      var m, walk: nat := 0, 0;
      y := -1;
      assert s[0..] == s;
      while m < |s|
        invariant m <= |s| && y == -1
        invariant Feed(lextable, 0, s) == Feed(lextable, walk, s[m..])
      {
        var r := LextableDecode(walk, s[m]);
        assert s[m..][1..] == s[m + 1..] && s[m..][0] == s[m];
        if r.Overrun? { return OUT_OF_BOUNDS, y; }
        if r.Fail? { return DECODE_FAILED, y; }
        walk := r.pos;
        if walk >= |lextable| { return OUT_OF_BOUNDS, y; }
        if lextable[walk] < FAIL_CHAR {
          if walk + 1 >= |lextable| { return OUT_OF_BOUNDS, y; }
          y := lextable[walk] as int * 256 + lextable[walk + 1] as int;
          return OK, y;
        }
        m := m + 1;
      }
      return OK, y;
    }

    /** "Try to parse every legal input string", with the table main was compiled with. */
    method SelfCheck() returns (code: int)
      ensures code == CheckCode(lextable, words, 0)
    {
      for n := 0 to |words|
        invariant CheckCode(lextable, words, 0) == CheckCode(lextable, words, n)
      {
        if words[n] == [] { continue; }
        var y;
        code, y := TryString(words[n]);
        if code != OK { return; }
        if y != n { return WRONG_INDEX; }
      }
      return OK;
    }

    /**
      main: leaves its arrays exactly when the strings do not fit them, and else writes the
      table of their trie.  Neither a jump of 64K nor a terminal too big can stop it; its exit
      code is the verdict of the self check on the table it was compiled with.
    */
    method Generate() returns (code: int)
      requires Valid() && Fresh() && Words(words)
      modifies this, state, bytepos, realPos
      ensures Valid() && code == (if Fits(words) then CheckCode(lextable, words, 0) else OUT_OF_BOUNDS)
      ensures Fits(words) ==> Built(Trie(), words) && Targets(Trie()) && output == Table(Trie())
    {
      var inBounds := BuildTrie();
      if !inBounds { return OUT_OF_BOUNDS; }
      ghost var t := Trie();
      TargetsOfBuilt(t, words);
      GrownOfBuilt(t, words);
      JumpsFit(t, |t|);
      AssignBytePositions();
      AssignRealPositions();
      code := EmitTable();
      assert code == OK;
      code := SelfCheck();
    }

    /** The same generator compiled with its own output: from the second run on it vouches for the table. */
    static method GenerateTwice(words: seq<seq<byte>>, oldTable: seq<byte>) returns (table: seq<byte>, code: int)
      requires Words(words) && Fits(words)
      ensures code == if forall i :: 0 <= i < |words| && words[i] != [] ==> i < 128 then OK else WRONG_INDEX
    {
      var first := new Minilex(words, oldTable);
      var ignored := first.Generate();
      table := first.output;
      CheckedExactly(first.Trie(), words, 0);
      var second := new Minilex(words, table);
      code := second.Generate();
    }
  }
}
