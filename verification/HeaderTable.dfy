/**
  struct allocated_headers and the parser fields of struct libwebsocket, with the
  functions of parsers.c that read and update them in place.
*/
module HeaderTable {
  import opened Bytes
  import opened HeaderStore

  const OUT_OF_BOUNDS := -2

  class Headers {
    var nextFragIndex: nat
    var pos: nat
    const fragIndex: array<byte>
    const frags: array<Frag>
    const data: array<byte>

    var parserState: State
    var ups: PathState
    var ues: EscState
    var escStash: byte

    ghost predicate Valid()
      reads this
    {
      && fragIndex.Length == TOKEN_COUNT && frags.Length == MAX_FRAGS && data.Length == MAX_HEADER_LEN
      && nextFragIndex < MAX_FRAGS && pos <= MAX_HEADER_LEN && fragIndex != data
    }

    ghost function St(): Store
      requires Valid()
      reads this, frags, data, fragIndex
    {
      Store(frags[..nextFragIndex + 1], data[..pos], fragIndex[..])
    }

    ghost function View(): Parser
      requires Valid()
      reads this, frags, data, fragIndex
    {
      Parser(parserState, ups, ues, escStash, St())
    }

    /** lws_allocate_header_table, ready for a request */
    constructor ()
      ensures Valid() && View() == START && fresh(fragIndex) && fresh(frags) && fresh(data)
    {
      nextFragIndex, pos := 0, 0;
      parserState, ups, ues, escStash := NamePart, PathIdle, EscIdle, 0;
      fragIndex := new byte[TOKEN_COUNT](_ => 0);
      frags := new Frag[MAX_FRAGS](_ => Frag(0, 0, 0));
      data := new byte[MAX_HEADER_LEN](_ => 0);
      new;
      assert fragIndex[..] == EMPTY_STORE.heads && frags[..1] == EMPTY_STORE.frags && data[..0] == EMPTY_STORE.data;
    }

    // ------------------------------------------------------------------ reading

    /** lws_hdr_total_length */
    method TotalLengthOf(h: nat) returns (len: nat)
      requires Valid() && Links(St()) && h < TOKEN_COUNT
      ensures len == HeaderLength(St(), h)
    {
      len := 0;
      var n := fragIndex[h];
      while n != 0
        invariant n < |St().frags| && len + TotalLength(St(), n) == HeaderLength(St(), h)
        decreases if n == 0 then 0 else MAX_FRAGS - n
      {
        len := len + frags[n].len;
        n := frags[n].next;
      }
    }

    /** strcpy from the data to dest[at..] */
    method StrCpy(dest: array<byte>, at: nat, from: nat, ghost len: nat)
      requires Valid() && from + len < pos && data[from + len] == 0 && dest != data && dest != fragIndex
      requires forall k :: from <= k < from + len ==> data[k] != 0
      requires at + len < dest.Length
      modifies dest
      ensures dest[..at] == old(dest[..at]) && dest[at..at + len] == data[from..from + len] && dest[at + len] == 0
    {
      var k := 0;
      while data[from + k] != 0
        invariant k <= len
        invariant dest[..at] == old(dest[..at]) && dest[at..at + k] == data[from..from + k]
        decreases len - k
      {
        dest[at + k] := data[from + k];
        k := k + 1;
      }
      dest[at + k] := 0;
      assert dest[at..at + len] == data[from..from + len];
    }

    method CopyPiece(dest: array<byte>, at: nat, n: nat)
      requires Valid() && 0 < n < |St().frags| && Solid(St(), n) && Terminated(St(), n)
      requires dest != data && dest != fragIndex && at + frags[n].len < dest.Length
      modifies dest
      ensures dest[..at + frags[n].len] == old(dest[..at]) + Piece(St(), n) && dest[at + frags[n].len] == 0
    {
      ghost var before, o, l := dest[..at], frags[n].offset, frags[n].len;
      StrCpy(dest, at, frags[n].offset, frags[n].len);
      assert Piece(St(), n) == data[..pos][o..o + l] == data[o..o + l];
      assert dest[..at + l] == dest[..at] + dest[at..at + l];
    }

    /** Its do-while over the chain. */
    method CopyChain(dest: array<byte>, head: nat, ghost st: Store)
      requires Valid() && st == St() && Readable(st) && 0 < head < |st.frags| && AllTerminated(st, head)
      requires TotalLength(st, head) < dest.Length && dest != data && dest != fragIndex
      modifies dest
      ensures dest[..TotalLength(st, head)] == Text(st, head) && dest[TotalLength(st, head)] == 0
    {
      hide Readable, Copying, Text, TotalLength, Piece;
      var n, at: nat := head, 0;
      CopyStarts(st, head);
      assert dest[..0] == [];
      while n != 0
        invariant n < |st.frags| && st == St() && at < dest.Length && (n != head ==> dest[at] == 0)
        invariant Copying(st, head, n, dest[..at])
        decreases if n == 0 then 0 else MAX_FRAGS - n
      {
        CopyStep(st, head, n, dest[..at]);
        CopyPiece(dest, at, n);
        at := at + frags[n].len;
        n := frags[n].next;
      }
      CopyEnds(st, head, dest[..at]);
    }

    /** lws_hdr_copy: fails exactly when the value and its NUL do not fit, else copies it whole. */
    method Copy(dest: array<byte>, len: int, h: nat) returns (toklen: int)
      requires Valid() && Links(St()) && AllSolid(St()) && h < TOKEN_COUNT && AllTerminated(St(), fragIndex[h])
      requires len <= dest.Length && dest != data && dest != fragIndex
      modifies dest
      ensures toklen == -1 <==> HeaderLength(St(), h) >= len
      ensures toklen == -1 || fragIndex[h] == 0 ==> dest[..] == old(dest[..])
      ensures toklen != -1 ==> toklen == HeaderLength(St(), h)
      ensures toklen != -1 && fragIndex[h] != 0 ==> dest[..toklen] == Text(St(), fragIndex[h]) && dest[toklen] == 0
    {
      toklen := TotalLengthOf(h);
      if toklen >= len { return -1; }
      if fragIndex[h] == 0 { return 0; }
      TextLength(St(), fragIndex[h]);
      CopyChain(dest, fragIndex[h], St());
    }

    // ------------------------------------------------------------------- filing

    /** issue_char */
    method IssueChar(c: byte) returns (ok: bool)
      requires Valid()
      modifies this`pos, frags, data
      ensures Valid() && ok == !Full(old(St())) && St() == (if ok then Put(old(St()), c) else old(St()))
    {
      if pos == data.Length { return false; }
      ghost var st := St();
      data[pos] := c;
      pos := pos + 1;
      assert data[..pos] == st.data + [c];
      if c != 0 { frags[nextFragIndex] := frags[nextFragIndex].(len := frags[nextFragIndex].len + 1); }
      assert frags[..nextFragIndex + 1] == Put(st, c).frags;
      return true;
    }

    method TakeCharBack()
      requires Valid() && 0 < frags[nextFragIndex].len <= pos
      modifies this`pos, frags
      ensures Valid() && St() == TakeBack(old(St())) && pos == old(pos) - 1
      ensures frags[nextFragIndex] == old(frags[nextFragIndex]).(len := old(frags[nextFragIndex].len) - 1)
    {
      ghost var st := St();
      pos := pos - 1;
      frags[nextFragIndex] := frags[nextFragIndex].(len := frags[nextFragIndex].len - 1);
      assert frags[..nextFragIndex + 1] == TakeBack(st).frags;
    }

    /** Backs up one directory, if there is one. */
    method BackUpPath()
      requires Valid() && frags[nextFragIndex].len <= pos
      modifies this`pos, frags
      ensures Valid() && St() == BackUp(old(St()))
    {
      hide TakeBack;
      if frags[nextFragIndex].len > 2 {
        TakeCharBack();
        ghost var goal := BackUpLoop(St());
        TakeCharBack();
        while frags[nextFragIndex].len > 1 && data[pos] != SLASH
          invariant Valid() && 0 < frags[nextFragIndex].len <= pos < data.Length
          invariant goal == if frags[nextFragIndex].len > 1 && data[pos] != SLASH then BackUpLoop(St()) else St()
          decreases pos
        {
          TakeCharBack();
        }
      }
    }

    /** The next fragment, empty, at the end of the data. */
    method OpenFragment()
      requires Valid() && nextFragIndex + 1 < MAX_FRAGS
      modifies this`nextFragIndex, frags
      ensures Valid() && St() == NewFrag(old(St())) && nextFragIndex == old(nextFragIndex) + 1
    {
      ghost var st := St();
      nextFragIndex := nextFragIndex + 1;
      frags[nextFragIndex] := Frag(pos, 0, 0);
      assert frags[..nextFragIndex + 1] == NewFrag(st).frags;
    }

    /** The question mark; without room for the terminator or the fragment the source writes past its tables. */
    method SealArgs() returns (inBounds: bool)
      requires Valid()
      modifies this`nextFragIndex, this`pos, frags, data, fragIndex
      ensures Valid() && inBounds == (old(|St().frags|) < MAX_FRAGS && !old(Full(St())))
      ensures inBounds ==> St() == StartArgs(old(St()))
    {
      if pos == MAX_HEADER_LEN || nextFragIndex + 1 == MAX_FRAGS { return false; }
      ghost var st := St();
      data[pos] := 0;
      pos := pos + 1;
      assert data[..pos] == st.data + [0];
      OpenFragment();
      fragIndex[URI_ARGS] := nextFragIndex;
      inBounds := true;
    }

    /** start_fragment */
    method StartFragmentOf(h: nat) returns (ok: bool)
      requires Valid() && Links(St()) && h < TOKEN_COUNT
      modifies this`nextFragIndex, this`pos, frags, data, fragIndex
      ensures Valid() && ok == old(StartFragment(St(), h)).Filed? && (ok ==> St() == old(StartFragment(St(), h)).st)
    {
      ghost var st := St();
      assert st.heads[h] < |st.frags|;
      hide Links;
      if nextFragIndex + 1 == MAX_FRAGS { return false; }
      OpenFragment();
      var n: nat := fragIndex[h];
      if n == 0 {
        fragIndex[h] := nextFragIndex;
        return true;
      }
      n := WalkToEnd(n, st);
      frags[n] := frags[n].(next := nextFragIndex);
      assert frags[..nextFragIndex + 1] == NewFrag(st).frags[n := NewFrag(st).frags[n].(next := |st.frags|)];
      ok := IssueChar(SPACE);
    }

    /** The last fragment of a chain. */
    method WalkToEnd(head: nat, ghost st: Store) returns (n: nat)
      requires Valid() && Links(st) && 0 < head < |st.frags| <= MAX_FRAGS
      requires forall i :: 0 <= i < |st.frags| ==> frags[i] == st.frags[i]
      ensures n == ChainEnd(st, head)
    {
      n := head;
      while frags[n].next != 0
        invariant 0 < n < |st.frags| && ChainEnd(st, n) == ChainEnd(st, head)
        decreases MAX_FRAGS - n
      {
        n := frags[n].next;
      }
    }

    /** lws_hdr_simple_create: stores a whole C string under h, or fails for want of room. */
    method SimpleCreate(h: nat, s: seq<byte>) returns (ret: int)
      requires Valid() && h < TOKEN_COUNT && 0 !in s
      modifies this`nextFragIndex, this`pos, frags, data, fragIndex
      ensures Valid() && (ret == 0 || ret == -1)
      ensures ret == 0 <==> old(|St().frags|) < MAX_FRAGS && old(pos) + |s| + 1 <= MAX_HEADER_LEN
      ensures ret == 0 ==> St() == Create(old(St()), h, s)
    {
      ghost var st := St();
      if nextFragIndex + 1 == MAX_FRAGS { return -1; }
      OpenFragment();
      fragIndex[h] := nextFragIndex;
      var k := 0;
      while k < |s|
        invariant k <= |s| && Valid() && pos == |st.data| + k <= MAX_HEADER_LEN && nextFragIndex == |st.frags|
        invariant St() == Store(st.frags + [Frag(|st.data|, k, 0)], st.data + s[..k], st.heads[h := |st.frags|])
      {
        var ok := IssueChar(s[k]);
        if !ok { return -1; }
        assert s[..k + 1] == s[..k] + [s[k]] && s[k] in s;
        assert pos == |St().data| == |st.data| + k + 1;
        k := k + 1;
      }
      var ok := IssueChar(0);
      if !ok { return -1; }
      assert s[..|s|] == s && st.data + s + [0] == (st.data + s) + [0];
      ret := 0;
    }

    // ------------------------------------------------------------------ parsing

    /**
      A finished step: what it returned agrees with what the specification says became of the
      parser.  OUT_OF_BOUNDS stands for a write past the tables, which is undefined in C.
    */
    ghost predicate Done(r: Result, ret: int)
      requires Valid()
      reads this, frags, data, fragIndex
    {
      (ret == 0 && r == More(View())) || (ret == -1 && r == Failed) || (ret == OUT_OF_BOUNDS && r == Overflow)
    }

    method CollectChar(c: byte) returns (ret: int)
      requires Valid()
      modifies this`pos, frags, data
      ensures Valid() && Done(old(Collect(View(), c)), ret)
    {
      var ok := IssueChar(c);
      ret := if ok then 0 else -1;
    }

    /** The swallow label: only the challenge body can complete the parse. */
    method SwallowTest(h: nat, version: int)
      requires Valid() && Wf(St()) && h < TOKEN_COUNT
      modifies this`parserState
      ensures Valid() && More(View()) == old(Swallow(View(), h, version))
    {
      hide Links;
      if h != CHALLENGE { return; }
      var versionLength := TotalLengthOf(VERSION);
      var length := TotalLengthOf(h);
      if versionLength == 0 && length != 8 { return; }
      if versionLength != 0 && version < 4 && length != 8 { return; }
      parserState := Complete;
    }

    /** The check_eol and spill labels. */
    method EolChar(h: nat, c: byte, version: int) returns (ret: int)
      requires Valid() && Wf(St()) && h < TOKEN_COUNT
      modifies this`nextFragIndex, this`pos, this`parserState, this`ups, frags, data, fragIndex
      ensures Valid() && Done(old(CheckEol(View(), h, c, version)), ret)
    {
      hide Links, Put, StartArgs, TotalLength;
      if h != CHALLENGE && c == CR {
        parserState := SkippingSawCr;
        ret := CollectChar(0);
      } else if c == QUESTION {
        if pos < MAX_HEADER_LEN && nextFragIndex + 1 < MAX_FRAGS { ArgsWf(St()); }
        var inBounds := SealArgs();
        if !inBounds { return OUT_OF_BOUNDS; }
        ups := Arguments;
        SwallowTest(h, version);
        ret := 0;
      } else {
        if pos < MAX_HEADER_LEN { PutWf(St(), c); }
        var ok := IssueChar(c);
        if !ok { return -1; }
        SwallowTest(h, version);
        ret := 0;
      }
    }

    /** The dots and slashes of a path. */
    method PathByte(h: nat, c: byte, version: int) returns (ret: int)
      requires Valid() && Wf(St()) && h < TOKEN_COUNT
      modifies this`nextFragIndex, this`pos, this`parserState, this`ups, frags, data, fragIndex
      ensures Valid() && Done(old(PathChar(View(), h, c, version)), ret)
    {
      hide Links, CheckEol, BackUp, Put;
      match ups {
        case PathIdle =>
          if c == SLASH { ups := SeenSlash; }
          ret := EolChar(h, c, version);
        case SeenSlash =>
          if c == SLASH { return 0; }
          if c == DOT {
            ups := SeenSlashDot;
            return 0;
          }
          ups := PathIdle;
          ret := EolChar(h, c, version);
        case SeenSlashDot =>
          if c == DOT {
            BackUpPath();
            ups := SeenSlashDotDot;
            return 0;
          }
          if c == SLASH {
            ups := SeenSlash;
            return 0;
          }
          ups := PathIdle;
          PutIfRoomWf(St(), DOT);
          var ignored := IssueChar(DOT);
          ret := EolChar(h, c, version);
        case SeenSlashDotDot =>
          if c == DOT || c == SLASH { return 0; }
          ups := SeenSlash;
          ret := EolChar(h, c, version);
        case Arguments =>
          ret := EolChar(h, c, version);
      }
    }

    /** The percent escapes of a path. */
    method EscByte(h: nat, c: byte, version: int) returns (ret: int)
      requires Valid() && WfParser(View()) && parserState == Token(h) && h <= POST_URI
      modifies this`nextFragIndex, this`pos, this`parserState, this`ups, this`ues, this`escStash, frags, data, fragIndex
      ensures Valid() && Done(old(EscChar(View(), h, c, version)), ret)
    {
      hide Links, Tiled, PathChar, Put;
      match ues {
        case EscIdle =>
          if c == PERCENT {
            ues := SeenPercent;
            return 0;
          }
          ret := PathByte(h, c, version);
        case SeenPercent =>
          if Hex(c) >= 0 {
            escStash := c;
            ues := SeenPercentH1;
            return 0;
          }
          if pos < MAX_HEADER_LEN { PutWf(St(), PERCENT); }
          var ok := IssueChar(PERCENT);
          if !ok { return -1; }
          ues := EscIdle;
          ret := PathByte(h, c, version);
        case SeenPercentH1 =>
          if Hex(c) >= 0 {
            ues := EscIdle;
            ret := PathByte(h, (Hex(escStash) * 16 + Hex(c)) % 256, version);
          } else {
            ret := FalseEscape(h, c, version);
          }
      }
    }

    /** Two characters after a percent sign that were no escape. */
    method FalseEscape(h: nat, c: byte, version: int) returns (ret: int)
      requires Valid() && WfParser(View()) && parserState == Token(h) && h <= POST_URI
      requires ues == SeenPercentH1 && Hex(c) < 0
      modifies this`nextFragIndex, this`pos, this`parserState, this`ups, this`ues, frags, data, fragIndex
      ensures Valid() && Done(old(EscChar(View(), h, c, version)), ret)
    {
      hide Links, Tiled, PathChar, Put;
      PutIfRoomWf(St(), PERCENT);
      var ignored := IssueChar(PERCENT);
      ues := EscIdle;
      ghost var p1 := View();
      DigitStays(p1, h, escStash, version);
      ret := PathByte(h, escStash, version);
      if ret < 0 { return; }
      ret := PathByte(h, c, version);
    }

    /** A character of a header value; the recursive call for a false escape is written out. */
    method ValueByte(h: nat, c: byte, version: int) returns (ret: int)
      requires Valid() && parserState == Token(h) && WfParser(View())
      modifies this`nextFragIndex, this`pos, this`parserState, this`ups, this`ues, this`escStash, frags, data, fragIndex
      ensures Valid() && Done(old(ValueChar(View(), h, c, version)), ret)
    {
      assert fragIndex[h] < nextFragIndex + 1;
      hide Links, Tiled, CheckEol, EscChar, Put;
      if frags[fragIndex[h]].len == 0 && c == SPACE { return 0; }
      if h != GET_URI && h != POST_URI {
        ret := EolChar(h, c, version);
      } else if c == SPACE {
        if frags[nextFragIndex].len == 0 {
          var ok := IssueChar(SLASH);
          if !ok { return -1; }
        }
        parserState := Skipping;
        ret := CollectChar(0);
      } else {
        ret := EscByte(h, c, version);
      }
    }

    /** A character of a header name. */
    method NameByte(look: Lookup) returns (ret: int)
      requires Valid() && Wf(St())
      modifies this`nextFragIndex, this`pos, this`parserState, frags, data, fragIndex
      ensures Valid() && Done(old(NameChar(View(), look)), ret)
    {
      hide Links, StartFragment, TotalLength;
      match look {
        case Partial => ret := 0;
        case Unknown =>
          if fragIndex[GET_URI] != 0 || fragIndex[POST_URI] != 0 || fragIndex[HTTP] != 0 {
            parserState := Skipping;
            return 0;
          }
          ret := -1;
        case Known(n) =>
          if n == GET_URI && fragIndex[GET_URI] != 0 { return -1; }
          if n == POST_URI && fragIndex[POST_URI] != 0 { return -1; }
          var h := if n == SWORIGIN then ORIGIN else n;
          var upgrade := TotalLengthOf(UPGRADE);
          var version := TotalLengthOf(VERSION);
          if h == CHALLENGE && (upgrade == 0 || version != 0) {
            parserState := Complete;
            return 0;
          }
          parserState := Token(h);
          var ok := StartFragmentOf(h);
          ret := if ok then 0 else -1;
      }
    }

    /** libwebsocket_parse */
    method Parse(c: byte, look: Lookup, version: int) returns (ret: int)
      requires Valid() && WfParser(View())
      modifies this`nextFragIndex, this`pos, this`parserState, this`ups, this`ues, this`escStash, frags, data, fragIndex
      ensures Valid() && Done(old(Step(View(), c, look, version)), ret) && (ret == 0 ==> WfParser(View()))
      ensures ret == OUT_OF_BOUNDS <==> old(RunsOver(View(), c))
    {
      OverflowExactly(View(), c, look, version);
      StepUsable(View(), c, look, version);
      hide Links, Tiled, ValueChar, NameChar;
      match parserState {
        case Token(h) => ret := ValueByte(h, c, version);
        case NamePart => ret := NameByte(look);
        case Skipping =>
          if c == CR { parserState := SkippingSawCr; }
          ret := 0;
        case SkippingSawCr =>
          parserState := if c == LF then NamePart else Skipping;
          ret := 0;
        case Complete => ret := 0;
      }
    }
  }

  ghost predicate Readable(st: Store) { Links(st) && AllSolid(st) }

  /** done holds the value of the chain from head up to entry n. */
  ghost predicate Copying(st: Store, head: nat, n: nat, done: seq<byte>)
    requires Readable(st) && head < |st.frags|
  {
    n < |st.frags| && AllTerminated(st, n) && |done| + TotalLength(st, n) == TotalLength(st, head)
      && done + Text(st, n) == Text(st, head)
  }

  lemma CopyStarts(st: Store, head: nat)
    requires Readable(st) && head < |st.frags| && AllTerminated(st, head)
    ensures Copying(st, head, head, [])
  {}

  lemma CopyStep(st: Store, head: nat, n: nat, done: seq<byte>)
    requires Readable(st) && head < |st.frags| && 0 < n < |st.frags| && Copying(st, head, n, done)
    ensures Solid(st, n) && Terminated(st, n) && (st.frags[n].next == 0 || n < st.frags[n].next < |st.frags|)
    ensures Copying(st, head, st.frags[n].next, done + Piece(st, n))
    ensures |done| + st.frags[n].len <= TotalLength(st, head)
  {
    TextSplits(st, n, done);
  }

  lemma CopyEnds(st: Store, head: nat, done: seq<byte>)
    requires Readable(st) && head < |st.frags| && Copying(st, head, 0, done)
    ensures done == Text(st, head) && |done| == TotalLength(st, head)
  {}
}
