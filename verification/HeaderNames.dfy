/**
  The request parser and the name table together: what lextable_decode answers to the bytes
  of a header name, from the position the parser keeps in lextable_pos, is what the parser of
  HeaderStore is given.
*/
module HeaderNames {
  import opened Bytes
  import opened LexTrie
  import opened LexTable
  import opened HeaderStore
  import opened HeaderRuns

  // The answer to one character and the new lextable_pos.  Astray: outside the table, or at a
  // marker that is no header's.
  datatype Answer = Answer(look: Lookup, pos: nat) | Astray

  /** The walk of the NAME_PART state. */
  function Ask(tb: seq<byte>, pos: nat, c: byte): Answer {
    match Decode(tb, pos, ToLower(c))
    case Fail => Answer(Unknown, pos)
    case Overrun => Astray
    case At(q) =>
      if q >= |tb| then Astray
      else if tb[q] >= FAIL_CHAR then Answer(Partial, q)
      else if q + 1 >= |tb| then Astray
      else
        var n := tb[q] as int * 256 + tb[q + 1] as int;
        if n <= REFERER then Answer(Known(n), q) else Astray
  }

  /** What the parser is given while it reads a name: it stops asking once a name is known or unknown. */
  function Asked(tb: seq<byte>, pos: nat, s: seq<byte>): seq<Input>
    decreases |s|
  {
    if s == [] then []
    else match Ask(tb, pos, s[0])
      case Astray => []
      case Answer(look, q) => [Input(s[0], look, 0)] + if look.Partial? then Asked(tb, q, s[1..]) else []
  }

  lemma NamedFirst(s: seq<byte>, look: Lookup)
    requires |s| > 1
    ensures Named(s, look) == [Input(s[0], Partial, 0)] + Named(s[1..], look)
  {
    assert s[..|s| - 1][0] == s[0] && s[..|s| - 1][1..] == s[1..][..|s| - 2];
    assert Plain(s[..|s| - 1]) == [Input(s[0], Partial, 0)] + Plain(s[1..][..|s| - 2]);
  }

  /** The answers along a name are those of the walk FeedFolded makes in one go. */
  lemma {:induction false} AskedIsFed(tb: seq<byte>, pos: nat, s: seq<byte>)
    ensures match FeedFolded(tb, pos, s)
      case Unfinished(_) => Asked(tb, pos, s) == Plain(s)
      case Marker(n, left) => left < |s| && (n <= REFERER ==> Asked(tb, pos, s) == Named(s[..|s| - left], Known(n)))
      case Rejected => exists k :: 0 < k <= |s| && Asked(tb, pos, s) == Named(s[..k], Unknown)
      case Overran => true
    decreases |s|
  {
    if s != [] {
      var d := Decode(tb, pos, ToLower(s[0]));
      if d.At? && d.pos < |tb| && tb[d.pos] >= FAIL_CHAR {
        AskedMore(tb, pos, s, d.pos);
      } else if d.Fail? {
        assert s[..1][..0] == [] && Named(s[..1], Unknown) == [Input(s[0], Unknown, 0)];
        assert Asked(tb, pos, s) == Named(s[..1], Unknown);
      } else if d.At? && d.pos + 1 < |tb| {
        var n := tb[d.pos] as int * 256 + tb[d.pos + 1] as int;
        assert |s| - (|s| - 1) == 1;
        assert n <= REFERER ==> Named(s[..1], Known(n)) == [Input(s[0], Known(n), 0)];
      }
    }
  }

  lemma AskedMore(tb: seq<byte>, pos: nat, s: seq<byte>, q: nat)
    requires s != [] && Decode(tb, pos, ToLower(s[0])) == At(q) && q < |tb| && tb[q] >= FAIL_CHAR
    ensures match FeedFolded(tb, pos, s)
      case Unfinished(_) => Asked(tb, pos, s) == Plain(s)
      case Marker(n, left) => left < |s| && (n <= REFERER ==> Asked(tb, pos, s) == Named(s[..|s| - left], Known(n)))
      case Rejected => exists k :: 0 < k <= |s| && Asked(tb, pos, s) == Named(s[..k], Unknown)
      case Overran => true
    decreases |s|, 0
  {
    var rest := s[1..];
    AskedIsFed(tb, q, rest);
    assert Asked(tb, pos, s) == [Input(s[0], Partial, 0)] + Asked(tb, q, rest);
    assert FeedFolded(tb, pos, s) == FeedFolded(tb, q, rest);
    match FeedFolded(tb, q, rest) {
      case Unfinished(_) => assert Plain(s) == [Input(s[0], Partial, 0)] + Plain(rest);
      case Marker(n, left) =>
        var name := s[..|s| - left];
        assert name[1..] == rest[..|rest| - left] && name[0] == s[0];
        if n <= REFERER { NamedFirst(name, Known(n)); }
      case Rejected =>
        var k :| 0 < k <= |rest| && Asked(tb, q, rest) == Named(rest[..k], Unknown);
        assert s[..k + 1][1..] == rest[..k] && s[..k + 1][0] == s[0];
        NamedFirst(s[..k + 1], Unknown);
      case Overran =>
    }
  }

  /** On the table made for a set, a name of the set in any mix of cases is answered as its header. */
  lemma MemberNamed(t: Trie, words: seq<seq<byte>>, i: nat, s: seq<byte>)
    requires Built(t, words) && Targets(t) && AllJumpsFit(t)
    requires i < |words| && i <= REFERER && words[i] != [] && NoCapitals(words[i]) && AnyCase(s, words[i])
    ensures Asked(Table(t), 0, s) == Named(s, Known(i))
  {
    hide Table, Built, Targets, StatesFit, FeedFolded, Named;
    HeaderNamesDecode(t, words, i, s);
    AskedIsFed(Table(t), 0, s);
    assert s[..|s| - 0] == s;
  }

  // ------------------------------------------------------------- reading bytes

  // The parser and its lextable_pos.
  datatype Reader = Reader(p: Parser, pos: nat)

  // What a byte or a text makes of the parser; LeftTable is a walk that leaves the name table,
  // or ends at a marker that is no header's.
  datatype Outcome = Parsed(result: Result) | LeftTable

  /** The C string that starts at a place in the data. */
  function CString(data: seq<byte>, at: nat): seq<byte>
    decreases |data| - at
  {
    if at >= |data| || data[at] == 0 then [] else [data[at]] + CString(data, at + 1)
  }

  /** What atoi makes of the first fragment of the version header. */
  function VersionOf(st: Store, atoi: seq<byte> -> int): int
    requires |st.heads| == TOKEN_COUNT && st.heads[VERSION] < |st.frags|
  {
    if st.heads[VERSION] == 0 then 0 else atoi(CString(st.data, st.frags[st.heads[VERSION]].offset))
  }

  /** One byte of a request: only in NAME_PART is the table asked; a new line starts at its beginning. */
  ghost function ReadByte(r: Reader, tb: seq<byte>, atoi: seq<byte> -> int, c: byte): (q: (Outcome, nat))
    requires WfParser(r.p)
  {
    if r.p.state.NamePart? then
      match Ask(tb, r.pos, c)
      case Astray => (LeftTable, r.pos)
      case Answer(look, pos) => (Parsed(Step(r.p, c, look, 0)), pos)
    else
      (Parsed(Step(r.p, c, Partial, VersionOf(r.p.st, atoi))),
       if r.p.state.SkippingSawCr? && c == LF then 0 else r.pos)
  }

  ghost function Read(r: Reader, tb: seq<byte>, atoi: seq<byte> -> int, text: seq<byte>): Outcome
    requires WfParser(r.p)
    decreases |text|
  {
    if text == [] then Parsed(More(r.p))
    else
      var q := ReadByte(r, tb, atoi, text[0]);
      if q.0.Parsed? && q.0.result.More? && WfParser(q.0.result.p)
      then Read(Reader(q.0.result.p, q.1), tb, atoi, text[1..]) else q.0
  }

  lemma EolOtherVersion(p: Parser, h: nat, c: byte, version: int)
    requires Wf(p.st) && h < TOKEN_COUNT && h != CHALLENGE
    ensures CheckEol(p, h, c, version) == CheckEol(p, h, c, 0)
  {
    hide Wf, StartArgs, Put;
  }

  lemma PathOtherVersion(p: Parser, h: nat, c: byte, version: int)
    requires Wf(p.st) && h < TOKEN_COUNT && h != CHALLENGE
    ensures PathChar(p, h, c, version) == PathChar(p, h, c, 0)
  {
    hide CheckEol, Links, PutIfRoom;
    PutIfRoomWf(p.st, DOT);
    EolOtherVersion(p.(ups := if c == SLASH then SeenSlash else PathIdle), h, c, version);
    EolOtherVersion(p.(ups := PathIdle), h, c, version);
    EolOtherVersion(p.(st := PutIfRoom(p.st, DOT), ups := PathIdle), h, c, version);
    EolOtherVersion(p.(ups := SeenSlash), h, c, version);
    EolOtherVersion(p, h, c, version);
  }

  lemma EscOtherVersion(p: Parser, h: nat, c: byte, version: int)
    requires Wf(p.st) && h < TOKEN_COUNT && h != CHALLENGE
    ensures EscChar(p, h, c, version) == EscChar(p, h, c, 0)
  {
    hide PathChar, Links, PutIfRoom, Put;
    match p.ues {
      case EscIdle => PathOtherVersion(p, h, c, version);
      case SeenPercent =>
        if !Full(p.st) {
          PutWf(p.st, PERCENT);
          PathOtherVersion(p.(st := Put(p.st, PERCENT), ues := EscIdle), h, c, version);
        }
      case SeenPercentH1 =>
        PathOtherVersion(p.(ues := EscIdle), h, (Hex(p.stash) * 16 + Hex(c)) % 256, version);
        PutIfRoomWf(p.st, PERCENT);
        var p1 := p.(st := PutIfRoom(p.st, PERCENT), ues := EscIdle);
        PathOtherVersion(p1, h, p.stash, version);
        var r := PathChar(p1, h, p.stash, 0);
        if r.More? && Wf(r.p.st) { PathOtherVersion(r.p, h, c, version); }
    }
  }

  /** Only the body of a challenge is completed by the version. */
  lemma OtherVersion(p: Parser, c: byte, look: Lookup, version: int)
    requires WfParser(p) && p.state != Token(CHALLENGE)
    ensures Step(p, c, look, version) == Step(p, c, look, 0)
  {
    hide CheckEol, EscChar, Wf;
    if p.state.Token? {
      EolOtherVersion(p, p.state.h, c, version);
      EscOtherVersion(p, p.state.h, c, version);
    }
  }

  /** Reading a known name byte by byte is the parser given the answers the table makes to it. */
  lemma {:induction false} ReadsName(r: Reader, tb: seq<byte>, atoi: seq<byte> -> int, s: seq<byte>, n: HeaderToken,
      rest: seq<byte>)
    requires WfParser(r.p) && r.p.state == NamePart && s != [] && Asked(tb, r.pos, s) == Named(s, Known(n))
    ensures var q := Run(r.p, Named(s, Known(n)));
      q == Step(r.p, s[|s| - 1], Known(n), 0)
      && (if !q.More? then Read(r, tb, atoi, s + rest) == Parsed(q)
          else exists pos ::
            WfParser(q.p) && Read(r, tb, atoi, s + rest) == Read(Reader(q.p, pos), tb, atoi, rest))
    decreases |s|
  {
    hide Step;
    var a := Ask(tb, r.pos, s[0]);
    assert (s + rest)[0] == s[0] && (s + rest)[1..] == s[1..] + rest;
    StepUsable(r.p, s[|s| - 1], Known(n), 0);
    PartialName(r.p, s[..|s| - 1]);
    RunAppend(r.p, Plain(s[..|s| - 1]), [Input(s[|s| - 1], Known(n), 0)]);
    RunOne(r.p, Input(s[|s| - 1], Known(n), 0));
    assert Asked(tb, r.pos, s)[0] == Input(s[0], a.look, 0);
    if |s| > 1 {
      NamedFirst(s, Known(n));
      assert Asked(tb, r.pos, s)[1..] == Asked(tb, a.pos, s[1..]);
      StaysInName(r.p, s[0]);
      ReadsName(Reader(r.p, a.pos), tb, atoi, s[1..], n, rest);
    } else {
      assert s + rest == [s[0]] + rest && s[1..] + rest == rest;
      assert Named(s, Known(n))[0] == Input(s[0], Known(n), 0);
      var q := Step(r.p, s[0], Known(n), 0);
      if q.More? { assert Read(r, tb, atoi, s + rest) == Read(Reader(q.p, a.pos), tb, atoi, rest); }
    }
  }

  lemma StaysInName(p: Parser, c: byte)
    requires WfParser(p) && p.state == NamePart
    ensures Step(p, c, Partial, 0) == More(p)
  {}

  const HOST_BYTES: seq<byte> := [104, 111, 115, 116, COLON]

  /** The host name of the runs of HeaderRuns is what a table made for a set with "host:" in its place answers. */
  lemma HostIsRead(t: Trie, words: seq<seq<byte>>)
    requires Built(t, words) && Targets(t) && AllJumpsFit(t) && HOST < |words| && words[HOST] == HOST_BYTES
    ensures Asked(Table(t), 0, HOST_BYTES) == HOST_NAME
  {
    assert NoCapitals(HOST_BYTES) && AnyCase(HOST_BYTES, HOST_BYTES);
    MemberNamed(t, words, HOST, HOST_BYTES);
    assert HOST_BYTES[..4] == [104, 111, 115, 116];
  }

  /** One more byte read. */
  lemma ReadOn(r: Reader, tb: seq<byte>, atoi: seq<byte> -> int, c: byte, rest: seq<byte>)
    requires WfParser(r.p) && r.p.state != NamePart && r.p.state != Token(CHALLENGE) && Step(r.p, c, Partial, 0).More?
    ensures var p := Step(r.p, c, Partial, 0).p;
      WfParser(p) && Read(r, tb, atoi, [c] + rest)
        == Read(Reader(p, if r.p.state.SkippingSawCr? && c == LF then 0 else r.pos), tb, atoi, rest)
  {
    StepUsable(r.p, c, Partial, 0);
    OtherVersion(r.p, c, Partial, VersionOf(r.p.st, atoi));
    hide Step, WfParser;
    assert ([c] + rest)[0] == c && ([c] + rest)[1..] == rest;
  }

  /** n lines "host:" in front of a tail. */
  function HostText(n: nat, tail: seq<byte>): seq<byte> {
    if n == 0 then tail else HOST_BYTES + ([CR] + ([LF] + HostText(n - 1, tail)))
  }

  lemma HostReads(p: Parser, tb: seq<byte>, atoi: seq<byte> -> int, rest: seq<byte>) returns (pos: nat)
    requires WfParser(p) && p.state == NamePart && |p.st.frags| < MAX_FRAGS && !Full(p.st)
    requires Asked(tb, 0, HOST_BYTES) == HOST_NAME
    ensures var q := Run(p, HOST_NAME);
      q.More? && WfParser(q.p)
        && Read(Reader(p, 0), tb, atoi, HOST_BYTES + rest) == Read(Reader(q.p, pos), tb, atoi, rest)
  {
    HostNameOpens(p);
    assert HOST_BYTES[..4] == [104, 111, 115, 116];
    assert Named(HOST_BYTES, Known(HOST)) == HOST_NAME;
    hide Read, Run, WfParser;
    ReadsName(Reader(p, 0), tb, atoi, HOST_BYTES, HOST, rest);
    pos :| Read(Reader(p, 0), tb, atoi, HOST_BYTES + rest) == Read(Reader(Run(p, HOST_NAME).p, pos), tb, atoi, rest);
  }

  lemma {:induction false} HostsRead(n: nat, p: Parser, tb: seq<byte>, atoi: seq<byte> -> int, tail: seq<byte>)
    returns (q: Parser)
    requires WfParser(p) && p.state == NamePart && |p.st.frags| + n <= MAX_FRAGS
      && |p.st.data| + 2 * n <= MAX_HEADER_LEN
    requires Asked(tb, 0, HOST_BYTES) == HOST_NAME
    ensures WfParser(q) && q.state == NamePart && |q.st.frags| == |p.st.frags| + n && |q.st.data| <= |p.st.data| + 2 * n
    ensures Read(Reader(p, 0), tb, atoi, HostText(n, tail)) == Read(Reader(q, 0), tb, atoi, tail)
    decreases n
  {
    q := p;
    if n > 0 {
      var rest := HostText(n - 1, tail);
      HostNameOpens(p);
      var p1 := Run(p, HOST_NAME).p;
      LineEnds(p1);
      var p2 := Step(p1, CR, Partial, 0).p;
      StepUsable(p1, CR, Partial, 0);
      LfEnds(p2);
      hide Read, Run, Step, WfParser;
      var pos := HostReads(p, tb, atoi, [CR] + ([LF] + rest));
      ReadOn(Reader(p1, pos), tb, atoi, CR, [LF] + rest);
      ReadOn(Reader(p2, pos), tb, atoi, LF, rest);
      q := HostsRead(n - 1, p2.(state := NamePart), tb, atoi, tail);
    }
  }

  /**
    From text to overflow: whatever table was made for a set with "host:" in its place, 74 lines
    "host:" and then "host:?" make the parser write past its fragments.
  */
  lemma HostTextRunsOver(t: Trie, words: seq<seq<byte>>, atoi: seq<byte> -> int)
    requires Built(t, words) && Targets(t) && AllJumpsFit(t) && HOST < |words| && words[HOST] == HOST_BYTES
    ensures WfParser(START)
    ensures Read(Reader(START, 0), Table(t), atoi, HostText(MAX_FRAGS - 2, HOST_BYTES + [QUESTION])) == Parsed(Overflow)
  {
    StartsInOrder();
    HostIsRead(t, words);
    var tb := Table(t);
    hide Read, Run, Step, WfParser, Table, HostText;
    var q := HostsRead(MAX_FRAGS - 2, START, tb, atoi, HOST_BYTES + [QUESTION]);
    StartSize();
    HostNameOpens(q);
    var pos := HostReads(q, tb, atoi, [QUESTION]);
    var p := Run(q, HOST_NAME).p;
    OverflowExactly(p, QUESTION, Partial, 0);
    ReadsOver(Reader(p, pos), tb, atoi);
  }

  lemma StartSize()
    ensures START.state == NamePart && |START.st.frags| == 1 && START.st.data == []
  {}

  lemma ReadsOver(r: Reader, tb: seq<byte>, atoi: seq<byte> -> int)
    requires WfParser(r.p) && r.p.state != NamePart && r.p.state != Token(CHALLENGE)
    requires Step(r.p, QUESTION, Partial, 0).Overflow?
    ensures Read(r, tb, atoi, [QUESTION]) == Parsed(Overflow)
  {
    OtherVersion(r.p, QUESTION, Partial, VersionOf(r.p.st, atoi));
    hide Step, WfParser;
  }
}
