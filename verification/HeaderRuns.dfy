/**
  Whole requests through the parser of HeaderStore, from an empty header table: the ones
  that leave its tables, the one that files an uncounted NUL, and a bound that keeps clear
  of both tables' ends.
*/
module HeaderRuns {
  import opened Bytes
  import opened HeaderStore

  lemma {:induction false} RunAppend(p: Parser, a: seq<Input>, b: seq<Input>)
    requires WfParser(p) && Run(p, a).More? && WfParser(Run(p, a).p)
    ensures Run(p, a + b) == Run(Run(p, a).p, b)
    decreases |a|
  {
    hide WfParser, Step;
    if a == [] {
      assert a + b == b;
    } else {
      assert (a + b)[1..] == a[1..] + b;
      RunAppend(Step(p, a[0].c, a[0].look, a[0].version).p, a[1..], b);
    }
  }

  /** One step, and the rest from there. */
  lemma RunFirst(p: Parser, i: Input, rest: seq<Input>)
    requires WfParser(p) && Step(p, i.c, i.look, i.version).More?
    ensures WfParser(Step(p, i.c, i.look, i.version).p)
    ensures Run(p, [i] + rest) == Run(Step(p, i.c, i.look, i.version).p, rest)
  {
    StepUsable(p, i.c, i.look, i.version);
    hide WfParser, Step;
    assert ([i] + rest)[0] == i && ([i] + rest)[1..] == rest;
  }

  /** Characters outside a name, or that do not finish one. */
  function Plain(text: seq<byte>): seq<Input> { seq(|text|, k requires 0 <= k < |text| => Input(text[k], Partial, 0)) }

  /** All but the last character of a name leave it open. */
  function Named(s: seq<byte>, look: Lookup): seq<Input>
    requires s != []
  {
    Plain(s[..|s| - 1]) + [Input(s[|s| - 1], look, 0)]
  }

  const HOST := 2
  const COLON: byte := 58

  // "host:", whose last character finishes the name
  const HOST_NAME: seq<Input> := Plain([104, 111, 115, 116]) + [Input(COLON, Known(HOST), 0)]

  lemma {:induction false} PartialName(p: Parser, text: seq<byte>)
    requires WfParser(p) && p.state == NamePart
    ensures Run(p, Plain(text)) == More(p)
    decreases |text|
  {
    if text != [] {
      assert Step(p, text[0], Partial, 0) == More(p);
      assert Plain(text) == [Input(text[0], Partial, 0)] + Plain(text[1..]);
      RunFirst(p, Input(text[0], Partial, 0), Plain(text[1..]));
      PartialName(p, text[1..]);
    }
  }

  /** A name opens a fragment, with a space in it when the header was seen before. */
  lemma HostNameOpens(p: Parser)
    requires WfParser(p) && p.state == NamePart && |p.st.frags| < MAX_FRAGS && !Full(p.st)
    ensures var r := Run(p, HOST_NAME);
      && r.More? && WfParser(r.p) && r.p.state == Token(HOST)
      && |r.p.st.frags| == |p.st.frags| + 1 && |r.p.st.data| == |p.st.data| + (if p.st.heads[HOST] == 0 then 0 else 1)
  {
    var text: seq<byte> := [104, 111, 115, 116];
    PartialName(p, text);
    RunAppend(p, Plain(text), [Input(COLON, Known(HOST), 0)]);
    HostOpens(p);
    RunOne(p, Input(COLON, Known(HOST), 0));
    StepUsable(p, COLON, Known(HOST), 0);
  }

  lemma HostOpens(p: Parser)
    requires WfParser(p) && p.state == NamePart && |p.st.frags| < MAX_FRAGS && !Full(p.st)
    ensures var r := Step(p, COLON, Known(HOST), 0);
      && r.More? && r.p.state == Token(HOST)
      && |r.p.st.frags| == |p.st.frags| + 1 && |r.p.st.data| == |p.st.data| + (if p.st.heads[HOST] == 0 then 0 else 1)
  {
    hide Links;
  }

  // "host:" and the end of the line
  const HOST_LINE: seq<Input> := HOST_NAME + Plain([CR, LF])

  lemma HostLineFiles(p: Parser)
    requires WfParser(p) && p.state == NamePart && |p.st.frags| < MAX_FRAGS && |p.st.data| + 1 < MAX_HEADER_LEN
    ensures var r := Run(p, HOST_LINE);
      && r.More? && WfParser(r.p) && r.p.state == NamePart
      && |r.p.st.frags| == |p.st.frags| + 1 && |r.p.st.data| <= |p.st.data| + 2
  {
    HostNameOpens(p);
    RunAppend(p, HOST_NAME, Plain([CR, LF]));
    var p1 := Run(p, HOST_NAME).p;
    LineEnds(p1);
    StepUsable(p1, CR, Partial, 0);
    LfEnds(Step(p1, CR, Partial, 0).p);
    hide WfParser;
    RunTwo(p1, Input(CR, Partial, 0), Input(LF, Partial, 0));
    assert Plain([CR, LF]) == [Input(CR, Partial, 0), Input(LF, Partial, 0)];
  }

  lemma RunOne(p: Parser, i: Input)
    requires WfParser(p)
    ensures Run(p, [i]) == Step(p, i.c, i.look, i.version)
  {
    StepUsable(p, i.c, i.look, i.version);
    hide WfParser, Step;
    var r := Step(p, i.c, i.look, i.version);
    assert [i][1..] == [];
    if r.More? { assert Run(r.p, []) == r; }
  }

  lemma RunTwo(p: Parser, i: Input, j: Input)
    requires WfParser(p) && Step(p, i.c, i.look, i.version).More?
    ensures var p1 := Step(p, i.c, i.look, i.version).p;
      WfParser(p1) && Run(p, [i, j]) == Step(p1, j.c, j.look, j.version)
  {
    RunFirst(p, i, [j]);
    RunOne(Step(p, i.c, i.look, i.version).p, j);
    assert [i] + [j] == [i, j];
  }

  lemma LineEnds(p: Parser)
    requires WfParser(p) && p.state == Token(HOST) && !Full(p.st)
    ensures var r := Step(p, CR, Partial, 0);
      && r.More? && r.p.state == SkippingSawCr && |r.p.st.frags| == |p.st.frags| && |r.p.st.data| == |p.st.data| + 1
  {
    hide Links;
  }

  lemma LfEnds(p: Parser)
    requires WfParser(p) && p.state == SkippingSawCr
    ensures WfParser(p.(state := NamePart)) && Step(p, LF, Partial, 0) == More(p.(state := NamePart))
  {}

  function HostLines(n: nat): seq<Input> { if n == 0 then [] else HostLines(n - 1) + HOST_LINE }

  lemma {:induction false} HostLinesFile(n: nat)
    requires n < MAX_FRAGS
    ensures var r := Run(START, HostLines(n));
      && r.More? && WfParser(r.p) && r.p.state == NamePart && |r.p.st.frags| == n + 1 && |r.p.st.data| <= 2 * n
  {
    StartsInOrder();
    hide Links;
    if n > 0 {
      HostLinesFile(n - 1);
      HostLineFiles(Run(START, HostLines(n - 1)).p);
      RunAppend(START, HostLines(n - 1), HOST_LINE);
    }
  }

  function Value(n: nat): seq<Input> { Plain(seq(n, _ => 97)) }

  lemma {:induction false} ValueFiles(p: Parser, n: nat)
    requires WfParser(p) && p.state == Token(HOST) && |p.st.data| + n <= MAX_HEADER_LEN
    ensures var r := Run(p, Value(n));
      r.More? && WfParser(r.p) && r.p.state == Token(HOST) && |r.p.st.data| == |p.st.data| + n
    decreases n
  {
    hide WfParser, Step;
    if n > 0 {
      LetterFiles(p);
      ValueIs(n);
      RunFirst(p, Input(97, Partial, 0), Value(n - 1));
      ValueFiles(Step(p, 97, Partial, 0).p, n - 1);
    }
  }

  lemma ValueIs(n: nat)
    requires n > 0
    ensures Value(n) == [Input(97, Partial, 0)] + Value(n - 1)
  {}

  lemma LetterFiles(p: Parser)
    requires WfParser(p) && p.state == Token(HOST) && !Full(p.st)
    ensures var r := Step(p, 97, Partial, 0); r.More? && r.p.state == Token(HOST) && |r.p.st.data| == |p.st.data| + 1
  {
    hide Links;
  }

  // 75 host headers, the last with a question mark for a value
  const MANY_HEADERS: seq<Input> := HostLines(MAX_FRAGS - 2) + HOST_NAME + Plain([QUESTION])

  // one host header whose value is a question mark behind 10240 letters
  const LONG_HEADER: seq<Input> := HOST_NAME + Value(MAX_HEADER_LEN) + Plain([QUESTION])

  /** Both requests make the parser write outside its tables, one past the fragments, the other past the data. */
  lemma RequestsRunOver()
    ensures Run(START, MANY_HEADERS) == Overflow
    ensures Run(START, LONG_HEADER) == Overflow
  {
    StartsInOrder();
    hide Links;
    HostLinesFile(MAX_FRAGS - 2);
    var p := Run(START, HostLines(MAX_FRAGS - 2)).p;
    HostNameOpens(p);
    RunAppend(START, HostLines(MAX_FRAGS - 2), HOST_NAME);
    QuestionRunsOver(HostLines(MAX_FRAGS - 2) + HOST_NAME);
    HostNameOpens(START);
    ValueFiles(Run(START, HOST_NAME).p, MAX_HEADER_LEN);
    RunAppend(START, HOST_NAME, Value(MAX_HEADER_LEN));
    QuestionRunsOver(HOST_NAME + Value(MAX_HEADER_LEN));
  }

  lemma QuestionRunsOver(inputs: seq<Input>)
    requires var r := Run(START, inputs);
      r.More? && WfParser(r.p) && r.p.state == Token(HOST)
        && (|r.p.st.frags| == MAX_FRAGS || |r.p.st.data| == MAX_HEADER_LEN)
    ensures Run(START, inputs + Plain([QUESTION])) == Overflow
  {
    StartsInOrder();
    hide Run, Links;
    var p := Run(START, inputs).p;
    RunAppend(START, inputs, Plain([QUESTION]));
    OverflowExactly(p, QUESTION, Partial, 0);
    assert Plain([QUESTION]) == [Input(QUESTION, Partial, 0)];
    RunOne(p, Input(QUESTION, Partial, 0));
  }

  const GET_NAME: seq<Input> := Plain([71, 69, 84]) + [Input(SPACE, Known(GET_URI), 0)]

  // GET /%00
  const ESCAPED_NUL: seq<Input> := GET_NAME + Plain([SLASH, PERCENT, 48, 48])

  /** An escaped NUL is filed like any character, but its fragment does not count it. */
  lemma EscapedNulSpoils()
    ensures var r := Run(START, ESCAPED_NUL); r.More? && WfParser(r.p) && !Filing(r.p)
  {
    var text: seq<byte> := [71, 69, 84];
    PartialName(START, text);
    var p1 := Step(START, SPACE, Known(GET_URI), 0).p;
    StartFragmentOpens(START.st, GET_URI);
    RunAppend(START, Plain(text), [Input(SPACE, Known(GET_URI), 0)]);
    RunOne(START, Input(SPACE, Known(GET_URI), 0));
    RunAppend(START, GET_NAME, Plain([SLASH, PERCENT, 48, 48]));
    StepUsable(START, SPACE, Known(GET_URI), 0);
    assert Reading(p1, GET_URI) && |p1.st.data| == 0 && p1.ues == EscIdle && p1.ups == PathIdle;
    NulPath(p1);
  }

  lemma NulPath(p: Parser)
    requires Reading(p, GET_URI) && p.ues == EscIdle && p.ups == PathIdle && |p.st.data| + 2 <= MAX_HEADER_LEN
    ensures var r := Run(p, Plain([SLASH, PERCENT, 48, 48])); r.More? && WfParser(r.p) && !Filing(r.p)
  {
    hide Tiled, Links, TotalLength, Run;
    var i, j, k := Input(SLASH, Partial, 0), Input(PERCENT, Partial, 0), Input(48, Partial, 0);
    assert Plain([SLASH, PERCENT, 48, 48]) == [i] + ([j] + [k, k]);
    var p1 := p.(st := Put(p.st, SLASH), ups := SeenSlash);
    assert Step(p, SLASH, Partial, 0) == More(p1);
    RunFirst(p, i, [j] + [k, k]);
    RunFirst(p1, j, [k, k]);
    var p2 := p1.(ues := SeenPercent);
    RunTwo(p2, k, k);
    var p3 := p1.(ues := SeenPercentH1, stash := 48);
    StepKeepsExactly(p, SLASH, Partial, 0);
    StepUsable(p3, 48, Partial, 0);
    StepKeepsExactly(p3, 48, Partial, 0);
  }

  // ------------------------------------------------------ requests that stay inside

  /** Whether a character asks for a fragment: the end of a known name, or a question mark, plain or escaped. */
  function Opens(p: Parser, i: Input): nat {
    if (p.state.Token? && Decoded(p, i.c) == QUESTION) || (p.state.NamePart? && i.look.Known?) then 1 else 0
  }

  /** The fragments a request asks for. */
  ghost function Openings(p: Parser, inputs: seq<Input>): nat
    requires WfParser(p)
    decreases |inputs|
  {
    if inputs == [] then 0
    else
      var r := Step(p, inputs[0].c, inputs[0].look, inputs[0].version);
      Opens(p, inputs[0]) + if r.More? && WfParser(r.p) then Openings(r.p, inputs[1..]) else 0
  }

  /** The data used so far, and the characters held back that may still have to be filed. */
  function Used(p: Parser): nat {
    |p.st.data| + (if p.ues == SeenPercent then 1 else if p.ues == SeenPercentH1 then 2 else 0)
                + if p.ups == SeenSlashDot then 1 else 0
  }

  /** What a step may add to the tables. */
  ghost predicate Modest(p: Parser, r: Result, fragments: nat, chars: nat) {
    r.More? ==> |r.p.st.frags| <= |p.st.frags| + fragments && Used(r.p) <= Used(p) + chars
  }

  lemma CheckEolModest(p: Parser, h: nat, c: byte, version: int)
    requires WfParser(p) && h <= REFERER && p.ups != SeenSlashDot
    ensures Modest(p, CheckEol(p, h, c, version), if c == QUESTION then 1 else 0, 1)
  {
    hide Links, TotalLength;
  }

  lemma {:induction false} BackUpLoopShortens(st: Store)
    requires st.frags != [] && 0 < Last(st).len <= |st.data|
    ensures |BackUpLoop(st).data| < |st.data|
    decreases |st.data|
  {
    var st1 := TakeBack(st);
    if Last(st1).len > 1 && st.data[|st.data| - 1] != SLASH { BackUpLoopShortens(st1); }
  }

  lemma BackUpShortens(st: Store)
    requires st.frags != [] && Last(st).len <= |st.data|
    ensures |BackUp(st).data| <= |st.data|
  {
    if Last(st).len > 2 { BackUpLoopShortens(TakeBack(st)); }
  }

  lemma PathModest(p: Parser, h: nat, c: byte, version: int)
    requires WfParser(p) && h <= REFERER
    ensures Modest(p, PathChar(p, h, c, version), if c == QUESTION then 1 else 0, 1)
  {
    hide Links, CheckEol, BackUp, BackUpLoop;
    BackUpShortens(p.st);
    PutIfRoomWf(p.st, DOT);
    CheckEolModest(p.(st := PutIfRoom(p.st, DOT), ups := PathIdle), h, c, version);
    CheckEolModest(p.(ups := PathIdle), h, c, version);
    CheckEolModest(p.(ups := SeenSlash), h, c, version);
    if p.ups != SeenSlashDot { CheckEolModest(p, h, c, version); }
  }

  lemma EscModest(p: Parser, h: nat, c: byte, version: int)
    requires WfParser(p) && p.state == Token(h) && h <= POST_URI
    ensures c != SPACE ==> Modest(p, EscChar(p, h, c, version), if Decoded(p, c) == QUESTION then 1 else 0, 2)
  {
    hide Links, PathChar;
    match p.ues {
      case EscIdle => PathModest(p, h, c, version);
      case SeenPercent =>
        if Hex(c) < 0 && !Full(p.st) {
          PutWf(p.st, PERCENT);
          PathModest(p.(st := Put(p.st, PERCENT), ues := EscIdle), h, c, version);
        }
      case SeenPercentH1 =>
        if Hex(c) >= 0 {
          PathModest(p.(ues := EscIdle), h, (Hex(p.stash) * 16 + Hex(c)) % 256, version);
        } else {
          PutIfRoomWf(p.st, PERCENT);
          var p1 := p.(st := PutIfRoom(p.st, PERCENT), ues := EscIdle);
          DigitStays(p1, h, p.stash, version);
          PathModest(p1, h, p.stash, version);
          var r := PathChar(p1, h, p.stash, version);
          if r.More? { PathModest(r.p, h, c, version); }
        }
    }
  }

  lemma StepModest(p: Parser, i: Input)
    requires WfParser(p)
    ensures Modest(p, Step(p, i.c, i.look, i.version), Opens(p, i), 2)
  {
    hide Links, CheckEol, EscChar, TotalLength;
    if p.state.Token? {
      var h := p.state.h;
      if h > POST_URI {
        OtherHeaderModest(p, h, i.c, i.version);
      } else if i.c != SPACE { EscModest(p, h, i.c, i.version); }
    }
  }

  /** Outside the request path nothing is held back. */
  lemma OtherHeaderModest(p: Parser, h: nat, c: byte, version: int)
    requires WfParser(p) && h <= REFERER
    ensures Modest(p, CheckEol(p, h, c, version), if c == QUESTION then 1 else 0, 1)
  {
    hide Links, TotalLength;
  }

  /**
    A request that asks for at most 75 fragments and has half as many characters as the data
    holds stays inside both tables.
  */
  lemma {:induction false} SmallRequestStays(p: Parser, inputs: seq<Input>)
    requires WfParser(p) && Used(p) + 2 * |inputs| <= MAX_HEADER_LEN
    requires |p.st.frags| + Openings(p, inputs) <= MAX_FRAGS
    ensures !Run(p, inputs).Overflow?
    decreases |inputs|
  {
    if inputs != [] {
      var i := inputs[0];
      OverflowExactly(p, i.c, i.look, i.version);
      StepModest(p, i);
      StepUsable(p, i.c, i.look, i.version);
      HeldIsUsed(p, i);
      hide WfParser, Step;
      var r := Step(p, i.c, i.look, i.version);
      if r.More? { SmallRequestStays(r.p, inputs[1..]); }
    }
  }

  lemma HeldIsUsed(p: Parser, i: Input)
    requires p.state.Token? ==> p.state.h <= REFERER
    ensures p.state.Token? ==> |p.st.data| + GivenBack(p, i.c) + HeldDot(p) <= Used(p)
  {}

  // What a reader of the text can count: ends of known names, question marks and percent signs.
  function Marks(inputs: seq<Input>): nat { if inputs == [] then 0 else Mark(inputs[0]) + Marks(inputs[1..]) }

  function Mark(i: Input): nat { if i.look.Known? || i.c == QUESTION || i.c == PERCENT then 1 else 0 }

  function Escaping(p: Parser): nat { if p.ues == EscIdle then 0 else 1 }

  /** Path squashing neither starts nor ends an escape. */
  lemma PathEscape(p: Parser, h: nat, c: byte, version: int)
    requires WfParser(p) && h <= REFERER
    ensures var r := PathChar(p, h, c, version); r.More? ==> r.p.ues == p.ues
  {
    hide Links, TotalLength, BackUp, Put, StartArgs;
  }

  lemma StepMarks(p: Parser, i: Input)
    requires WfParser(p)
    ensures var r := Step(p, i.c, i.look, i.version);
      Opens(p, i) + (if r.More? then Escaping(r.p) else 0) <= Mark(i) + Escaping(p)
  {
    hide Links, TotalLength, Put, StartArgs, StartFragment, PathChar;
    if p.state.Token? && p.state.h <= POST_URI && i.c != SPACE {
      var h, c, version := p.state.h, i.c, i.version;
      var d := Decoded(p, c);
      PathEscape(p, h, c, version);
      PathEscape(p.(ues := EscIdle), h, d, version);
      if !Full(p.st) {
        PutWf(p.st, PERCENT);
        PathEscape(p.(st := Put(p.st, PERCENT), ues := EscIdle), h, c, version);
      }
      if p.ues == SeenPercentH1 && Hex(c) < 0 {
        PutIfRoomWf(p.st, PERCENT);
        var p1 := p.(st := PutIfRoom(p.st, PERCENT), ues := EscIdle);
        DigitStays(p1, h, p.stash, version);
        var r := PathChar(p1, h, p.stash, version);
        if r.More? { PathEscape(r.p, h, c, version); }
      }
    }
  }

  /** A request asks for no more fragments than it has such marks. */
  lemma {:induction false} OpeningsAreMarked(p: Parser, inputs: seq<Input>)
    requires WfParser(p)
    ensures Openings(p, inputs) <= Marks(inputs) + Escaping(p)
    decreases |inputs|
  {
    if inputs != [] {
      var i := inputs[0];
      StepMarks(p, i);
      hide WfParser, Step, Opens, Mark;
      var r := Step(p, i.c, i.look, i.version);
      if r.More? && WfParser(r.p) { OpeningsAreMarked(r.p, inputs[1..]); }
    }
  }

  /**
    So a new request of at most 5120 characters with at most 75 known names, question marks and
    percent signs is safe.
  */
  lemma MarkedRequestStays(inputs: seq<Input>)
    requires Marks(inputs) < MAX_FRAGS && 2 * |inputs| <= MAX_HEADER_LEN
    ensures WfParser(START) && !Run(START, inputs).Overflow?
  {
    StartsInOrder();
    OpeningsAreMarked(START, inputs);
    SmallRequestStays(START, inputs);
  }
}
