/**
  From the text of a request to the values of its headers: the bytes of its lines, read through
  the name table, leave the values they give.
*/
module HeaderText {
  import opened Bytes
  import opened LexTrie
  import opened LexTable
  import opened HeaderStore
  import opened HeaderRuns
  import opened HeaderNames
  import opened HeaderValues

  /** The bytes of a line; its name ends in the colon. */
  function LineText(l: Line): seq<byte> { l.name + (l.value + ([CR] + [LF])) }

  function LinesText(ls: seq<Line>): seq<byte> { if ls == [] then [] else LineText(ls[0]) + LinesText(ls[1..]) }

  /** The bytes of a value, whatever atoi makes of a version header. */
  lemma {:induction false} ReadsValue(r: Reader, tb: seq<byte>, atoi: seq<byte> -> int, st: Store, n: nat, w: seq<byte>,
      v: seq<byte>, rest: seq<byte>) returns (q: Parser)
    requires WfParser(r.p) && Gathers(r.p, st, n, w) && Simple(n) && Inert(v) && |st.data| + |w| + |v| < MAX_HEADER_LEN
    ensures WfParser(q) && Run(r.p, Plain(v)) == More(q)
    ensures Read(r, tb, atoi, v + rest) == Read(Reader(q, r.pos), tb, atoi, rest)
    decreases |v|
  {
    hide *;
    if v == [] {
      assert v + rest == rest;
      NothingRun(r.p);
      q := r.p;
    } else {
      InertFirst(v);
      PlainFirst(v);
      var p1, w1 := ReadsByte(r, tb, atoi, st, n, w, v[0], v[1..] + rest);
      assert v + rest == [v[0]] + (v[1..] + rest);
      RunFirst(r.p, Input(v[0], Partial, 0), Plain(v[1..]));
      q := ReadsValue(Reader(p1, r.pos), tb, atoi, st, n, w1, v[1..], rest);
    }
  }

  lemma ReadsByte(r: Reader, tb: seq<byte>, atoi: seq<byte> -> int, st: Store, n: nat, w: seq<byte>, c: byte,
      rest: seq<byte>) returns (p1: Parser, w1: seq<byte>)
    requires WfParser(r.p) && Gathers(r.p, st, n, w) && Simple(n) && c != 0 && c != CR && c != QUESTION
    requires |st.data| + |w| < MAX_HEADER_LEN
    ensures Step(r.p, c, Partial, 0) == More(p1) && WfParser(p1) && Gathers(p1, st, n, w1) && |w1| <= |w| + 1
    ensures Read(r, tb, atoi, [c] + rest) == Read(Reader(p1, r.pos), tb, atoi, rest)
  {
    GathersFits(r.p, st, n, w);
    GathersStep(r.p, st, n, w, c);
    p1 := Step(r.p, c, Partial, 0).p;
    w1 := if c == SPACE && Skips(st, n, w) then w else w + [c];
    hide Read, Step, Gathers, Opening, WfParser;
    ReadOn(r, tb, atoi, c, rest);
  }

  lemma NothingRun(p: Parser)
    requires WfParser(p)
    ensures Run(p, Plain([])) == More(p)
  {}

  lemma InertFirst(v: seq<byte>)
    requires Inert(v) && v != []
    ensures v[0] != 0 && v[0] != CR && v[0] != QUESTION && Inert(v[1..])
  {
    assert v[0] in v && forall c :: c in v[1..] ==> c in v;
  }

  lemma GathersFits(p: Parser, st: Store, n: nat, w: seq<byte>)
    requires Gathers(p, st, n, w) && |st.data| + |w| < MAX_HEADER_LEN
    ensures WfParser(p) && !Full(p.st) && p.state == Token(n) && n < |st.heads| && st.heads[n] < |st.frags|
  {
    OpeningSize(st, n, w);
  }

  lemma GathersStep(p: Parser, st: Store, n: nat, w: seq<byte>, c: byte)
    requires Gathers(p, st, n, w) && Simple(n) && c != 0 && c != CR && c != QUESTION && !Full(p.st)
    ensures var w1 := if c == SPACE && Skips(st, n, w) then w else w + [c];
      Step(p, c, Partial, 0).More? && Gathers(Step(p, c, Partial, 0).p, st, n, w1)
  {
    ValueStep(p, st, n, w, c);
    GathersMore(p, st, n, w, c);
    hide Links, Tiled, Opening, Step, Put;
  }

  /** A known name: the table is asked from its beginning. */
  lemma ReadsLineName(p: Parser, tb: seq<byte>, atoi: seq<byte> -> int, l: Line, rest: seq<byte>) returns (pos: nat)
    requires Ready(p) && Simple(l.n) && l.name != [] && |p.st.frags| < MAX_FRAGS && !Full(p.st)
    requires Asked(tb, 0, l.name) == Named(l.name, Known(l.n))
    ensures var q := Run(p, Named(l.name, Known(l.n)));
      q.More? && WfParser(q.p)
      && Read(Reader(p, 0), tb, atoi, l.name + rest) == Read(Reader(q.p, pos), tb, atoi, rest)
  {
    NameOpens(p, l.name, l.n);
    ReadsName(Reader(p, 0), tb, atoi, l.name, l.n, rest);
    var q := Run(p, Named(l.name, Known(l.n)));
    hide Run, Read, Step, Links, Tiled, Opening;
    pos :| WfParser(q.p) && Read(Reader(p, 0), tb, atoi, l.name + rest) == Read(Reader(q.p, pos), tb, atoi, rest);
  }

  /** The line end brings the parser back to the beginning of the table. */
  lemma ReadsLineEnd(r: Reader, tb: seq<byte>, atoi: seq<byte> -> int, st: Store, n: nat, w: seq<byte>, rest: seq<byte>)
    requires Gathers(r.p, st, n, w) && Simple(n) && !Full(r.p.st)
    ensures var q := Run(r.p, Plain([CR, LF]));
      q.More? && Ready(q.p) && Read(r, tb, atoi, [CR] + ([LF] + rest)) == Read(Reader(q.p, 0), tb, atoi, rest)
  {
    CrStep(r.p, st, n, w);
    LineCloses(r.p, st, n, w);
    var p1 := r.p.(state := SkippingSawCr, st := Closing(st, n, w));
    assert WfParser(p1) && Step(p1, LF, Partial, 0) == More(p1.(state := NamePart));
    assert WfParser(r.p);
    hide Run, Read, Step, Closing, Opening, WfParser, Links, Tiled;
    ReadOn(r, tb, atoi, CR, [LF] + rest);
    ReadOn(Reader(p1, r.pos), tb, atoi, LF, rest);
  }

  /** One line, from its bytes. */
  lemma ReadsLine(p: Parser, tb: seq<byte>, atoi: seq<byte> -> int, l: Line, rest: seq<byte>)
    requires Ready(p) && Simple(l.n) && l.name != [] && Inert(l.value)
      && Asked(tb, 0, l.name) == Named(l.name, Known(l.n))
    requires |p.st.frags| < MAX_FRAGS && |p.st.data| + |l.value| + 2 <= MAX_HEADER_LEN
    ensures var q := Run(p, LineInputs(l));
      q.More? && Ready(q.p) && Read(Reader(p, 0), tb, atoi, LineText(l) + rest) == Read(Reader(q.p, 0), tb, atoi, rest)
  {
    var st, n, v := p.st, l.n, l.value;
    var w := if st.heads[n] == 0 then [] else [SPACE];
    NameOpens(p, l.name, n);
    var p1 := p.(state := Token(n), st := Opening(st, n, w));
    ValueRun(p1, st, n, w, v);
    var w1 := FiledOn(st, n, w, v);
    var p2 := p1.(st := Opening(st, n, w1));
    LineFiled(p, l);
    assert !Full(p2.st) by { OpeningSize(st, n, w1); }
    assert WfParser(p1) && WfParser(p2);
    hide Run, Read, Step, Opening, Gathers, WfParser, Links, Tiled, Ready, FiledOn, Plain, Named;
    var pos := ReadsLineName(p, tb, atoi, l, v + ([CR] + ([LF] + rest)));
    var p3 := ReadsValue(Reader(p1, pos), tb, atoi, st, n, w, v, [CR] + ([LF] + rest));
    ReadsLineEnd(Reader(p2, pos), tb, atoi, st, n, w1, rest);
    RunAppend(p1, Plain(v), Plain([CR, LF]));
    RunAppend(p, Named(l.name, Known(n)), Plain(v) + Plain([CR, LF]));
    TextSplit(l, rest);
  }

  lemma TextSplit(l: Line, rest: seq<byte>)
    ensures LineText(l) + rest == l.name + (l.value + ([CR] + ([LF] + rest)))
  {}

  /** The names are entries of the table's set, in any mix of cases. */
  ghost predicate NamedIn(ls: seq<Line>, words: seq<seq<byte>>) {
    forall i :: 0 <= i < |ls| ==>
      ls[i].n < |words| && words[ls[i].n] != [] && NoCapitals(words[ls[i].n]) && AnyCase(ls[i].name, words[ls[i].n])
  }

  lemma {:induction false} ReadsLines(p: Parser, tb: seq<byte>, atoi: seq<byte> -> int, ls: seq<Line>)
    requires Ready(p) && Plainly(ls) && HasRoom(p.st, ls)
    requires forall i :: 0 <= i < |ls| ==> Asked(tb, 0, ls[i].name) == Named(ls[i].name, Known(ls[i].n))
    ensures Read(Reader(p, 0), tb, atoi, LinesText(ls)) == Parsed(Run(p, Lines(ls)))
    decreases |ls|
  {
    if ls != [] {
      FirstIsPlain(ls);
      LineRoom(p, ls);
      var q := Run(p, LineInputs(ls[0])).p;
      ReadsLine(p, tb, atoi, ls[0], LinesText(ls[1..]));
      hide Run, Read, Ready, LineInputs, LineText, Asked, Plainly, HasRoom;
      LinesSplit(p, q, ls);
      ReadsLines(q, tb, atoi, ls[1..]);
    }
  }

  /**
    The bytes of any header lines, read through the table made for a set of names: whatever the
    case of the names and however often a header comes, it reads as the values its lines gave it.
  */
  lemma TextReadsBack(t: Trie, words: seq<seq<byte>>, p: Parser, atoi: seq<byte> -> int, ls: seq<Line>, h: nat)
    requires Built(t, words) && Targets(t) && AllJumpsFit(t) && NamedIn(ls, words)
    requires Ready(p) && Plainly(ls) && HasRoom(p.st, ls) && h < TOKEN_COUNT && p.st.heads[h] == 0
    ensures var r := Read(Reader(p, 0), Table(t), atoi, LinesText(ls));
      && r.Parsed? && r.result.More? && Ready(r.result.p)
      && var st := r.result.p.st;
        Links(st) && AllSolid(st) && Text(st, st.heads[h]) == Joined(ValuesOf(ls, h))
        && (st.heads[h] == 0 <==> ValuesOf(ls, h) == [])
  {
    hide Read, Run, Table, Built, Targets, StatesFit, Asked, Named, Joined, ValuesOf, HasRoom;
    forall i | 0 <= i < |ls| ensures Asked(Table(t), 0, ls[i].name) == Named(ls[i].name, Known(ls[i].n)) {
      MemberNamed(t, words, ls[i].n, ls[i].name);
    }
    ReadsLines(p, Table(t), atoi, ls);
    RequestReadsBack(p, ls, h);
  }
}
