/**
  Which text a request leaves under each header: the lines of a request against the values
  read back from the store, on the text alone.
*/
module HeaderValues {
  import opened Bytes
  import opened HeaderStore
  import opened HeaderRuns

  // --------------------------------------------------------------- the store, in closed form

  /** st with w as one more fragment of header n, not terminated yet. */
  function Opening(st: Store, n: nat, w: seq<byte>): Store
    requires Links(st) && n < TOKEN_COUNT
  {
    var i, f := |st.frags|, Frag(|st.data|, |w|, 0);
    if st.heads[n] == 0 then Store(st.frags + [f], st.data + w, st.heads[n := i])
    else
      var e := ChainEnd(st, st.heads[n]);
      Store(st.frags[e := st.frags[e].(next := i)] + [f], st.data + w, st.heads)
  }

  /** The same behind its terminator. */
  function Closing(st: Store, n: nat, w: seq<byte>): Store
    requires Links(st) && n < TOKEN_COUNT
  {
    Opening(st, n, w).(data := st.data + w + [0])
  }

  lemma StartOpens(st: Store, n: nat)
    requires Links(st) && n < TOKEN_COUNT && |st.frags| < MAX_FRAGS && !Full(st)
    ensures StartFragment(st, n) == Filed(Opening(st, n, if st.heads[n] == 0 then [] else [SPACE]))
  {
    if st.heads[n] == 0 { assert st.data + [] == st.data; }
  }

  lemma PutOpens(st: Store, n: nat, w: seq<byte>, c: byte)
    requires Links(st) && n < TOKEN_COUNT
    ensures Put(Opening(st, n, w), c) == if c != 0 then Opening(st, n, w + [c]) else Closing(st, n, w)
  {
    hide Links;
    assert st.data + w + [c] == st.data + (w + [c]);
  }

  /** The chain from m, which the new fragment does not continue, reads as before. */
  lemma {:induction false} TextStays(st: Store, st1: Store, m: nat)
    requires Links(st) && AllSolid(st) && Links(st1) && AllSolid(st1) && m < |st.frags| <= |st1.frags|
    requires st.data <= st1.data && forall i :: i in Chain(st, m) ==> i < |st.frags| && st1.frags[i] == st.frags[i]
    ensures Text(st1, m) == Text(st, m)
    decreases |st.frags| - m
  {
    if m != 0 {
      assert m in Chain(st, m);
      PieceStays(st, st1, m);
      var next := st.frags[m].next;
      if next != 0 {
        forall i | i in Chain(st, next)
          ensures i < |st.frags| && st1.frags[i] == st.frags[i]
        {
          assert i in Chain(st, m);
        }
        TextStays(st, st1, next);
      }
    }
  }

  lemma PieceStays(st: Store, st1: Store, m: nat)
    requires AllSolid(st) && 0 < m < |st.frags| <= |st1.frags| && st.data <= st1.data && st1.frags[m] == st.frags[m]
    ensures Solid(st, m) && st.frags[m].offset + st.frags[m].len <= |st1.data| && Piece(st1, m) == Piece(st, m)
  {
    var f := st.frags[m];
    assert Solid(st, m);
    assert st1.data[f.offset..f.offset + f.len] == st.data[f.offset..f.offset + f.len];
  }

  /** The chain the new fragment ends reads on with it. */
  lemma {:induction false} TextGrows(st: Store, st1: Store, m: nat, e: nat, w: seq<byte>)
    requires Links(st) && AllSolid(st) && Links(st1) && AllSolid(st1) && 0 < m < |st.frags|
    requires e == ChainEnd(st, m) && |st1.frags| == |st.frags| + 1
    requires st1.frags[..|st.frags|] == st.frags[e := st.frags[e].(next := |st.frags|)]
    requires st1.frags[|st.frags|] == Frag(|st.data|, |w|, 0) && st.data + w <= st1.data
    ensures Text(st1, m) == Text(st, m) + w
    decreases |st.frags| - m
  {
    assert Solid(st, m);
    var f, i := st.frags[m], |st.frags|;
    assert st1.frags[m] == st1.frags[..i][m];
    assert Piece(st1, m) == Piece(st, m) by {
      assert st1.data[f.offset..f.offset + f.len] == st.data[f.offset..f.offset + f.len];
    }
    if m == e {
      NewPiece(st, st1, w);
    } else {
      TextGrows(st, st1, f.next, e, w);
      assert Piece(st, m) + (Text(st, f.next) + w) == Piece(st, m) + Text(st, f.next) + w;
    }
  }

  lemma NewPiece(st: Store, st1: Store, w: seq<byte>)
    requires st.frags != [] && Links(st1) && AllSolid(st1) && |st1.frags| == |st.frags| + 1
    requires st1.frags[|st.frags|] == Frag(|st.data|, |w|, 0) && st.data + w <= st1.data
    ensures Text(st1, |st.frags|) == w
  {
    assert Piece(st1, |st.frags|) == w && w + [] == w;
  }

  lemma {:induction false} EndInChain(st: Store, m: nat)
    requires Links(st) && 0 < m < |st.frags|
    ensures ChainEnd(st, m) in Chain(st, m)
    decreases |st.frags| - m
  {
    if st.frags[m].next != 0 { EndInChain(st, st.frags[m].next); }
  }

  /** Header n has gained w, every other header is as it was. */
  lemma ClosingTexts(st: Store, n: nat, w: seq<byte>, h: nat)
    requires Links(st) && AllSolid(st) && n < TOKEN_COUNT && h < TOKEN_COUNT
    requires Links(Closing(st, n, w)) && AllSolid(Closing(st, n, w))
    ensures var st1 := Closing(st, n, w);
      && Text(st1, st1.heads[h]) == Text(st, st.heads[h]) + (if h == n then w else [])
      && (h != n ==> st1.heads[h] == st.heads[h]) && (h == n ==> st1.heads[h] != 0)
  {
    var st1, m := Closing(st, n, w), st.heads[h];
    assert Text(st, m) + [] == Text(st, m);
    if h != n {
      forall k | k in Chain(st, m) ensures k < |st.frags| && st1.frags[k] == st.frags[k] {
        if m != 0 { ChainIncreases(st, m); }
        if st.heads[n] != 0 && k == ChainEnd(st, st.heads[n]) {
          EndInChain(st, st.heads[n]);
          ChainsDisjoint(st, h, n, k);
        }
      }
      TextStays(st, st1, m);
    } else if m == 0 {
      assert |st.frags| > 0;
      NewPiece(st, st1, w);
      assert [] + w == w;
    } else {
      TextGrows(st, st1, m, ChainEnd(st, m), w);
    }
  }

  // ------------------------------------------------------------------ one header line

  /** Without the spaces in front. */
  function Trimmed(v: seq<byte>): seq<byte> { if v != [] && v[0] == SPACE then Trimmed(v[1..]) else v }

  function NoSpaces(v: seq<byte>): seq<byte> {
    if v == [] then [] else (if v[0] == SPACE then [] else [v[0]]) + NoSpaces(v[1..])
  }

  /**
    What a header gains by a line: the value without leading spaces if it is the first; later
    ones follow a space and are taken as they are, but without any space if the first was empty.
  */
  function Gained(st: Store, n: nat, v: seq<byte>): seq<byte>
    requires n < |st.heads| && st.heads[n] < |st.frags|
  {
    if st.heads[n] == 0 then Trimmed(v)
    else [SPACE] + if st.frags[st.heads[n]].len == 0 then NoSpaces(v) else v
  }

  /** The text of a header value: no NUL, and nothing that ends it. */
  predicate Inert(v: seq<byte>) { 0 !in v && CR !in v && QUESTION !in v }

  /** Headers whose values are filed as they come. */
  predicate Simple(n: nat) { POST_URI < n <= REFERER && n != CHALLENGE && n != SWORIGIN }

  /** Reading the value of header n, of which w is filed on top of st. */
  ghost predicate Gathers(p: Parser, st: Store, n: nat, w: seq<byte>) {
    && Links(st) && n <= REFERER && st.heads[n] < |st.frags| && p.state == Token(n) && p.st == Opening(st, n, w)
    && WfParser(p) && Tiled(p.st, true) && |p.st.frags| > 1
  }

  lemma GathersMore(p: Parser, st: Store, n: nat, w: seq<byte>, c: byte)
    requires Gathers(p, st, n, w) && c != 0 && !Full(p.st)
    ensures Put(p.st, c) == Opening(st, n, w + [c])
    ensures Gathers(p.(st := Opening(st, n, w + [c])), st, n, w + [c])
  {
    PutOpens(st, n, w, c);
    PutWf(p.st, c);
    PutTiled(p.st, c);
    PutSize(p.st, c);
    hide Links, Tiled, Put, Opening;
  }

  /** Whether the parser passes over spaces at this point. */
  predicate Skips(st: Store, n: nat, w: seq<byte>)
    requires n < |st.heads| && st.heads[n] < |st.frags|
  {
    if st.heads[n] == 0 then w == [] else st.frags[st.heads[n]].len == 0
  }

  lemma HeadLength(st: Store, n: nat, w: seq<byte>)
    requires Links(st) && n < TOKEN_COUNT && Links(Opening(st, n, w))
    ensures var st1 := Opening(st, n, w);
      st1.heads[n] < |st1.frags| && (st1.frags[st1.heads[n]].len == 0 <==> Skips(st, n, w))
  {}

  /** One character of a plain value. */
  lemma ValueStep(p: Parser, st: Store, n: nat, w: seq<byte>, c: byte)
    requires Gathers(p, st, n, w) && Simple(n) && c != CR && c != QUESTION && !Full(p.st)
    ensures Step(p, c, Partial, 0)
      == if c == SPACE && Skips(st, n, w) then More(p) else More(p.(st := Put(p.st, c)))
  {
    HeadLength(st, n, w);
    hide Links, Tiled, Put, Opening;
  }

  lemma PlainFirst(v: seq<byte>)
    requires v != []
    ensures Plain(v) == [Input(v[0], Partial, 0)] + Plain(v[1..])
  {}

  /** What is filed when v follows w. */
  function FiledOn(st: Store, n: nat, w: seq<byte>, v: seq<byte>): seq<byte>
    requires n < |st.heads| && st.heads[n] < |st.frags|
    decreases |v|
  {
    if v == [] then w
    else if v[0] == SPACE && Skips(st, n, w) then FiledOn(st, n, w, v[1..])
    else FiledOn(st, n, w + [v[0]], v[1..])
  }

  lemma {:induction false} ValueRun(p: Parser, st: Store, n: nat, w: seq<byte>, v: seq<byte>)
    requires Gathers(p, st, n, w) && Simple(n) && Inert(v) && |st.data| + |w| + |v| < MAX_HEADER_LEN
    ensures var w1 := FiledOn(st, n, w, v); var p1 := p.(st := Opening(st, n, w1));
      Gathers(p1, st, n, w1) && Run(p, Plain(v)) == More(p1) && |w1| <= |w| + |v|
    decreases |v|
  {
    if v != [] {
      assert !Full(p.st) by { OpeningSize(st, n, w); }
      hide Run, Links, Tiled, Put, Opening, Step;
      assert v[0] in v && Inert(v[1..]);
      PlainFirst(v);
      ValueStep(p, st, n, w, v[0]);
      RunFirst(p, Input(v[0], Partial, 0), Plain(v[1..]));
      if v[0] == SPACE && Skips(st, n, w) {
        ValueRun(p, st, n, w, v[1..]);
      } else {
        GathersMore(p, st, n, w, v[0]);
        ValueRun(p.(st := Opening(st, n, w + [v[0]])), st, n, w + [v[0]], v[1..]);
      }
    }
  }

  lemma OpeningSize(st: Store, n: nat, w: seq<byte>)
    requires Links(st) && n < TOKEN_COUNT
    ensures |Opening(st, n, w).data| == |st.data| + |w|
  {}

  lemma {:induction false} FiledIs(st: Store, n: nat, w: seq<byte>, v: seq<byte>)
    requires n < |st.heads| && st.heads[n] < |st.frags|
    ensures FiledOn(st, n, w, v) == w
      + (if !Skips(st, n, w) then v else if st.heads[n] == 0 then Trimmed(v) else NoSpaces(v))
    decreases |v|
  {
    if v == [] {
      assert w + [] == w;
    } else {
      assert v == [v[0]] + v[1..];
      if v[0] == SPACE && Skips(st, n, w) {
        FiledIs(st, n, w, v[1..]);
        assert [] + NoSpaces(v[1..]) == NoSpaces(v[1..]);
      } else {
        FiledIs(st, n, w + [v[0]], v[1..]);
        assert w + [v[0]] + v[1..] == w + v;
        assert w + [v[0]] + NoSpaces(v[1..]) == w + ([v[0]] + NoSpaces(v[1..]));
      }
    }
  }

  // Name, colon and value of a line, as the name table answers.
  datatype Line = Line(name: seq<byte>, n: HeaderToken, value: seq<byte>)

  function LineInputs(l: Line): seq<Input>
    requires l.name != []
  {
    Named(l.name, Known(l.n)) + (Plain(l.value) + Plain([CR, LF]))
  }

  /** Between lines, with everything closed. */
  ghost predicate Ready(p: Parser) { WfParser(p) && p.state == NamePart && Tiled(p.st, false) }

  lemma ReadyReads(p: Parser)
    requires Ready(p)
    ensures Links(p.st) && AllSolid(p.st)
  {
    ClosedIsReadable(p.st, 0);
  }

  lemma NameStep(p: Parser, c: byte, n: nat)
    requires Ready(p) && Simple(n) && |p.st.frags| < MAX_FRAGS && !Full(p.st)
    ensures var w := if p.st.heads[n] == 0 then [] else [SPACE];
      var p1 := p.(state := Token(n), st := Opening(p.st, n, w));
      Step(p, c, Known(n), 0) == More(p1) && Gathers(p1, p.st, n, w)
  {
    StartOpens(p.st, n);
    StartFragmentOpens(p.st, n);
    assert p.st.heads[n] < |p.st.frags|;
    hide Links, Tiled, Opening, StartFragment;
  }

  /** The name of a header opens a fragment. */
  lemma NameOpens(p: Parser, name: seq<byte>, n: nat)
    requires Ready(p) && Simple(n) && name != [] && |p.st.frags| < MAX_FRAGS && !Full(p.st)
    ensures var w := if p.st.heads[n] == 0 then [] else [SPACE];
      var p1 := p.(state := Token(n), st := Opening(p.st, n, w));
      Run(p, Named(name, Known(n))) == More(p1) && Gathers(p1, p.st, n, w)
  {
    var first, last := name[..|name| - 1], name[|name| - 1];
    NameStep(p, last, n);
    PartialName(p, first);
    hide Run, Links, Tiled, Opening, Step, WfParser, Gathers;
    RunAppend(p, Plain(first), [Input(last, Known(n), 0)]);
    RunOne(p, Input(last, Known(n), 0));
  }

  lemma CrStep(p: Parser, st: Store, n: nat, w: seq<byte>)
    requires Gathers(p, st, n, w) && Simple(n) && !Full(p.st)
    ensures Step(p, CR, Partial, 0) == More(p.(state := SkippingSawCr, st := Closing(st, n, w)))
    ensures Ready(p.(state := NamePart, st := Closing(st, n, w)))
  {
    HeadLength(st, n, w);
    PutOpens(st, n, w, 0);
    PutTiled(p.st, 0);
    PutWf(p.st, 0);
    hide Links, Tiled, Put, Opening, Closing;
  }

  /** The end of a line closes it. */
  lemma LineCloses(p: Parser, st: Store, n: nat, w: seq<byte>)
    requires Gathers(p, st, n, w) && Simple(n) && !Full(p.st)
    ensures var p1 := p.(state := NamePart, st := Closing(st, n, w));
      Run(p, Plain([CR, LF])) == More(p1) && Ready(p1)
  {
    CrStep(p, st, n, w);
    var p1 := p.(state := SkippingSawCr, st := Closing(st, n, w));
    assert WfParser(p1) && Step(p1, LF, Partial, 0) == More(p1.(state := NamePart));
    hide Links, Tiled, Put, Closing, Run, WfParser, Step;
    RunTwo(p, Input(CR, Partial, 0), Input(LF, Partial, 0));
    assert Plain([CR, LF]) == [Input(CR, Partial, 0), Input(LF, Partial, 0)];
  }

  /** A whole line, in terms of the store. */
  lemma LineFiled(p: Parser, l: Line)
    requires Ready(p) && Simple(l.n) && l.name != [] && Inert(l.value)
    requires |p.st.frags| < MAX_FRAGS && |p.st.data| + |l.value| + 2 <= MAX_HEADER_LEN
    ensures var p1 := p.(st := Closing(p.st, l.n, Gained(p.st, l.n, l.value)));
      Run(p, LineInputs(l)) == More(p1) && Ready(p1)
  {
    var w := if p.st.heads[l.n] == 0 then [] else [SPACE];
    NameOpens(p, l.name, l.n);
    var p1 := p.(state := Token(l.n), st := Opening(p.st, l.n, w));
    ValueRun(p1, p.st, l.n, w, l.value);
    FiledIs(p.st, l.n, w, l.value);
    var w1 := Gained(p.st, l.n, l.value);
    assert FiledOn(p.st, l.n, w, l.value) == w1;
    var p2 := p1.(st := Opening(p.st, l.n, w1));
    assert !Full(p2.st) by { OpeningSize(p.st, l.n, w1); }
    LineCloses(p2, p.st, l.n, w1);
    hide Links, Tiled, Opening, Run, WfParser, Gained;
    RunAppend(p1, Plain(l.value), Plain([CR, LF]));
    RunAppend(p, Named(l.name, Known(l.n)), Plain(l.value) + Plain([CR, LF]));
  }

  /**
    The value law: after a line the header reads as its value, or for a repeated header as the old
    text, a space and the value; every other header reads as before.
  */
  lemma LineReadsBack(p: Parser, l: Line, h: nat)
    requires Ready(p) && Simple(l.n) && l.name != [] && Inert(l.value) && h < TOKEN_COUNT
    requires |p.st.frags| < MAX_FRAGS && |p.st.data| + |l.value| + 2 <= MAX_HEADER_LEN
    ensures Links(p.st) && AllSolid(p.st)
    ensures var r := Run(p, LineInputs(l));
      && r.More? && Ready(r.p) && Links(r.p.st) && AllSolid(r.p.st)
      && Text(r.p.st, r.p.st.heads[h])
        == Text(p.st, p.st.heads[h]) + (if h == l.n then Gained(p.st, l.n, l.value) else [])
      && (r.p.st.heads[h] == 0 <==> p.st.heads[h] == 0 && h != l.n)
  {
    LineFiled(p, l);
    ReadyReads(p);
    ReadyReads(Run(p, LineInputs(l)).p);
    ClosingTexts(p.st, l.n, Gained(p.st, l.n, l.value), h);
  }

  // ---------------------------------------------------------------- all header lines

  function Lines(ls: seq<Line>): seq<Input>
    requires forall i :: 0 <= i < |ls| ==> ls[i].name != []
  {
    if ls == [] then [] else LineInputs(ls[0]) + Lines(ls[1..])
  }

  function Size(ls: seq<Line>): nat { if ls == [] then 0 else |ls[0].value| + 2 + Size(ls[1..]) }

  predicate Plainly(ls: seq<Line>) {
    forall i :: 0 <= i < |ls| ==> Simple(ls[i].n) && ls[i].name != [] && Inert(ls[i].value)
  }

  predicate HasRoom(st: Store, ls: seq<Line>) {
    |st.frags| + |ls| <= MAX_FRAGS && |st.data| + Size(ls) <= MAX_HEADER_LEN
  }

  /** The values the lines give header h, in order. */
  function ValuesOf(ls: seq<Line>, h: nat): seq<seq<byte>> {
    if ls == [] then []
    else
      var k := |ls| - 1; ValuesOf(ls[..k], h) + if ls[k].n == h then [ls[k].value] else []
  }

  /** The values of one header as they read back. */
  function Joined(vs: seq<seq<byte>>): seq<byte> {
    if vs == [] then []
    else if |vs| == 1 then Trimmed(vs[0])
    else
      var k := |vs| - 1; Joined(vs[..k]) + [SPACE] + if Trimmed(vs[0]) == [] then NoSpaces(vs[k]) else vs[k]
  }

  /** Header h of the store holds these values. */
  ghost predicate Holds(st: Store, h: nat, vs: seq<seq<byte>>)
    requires Links(st) && AllSolid(st) && h < TOKEN_COUNT
  {
    && Text(st, st.heads[h]) == Joined(vs) && (st.heads[h] == 0 <==> vs == [])
    && (vs != [] ==> (st.frags[st.heads[h]].len == 0 <==> Trimmed(vs[0]) == []))
  }

  /** Between lines, header h reads as these values. */
  ghost predicate Reads(p: Parser, h: nat, vs: seq<seq<byte>>)
    requires h < TOKEN_COUNT
  {
    Ready(p) && Links(p.st) && AllSolid(p.st) && Holds(p.st, h, vs)
  }

  lemma JoinMore(vs: seq<seq<byte>>, v: seq<byte>)
    requires vs != []
    ensures Joined(vs + [v]) == Joined(vs) + ([SPACE] + if Trimmed(vs[0]) == [] then NoSpaces(v) else v)
  {
    assert (vs + [v])[..|vs|] == vs;
  }

  lemma ClosingHolds(st: Store, n: nat, v: seq<byte>, h: nat, vs: seq<seq<byte>>)
    requires Links(st) && AllSolid(st) && n < TOKEN_COUNT && h < TOKEN_COUNT && Holds(st, h, vs)
    requires var st1 := Closing(st, n, Gained(st, n, v)); Links(st1) && AllSolid(st1)
    ensures Holds(Closing(st, n, Gained(st, n, v)), h, if h == n then vs + [v] else vs)
  {
    ClosingTexts(st, n, Gained(st, n, v), h);
    FirstLength(st, n, Gained(st, n, v), h);
    hide Links, AllSolid, Closing, Text, Joined;
    assert Text(st, st.heads[h]) + [] == Text(st, st.heads[h]);
    if h == n {
      if vs != [] { JoinMore(vs, v); } else { OneValue(v); }
    }
  }

  lemma OneValue(v: seq<byte>)
    ensures [] + [v] == [v] && Joined([v]) == Trimmed(v) == [] + Trimmed(v) && Joined([]) == []
  {}

  lemma LineHolds(p: Parser, l: Line, h: nat, vs: seq<seq<byte>>)
    requires h < TOKEN_COUNT && Reads(p, h, vs) && Simple(l.n) && l.name != [] && Inert(l.value)
    requires |p.st.frags| < MAX_FRAGS && |p.st.data| + |l.value| + 2 <= MAX_HEADER_LEN
    ensures var r := Run(p, LineInputs(l)); r.More? && Reads(r.p, h, if h == l.n then vs + [l.value] else vs)
  {
    LineFiled(p, l);
    ReadyReads(Run(p, LineInputs(l)).p);
    ClosingHolds(p.st, l.n, l.value, h, vs);
  }

  lemma FirstLength(st: Store, n: nat, w: seq<byte>, h: nat)
    requires Links(st) && n < TOKEN_COUNT && h < TOKEN_COUNT
    ensures var st1 := Closing(st, n, w);
      && st1.heads[h] < |st1.frags|
      && (h != n ==> st1.heads[h] == st.heads[h])
      && (st.heads[h] != 0 ==> st1.frags[st1.heads[h]].len == st.frags[st.heads[h]].len)
      && (h == n && st.heads[h] == 0 ==> st1.frags[st1.heads[h]].len == |w|)
  {}

  /**
    After any lines with simple headers, in any order and repeated at will, every header that was not
    there before reads as the values its lines gave it, and every other header as before.
  */
  lemma {:induction false} LinesReadBack(p: Parser, before: seq<Line>, ls: seq<Line>, h: nat)
    requires h < TOKEN_COUNT && Reads(p, h, ValuesOf(before, h)) && Plainly(ls) && HasRoom(p.st, ls)
    ensures var r := Run(p, Lines(ls)); r.More? && Reads(r.p, h, ValuesOf(before + ls, h))
    decreases |ls|
  {
    hide *;
    ReadsReady(p, h, ValuesOf(before, h));
    if ls == [] {
      assert before + ls == before;
      NoLines(p);
    } else {
      var l := ls[0];
      FirstIsPlain(ls);
      LineRoom(p, ls);
      LineHolds(p, l, h, ValuesOf(before, h));
      ValuesSnoc(before, l, h);
      assert before + [l] + ls[1..] == before + ls;
      var p1 := Run(p, LineInputs(l)).p;
      LinesReadBack(p1, before + [l], ls[1..], h);
      ReadsReady(p1, h, ValuesOf(before + [l], h));
      LinesSplit(p, p1, ls);
    }
  }

  lemma NoLines(p: Parser)
    requires WfParser(p)
    ensures Run(p, Lines([])) == More(p)
  {}

  lemma ReadsReady(p: Parser, h: nat, vs: seq<seq<byte>>)
    requires h < TOKEN_COUNT && Reads(p, h, vs)
    ensures Ready(p) && WfParser(p)
  {
    hide Links, AllSolid, Holds;
  }

  lemma FirstIsPlain(ls: seq<Line>)
    requires Plainly(ls) && ls != []
    ensures Plainly(ls[1..]) && Simple(ls[0].n) && ls[0].name != [] && Inert(ls[0].value)
  {}

  lemma ValuesSnoc(before: seq<Line>, l: Line, h: nat)
    ensures ValuesOf(before + [l], h) == if h == l.n then ValuesOf(before, h) + [l.value] else ValuesOf(before, h)
  {
    assert (before + [l])[..|before|] == before;
  }

  lemma LinesSplit(p: Parser, p1: Parser, ls: seq<Line>)
    requires ls != [] && Plainly(ls) && Ready(p) && Ready(p1) && Run(p, LineInputs(ls[0])) == More(p1)
    ensures Run(p, Lines(ls)) == Run(p1, Lines(ls[1..]))
  {
    hide Run, LineInputs, Links, Tiled;
    RunAppend(p, LineInputs(ls[0]), Lines(ls[1..]));
  }

  /** A line takes one fragment and at most two more characters than its value. */
  lemma LineRoom(p: Parser, ls: seq<Line>)
    requires ls != [] && Ready(p) && Plainly(ls) && HasRoom(p.st, ls)
    ensures |p.st.frags| < MAX_FRAGS && |p.st.data| + |ls[0].value| + 2 <= MAX_HEADER_LEN
    ensures Run(p, LineInputs(ls[0])).More? && HasRoom(Run(p, LineInputs(ls[0])).p.st, ls[1..])
  {
    LineFiled(p, ls[0]);
    GainedSize(p.st, ls[0].n, ls[0].value);
    hide Run, LineInputs, Links, Gained, Ready;
  }

  lemma GainedSize(st: Store, n: nat, v: seq<byte>)
    requires Links(st) && n < TOKEN_COUNT
    ensures |Gained(st, n, v)| <= |v| + 1
    ensures var st1 := Closing(st, n, Gained(st, n, v));
      |st1.frags| == |st.frags| + 1 && |st1.data| == |st.data| + |Gained(st, n, v)| + 1
  {
    TrimmedSize(v);
  }

  lemma {:induction false} TrimmedSize(v: seq<byte>)
    ensures |Trimmed(v)| <= |v| && |NoSpaces(v)| <= |v|
  {
    if v != [] { TrimmedSize(v[1..]); }
  }

  /** The lines of a request from a table that holds none of header h. */
  lemma RequestReadsBack(p: Parser, ls: seq<Line>, h: nat)
    requires Ready(p) && Plainly(ls) && HasRoom(p.st, ls) && h < TOKEN_COUNT && p.st.heads[h] == 0
    ensures var r := Run(p, Lines(ls));
      && r.More? && Ready(r.p) && Links(r.p.st) && AllSolid(r.p.st)
      && Text(r.p.st, r.p.st.heads[h]) == Joined(ValuesOf(ls, h)) && (r.p.st.heads[h] == 0 <==> ValuesOf(ls, h) == [])
  {
    ReadyReads(p);
    assert Reads(p, h, ValuesOf([], h));
    LinesReadBack(p, [], ls, h);
    assert [] + ls == ls;
  }

  // ----------------------------------------------------------- lines that leave no text

  /** JWebSocket's name for Origin is filed as Origin. */
  lemma OriginByAnotherName(p: Parser, name: seq<byte>)
    requires Ready(p) && name != []
    ensures Run(p, Named(name, Known(SWORIGIN))) == Run(p, Named(name, Known(ORIGIN)))
  {
    var first, last := name[..|name| - 1], name[|name| - 1];
    PartialName(p, first);
    assert Step(p, last, Known(SWORIGIN), 0) == Step(p, last, Known(ORIGIN), 0);
    hide Run, Step, Tiled, Links;
    RunAppend(p, Plain(first), [Input(last, Known(SWORIGIN), 0)]);
    RunAppend(p, Plain(first), [Input(last, Known(ORIGIN), 0)]);
    RunOne(p, Input(last, Known(SWORIGIN), 0));
    RunOne(p, Input(last, Known(ORIGIN), 0));
  }

  /** A method or header asked for before. */
  predicate HasMethod(st: Store)
    requires |st.heads| == TOKEN_COUNT
  {
    st.heads[GET_URI] != 0 || st.heads[POST_URI] != 0 || st.heads[HTTP] != 0
  }

  lemma {:induction false} Skips1(p: Parser, v: seq<byte>)
    requires WfParser(p) && p.state == Skipping && CR !in v
    ensures Run(p, Plain(v)) == More(p)
    decreases |v|
  {
    if v != [] {
      assert v[0] in v && Step(p, v[0], Partial, 0) == More(p);
      hide WfParser, Step, Run;
      PlainFirst(v);
      RunFirst(p, Input(v[0], Partial, 0), Plain(v[1..]));
      Skips1(p, v[1..]);
    }
  }

  lemma SkipEnds(p: Parser)
    requires WfParser(p) && p.state == Skipping
    ensures Run(p, Plain([CR, LF])) == More(p.(state := NamePart))
  {
    var p1 := p.(state := SkippingSawCr);
    assert Step(p, CR, Partial, 0) == More(p1) && Step(p1, LF, Partial, 0) == More(p.(state := NamePart));
    hide WfParser, Step, Run;
    RunTwo(p, Input(CR, Partial, 0), Input(LF, Partial, 0));
    assert Plain([CR, LF]) == [Input(CR, Partial, 0), Input(LF, Partial, 0)];
  }

  /**
    A line whose name is not known is skipped behind a method line, whatever it holds, and the
    store is as before; without one the parse fails at the name.
  */
  lemma UnknownLine(p: Parser, name: seq<byte>, v: seq<byte>)
    requires Ready(p) && name != [] && CR !in v
    ensures !HasMethod(p.st) ==> Run(p, Named(name, Unknown)) == Failed
    ensures HasMethod(p.st) ==> Run(p, Named(name, Unknown) + (Plain(v) + Plain([CR, LF]))) == More(p)
  {
    var first, last := name[..|name| - 1], name[|name| - 1];
    var p1 := p.(state := Skipping);
    PartialName(p, first);
    assert Step(p, last, Unknown, 0) == if HasMethod(p.st) then More(p1) else Failed;
    assert WfParser(p1);
    hide Run, Step, Tiled, Links;
    RunAppend(p, Plain(first), [Input(last, Unknown, 0)]);
    RunOne(p, Input(last, Unknown, 0));
    if HasMethod(p.st) {
      Skips1(p1, v);
      SkipEnds(p1);
      RunAppend(p1, Plain(v), Plain([CR, LF]));
      RunAppend(p, Named(name, Unknown), Plain(v) + Plain([CR, LF]));
    }
  }

  /** A second GET or POST line fails. */
  lemma SecondMethod(p: Parser, name: seq<byte>, n: nat)
    requires Ready(p) && name != [] && n <= POST_URI && p.st.heads[n] != 0
    ensures Run(p, Named(name, Known(n))) == Failed
  {
    var first, last := name[..|name| - 1], name[|name| - 1];
    PartialName(p, first);
    assert Step(p, last, Known(n), 0) == Failed;
    hide Run, Step, Tiled, Links;
    RunAppend(p, Plain(first), [Input(last, Known(n), 0)]);
    RunOne(p, Input(last, Known(n), 0));
  }

  // -------------------------------------------------------------- the end of the headers

  /** The empty line ends a request that is no upgrade, or one with a version, as it stands. */
  lemma EmptyLineEnds(p: Parser, name: seq<byte>)
    requires Ready(p) && name != []
    requires p.st.heads[UPGRADE] == 0 || HeaderLength(p.st, VERSION) > 0
    ensures Run(p, Named(name, Known(CHALLENGE))) == More(p.(state := Complete))
  {
    var first, last := name[..|name| - 1], name[|name| - 1];
    PartialName(p, first);
    assert Step(p, last, Known(CHALLENGE), 0) == More(p.(state := Complete)) by { hide Tiled; }
    hide Run, Step, Tiled, Links;
    RunAppend(p, Plain(first), [Input(last, Known(CHALLENGE), 0)]);
    RunOne(p, Input(last, Known(CHALLENGE), 0));
  }

  /** An upgrade without a version is followed by the challenge. */
  ghost predicate Challenged(p: Parser, st: Store, w: seq<byte>) {
    && Gathers(p, st, CHALLENGE, w) && AllSolid(st) && st.heads[CHALLENGE] == 0 && HeaderLength(st, VERSION) == 0
  }

  lemma ChallengeOpens(p: Parser, name: seq<byte>)
    requires Ready(p) && name != [] && p.st.heads[CHALLENGE] == 0
    requires HeaderLength(p.st, VERSION) == 0 && HeaderLength(p.st, UPGRADE) > 0 && |p.st.frags| < MAX_FRAGS
      && !Full(p.st)
    ensures var p1 := p.(state := Token(CHALLENGE), st := Opening(p.st, CHALLENGE, []));
      Run(p, Named(name, Known(CHALLENGE))) == More(p1) && Challenged(p1, p.st, [])
  {
    var first, last := name[..|name| - 1], name[|name| - 1];
    ChallengeStarts(p, last);
    PartialName(p, first);
    hide Run, Step, Opening, Challenged, Links, Tiled;
    RunAppend(p, Plain(first), [Input(last, Known(CHALLENGE), 0)]);
    RunOne(p, Input(last, Known(CHALLENGE), 0));
  }

  lemma ChallengeStarts(p: Parser, c: byte)
    requires Ready(p) && p.st.heads[CHALLENGE] == 0
    requires HeaderLength(p.st, VERSION) == 0 && HeaderLength(p.st, UPGRADE) > 0 && |p.st.frags| < MAX_FRAGS
      && !Full(p.st)
    ensures var p1 := p.(state := Token(CHALLENGE), st := Opening(p.st, CHALLENGE, []));
      Step(p, c, Known(CHALLENGE), 0) == More(p1) && Challenged(p1, p.st, [])
  {
    ReadyReads(p);
    StartOpens(p.st, CHALLENGE);
    StartFragmentOpens(p.st, CHALLENGE);
    hide Links, Tiled, AllSolid, Opening, StartFragment;
  }

  lemma ChallengeLength(st: Store, w: seq<byte>)
    requires Links(st) && AllSolid(st) && st.heads[CHALLENGE] == 0 && HeaderLength(st, VERSION) == 0
    requires Links(Opening(st, CHALLENGE, w)) && AllSolid(Opening(st, CHALLENGE, w))
    ensures var st1 := Opening(st, CHALLENGE, w);
      HeaderLength(st1, CHALLENGE) == |w| && HeaderLength(st1, VERSION) == 0
  {
    var st1, m := Opening(st, CHALLENGE, w), st.heads[VERSION];
    forall k | k in Chain(st, m) ensures k < |st.frags| && st1.frags[k] == st.frags[k] {
      if m != 0 { ChainIncreases(st, m); }
    }
    TextStays(st, st1, m);
    TextLength(st, m);
    TextLength(st1, m);
  }

  lemma ChallengedLengths(p: Parser, st: Store, w: seq<byte>)
    requires Challenged(p, st, w)
    ensures HeaderLength(p.st, CHALLENGE) == |w| && HeaderLength(p.st, VERSION) == 0
  {
    assert AllSolid(p.st) by { hide Links, Opening; }
    ChallengeLength(st, w);
  }

  /** So the version asked for there is never looked at. */
  lemma VersionNeverAsked(p: Parser, st: Store, w: seq<byte>, c: byte, version: int)
    requires Challenged(p, st, w) && !Full(p.st) && c != 0 && c != QUESTION
    ensures Step(p, c, Partial, version) == Step(p, c, Partial, 0)
  {
    ChallengedMore(p, st, w, c);
    ChallengedLengths(p.(st := Put(p.st, c)), st, w + [c]);
    hide Links, Tiled, Put, Opening;
  }

  lemma ChallengedMore(p: Parser, st: Store, w: seq<byte>, c: byte)
    requires Challenged(p, st, w) && !Full(p.st) && c != 0
    ensures Put(p.st, c) == Opening(st, CHALLENGE, w + [c])
    ensures Challenged(p.(st := Put(p.st, c)), st, w + [c])
  {
    GathersMore(p, st, CHALLENGE, w, c);
    hide Links, Tiled, Put, Opening;
  }

  /** A byte of the challenge; the eighth completes the request. */
  lemma ChallengeStep(p: Parser, st: Store, w: seq<byte>, c: byte)
    requires Challenged(p, st, w) && !Full(p.st) && c != 0 && c != QUESTION && (w == [] ==> c != SPACE)
    ensures var p1 := p.(st := Opening(st, CHALLENGE, w + [c]));
      && Challenged(p1, st, w + [c])
      && Step(p, c, Partial, 0) == More(if |w| == 7 then p1.(state := Complete) else p1)
  {
    HeadLength(st, CHALLENGE, w);
    ChallengedMore(p, st, w, c);
    ChallengedLengths(p.(st := Put(p.st, c)), st, w + [c]);
    hide Links, Tiled, Put, Opening;
  }

  lemma ChallengeFits(p: Parser, st: Store, w: seq<byte>)
    requires Challenged(p, st, w) && |st.data| + |w| < MAX_HEADER_LEN
    ensures Links(st) && WfParser(p) && !Full(p.st)
  {
    OpeningSize(st, CHALLENGE, w);
  }

  lemma NothingPlain()
    ensures Plain([]) == []
  {}

  lemma {:induction false} ChallengeRun(p: Parser, st: Store, w: seq<byte>, v: seq<byte>)
    requires Challenged(p, st, w) && v != [] && |w| + |v| <= 8 && |st.data| + 8 <= MAX_HEADER_LEN
    requires 0 !in v && QUESTION !in v && (w == [] ==> v[0] != SPACE)
    ensures var p1 := p.(st := Opening(st, CHALLENGE, w + v));
      && Challenged(p1, st, w + v)
      && Run(p, Plain(v)) == More(if |w| + |v| == 8 then p1.(state := Complete) else p1)
    decreases |v|
  {
    hide Run, Challenged, Opening, Step, Plain, Full, WfParser, Links;
    ChallengeFits(p, st, w);
    assert v[0] in v;
    PlainFirst(v);
    ChallengeStep(p, st, w, v[0]);
    if |v| == 1 {
      NothingPlain();
      assert v == [v[0]] && v[1..] == [] && Plain(v) == [Input(v[0], Partial, 0)];
      RunOne(p, Input(v[0], Partial, 0));
    } else {
      RunFirst(p, Input(v[0], Partial, 0), Plain(v[1..]));
      ChallengeRun(p.(st := Opening(st, CHALLENGE, w + [v[0]])), st, w + [v[0]], v[1..]);
      assert w + [v[0]] + v[1..] == w + v;
    }
  }

  /**
    The challenge behind an upgrade without a version is the next eight bytes: the request is
    complete with the eighth, not before, and they are what reads back.
  */
  lemma ChallengeReadsBack(p: Parser, name: seq<byte>, v: seq<byte>)
    requires Ready(p) && name != [] && p.st.heads[CHALLENGE] == 0
    requires HeaderLength(p.st, VERSION) == 0 && HeaderLength(p.st, UPGRADE) > 0 && |p.st.frags| < MAX_FRAGS
      && |p.st.data| + 8 <= MAX_HEADER_LEN
    requires 0 < |v| <= 8 && 0 !in v && QUESTION !in v && v[0] != SPACE
    ensures var r := Run(p, Named(name, Known(CHALLENGE)) + Plain(v));
      && r.More? && (r.p.state == Complete <==> |v| == 8) && Links(r.p.st) && AllSolid(r.p.st)
      && r.p.st.heads[CHALLENGE] != 0 && Text(r.p.st, r.p.st.heads[CHALLENGE]) == v
  {
    ChallengeOpens(p, name);
    var p1 := p.(state := Token(CHALLENGE), st := Opening(p.st, CHALLENGE, []));
    ChallengeRun(p1, p.st, [], v);
    assert [] + v == v;
    RunAppend(p, Named(name, Known(CHALLENGE)), Plain(v)) by { hide Run, Opening, Tiled; }
    var st1 := Opening(p.st, CHALLENGE, v);
    NewPiece(p.st, st1, v);
  }
}
