/**
  What the parser makes of the text of a request's URI: percent escapes undone, slashes and dots
  squashed, the part behind the question mark filed as arguments; and where going up a directory
  goes wrong.
*/
module HeaderUri {
  import opened Bytes
  import opened HeaderStore
  import opened HeaderRuns
  import opened HeaderValues

  // ------------------------------------------------------------------- escapes

  /** The hexadecimal digit of a value in either case. */
  function Digit(v: nat, upper: bool): byte
    requires v < 16
  {
    if v < 10 then '0' as int + v else (if upper then 'A' as int else 'a' as int) + (v - 10)
  }

  // A character of a URI: as it is, or as an escape of section 2.1 of RFC 3986.
  datatype Item = Raw(c: byte) | Escaped(hi: nat, lo: nat, hiUpper: bool, loUpper: bool)

  /** A raw character that ends nothing and escapes nothing, or an escape of two digits. */
  predicate Sound(i: Item) {
    match i
    case Raw(c) => c != SPACE && c != PERCENT
    case Escaped(hi, lo, _, _) => hi < 16 && lo < 16
  }

  function Spelled(i: Item): seq<byte>
    requires Sound(i)
  {
    match i
    case Raw(c) => [c]
    case Escaped(hi, lo, hiUpper, loUpper) => [PERCENT, Digit(hi, hiUpper), Digit(lo, loUpper)]
  }

  function Value(i: Item): byte
    requires Sound(i)
  {
    match i case Raw(c) => c case Escaped(hi, lo, _, _) => 16 * hi + lo
  }

  predicate AllSound(items: seq<Item>) { forall k :: 0 <= k < |items| ==> Sound(items[k]) }

  function Spelling(items: seq<Item>): seq<byte>
    requires AllSound(items)
  {
    if items == [] then [] else Spelled(items[0]) + Spelling(items[1..])
  }

  function Values(items: seq<Item>): seq<byte>
    requires AllSound(items)
  {
    seq(|items|, k requires 0 <= k < |items| => Value(items[k]))
  }

  /** The parser takes exactly these for digits. */
  lemma DigitsExactly(c: byte)
    ensures Hex(c) >= 0 <==> exists v: nat, upper: bool :: v < 16 && c == Digit(v, upper)
  {
    if Hex(c) >= 0 { assert c == Digit(Hex(c), c < 'a' as int); }
  }

  lemma DigitIs(v: nat, upper: bool)
    requires v < 16
    ensures Hex(Digit(v, upper)) == v && Digit(v, upper) != PERCENT && Digit(v, upper) != SPACE
  {}

  // ---------------------------------------------------------- the path, on the text alone

  /** Backing up a directory: what is left of the text filed. */
  function Backed(w: seq<byte>): seq<byte> { if |w| > 2 then Cut(w[..|w| - 1]) else w }

  function Cut(w: seq<byte>): seq<byte>
    requires w != []
  {
    var k := |w| - 1; if k > 1 && w[k] != SLASH then Cut(w[..k]) else w[..k]
  }

  /** The text filed and the state of the path behind one more character. */
  function Walk(ups: PathState, w: seq<byte>, c: byte): (seq<byte>, PathState) {
    match ups
    case PathIdle => (w + [c], if c == SLASH then SeenSlash else PathIdle)
    case SeenSlash =>
      if c == SLASH then (w, SeenSlash) else if c == DOT then (w, SeenSlashDot) else (w + [c], PathIdle)
    case SeenSlashDot =>
      if c == DOT then (Backed(w), SeenSlashDotDot) else if c == SLASH then (w, SeenSlash)
      else (w + [DOT] + [c], PathIdle)
    case SeenSlashDotDot => if c == DOT || c == SLASH then (w, SeenSlashDotDot) else (w + [c], SeenSlash)
    case Arguments => (w + [c], Arguments)
  }

  function Walked(ups: PathState, w: seq<byte>, v: seq<byte>): (seq<byte>, PathState)
    decreases |v|
  {
    if v == [] then (w, ups) else var r := Walk(ups, w, v[0]); Walked(r.1, r.0, v[1..])
  }

  /** A dot behind a slash is held back. */
  function Held(ups: PathState): nat { if ups == SeenSlashDot then 1 else 0 }

  lemma {:induction false} CutShortens(w: seq<byte>)
    requires w != []
    ensures |Cut(w)| < |w| && Cut(w) <= w && (|w| > 1 ==> |Cut(w)| >= 1)
  {
    var k := |w| - 1;
    if k > 1 && w[k] != SLASH { CutShortens(w[..k]); }
  }

  lemma WalkSize(ups: PathState, w: seq<byte>, c: byte)
    ensures var r := Walk(ups, w, c); |r.0| + Held(r.1) <= |w| + Held(ups) + 1
  {
    if |w| > 2 { CutShortens(w[..|w| - 1]); }
  }

  // ------------------------------------------------------------- the parser does that

  /** Reading the URI of method n, of which w is filed on top of st. */
  ghost predicate Follows(p: Parser, st: Store, n: nat, w: seq<byte>, ups: PathState) {
    Gathers(p, st, n, w) && n <= POST_URI && st.heads[n] == 0 && p.ups == ups && p.ues == EscIdle
  }

  predicate Ordinary(c: byte) { c != 0 && c != CR && c != QUESTION }

  lemma {:induction false} CutIs(st: Store, n: nat, w: seq<byte>)
    requires Links(st) && n < TOKEN_COUNT && st.heads[n] == 0 && w != []
    ensures BackUpLoop(Opening(st, n, w)) == Opening(st, n, Cut(w))
    decreases |w|
  {
    var k := |w| - 1;
    TakenBack(st, n, w);
    assert Opening(st, n, w).data[|st.data| + k] == w[k];
    if k > 1 && w[k] != SLASH { CutIs(st, n, w[..k]); }
  }

  lemma TakenBack(st: Store, n: nat, w: seq<byte>)
    requires Links(st) && n < TOKEN_COUNT && st.heads[n] == 0 && w != []
    ensures var st1 := Opening(st, n, w);
      Last(st1).len == |w| <= |st1.data| && TakeBack(st1) == Opening(st, n, w[..|w| - 1])
  {
    var st1, k := Opening(st, n, w), |w| - 1;
    assert st1.data[..|st1.data| - 1] == st.data + w[..k];
    assert TakeBack(st1).frags == Opening(st, n, w[..k]).frags;
  }

  lemma BackedIs(st: Store, n: nat, w: seq<byte>)
    requires Links(st) && n < TOKEN_COUNT && st.heads[n] == 0
    ensures Last(Opening(st, n, w)).len == |w| <= |Opening(st, n, w).data|
    ensures BackUp(Opening(st, n, w)) == Opening(st, n, Backed(w))
  {
    if w != [] {
      TakenBack(st, n, w);
      if |w| > 2 { CutIs(st, n, w[..|w| - 1]); }
    }
  }

  lemma FollowsBack(p: Parser, st: Store, n: nat, w: seq<byte>)
    requires Follows(p, st, n, w, SeenSlashDot)
    ensures BackUp(p.st) == Opening(st, n, Backed(w))
    ensures Follows(p.(st := Opening(st, n, Backed(w)), ups := SeenSlashDotDot), st, n, Backed(w), SeenSlashDotDot)
  {
    BackedIs(st, n, w);
    BackUpKeeps(p.st);
    hide Links, Tiled, BackUp, Opening;
  }

  lemma FollowsMore(p: Parser, st: Store, n: nat, w: seq<byte>, c: byte, ups: PathState, next: PathState)
    requires Follows(p, st, n, w, ups) && c != 0 && !Full(p.st)
    ensures Put(p.st, c) == Opening(st, n, w + [c])
    ensures Follows(p.(st := Opening(st, n, w + [c]), ups := next), st, n, w + [c], next)
  {
    GathersMore(p, st, n, w, c);
    var p1 := p.(st := Opening(st, n, w + [c]));
    hide Links, Tiled, Opening, Put;
  }

  lemma EolFiles(p: Parser, st: Store, n: nat, w: seq<byte>, c: byte, ups: PathState)
    requires Follows(p, st, n, w, ups) && Ordinary(c) && !Full(p.st)
    ensures CheckEol(p, n, c, 0) == More(p.(st := Put(p.st, c)))
  {
    hide Links, Tiled, Opening, Put;
  }

  /** One character behind the escapes. */
  lemma PathFollows(p: Parser, st: Store, n: nat, w: seq<byte>, c: byte, ups: PathState)
    requires Follows(p, st, n, w, ups) && Ordinary(c) && ups != Arguments
    requires |st.data| + |w| + Held(ups) < MAX_HEADER_LEN
    ensures var r := Walk(ups, w, c); var p1 := p.(st := Opening(st, n, r.0), ups := r.1);
      PathChar(p, n, c, 0) == More(p1) && Follows(p1, st, n, r.0, r.1)
  {
    OpeningSize(st, n, w);
    var r := Walk(ups, w, c);
    var dropped := c == SLASH || c == DOT;
    match ups {
      case PathIdle =>
        var q := p.(ups := r.1);
        assert Follows(q, st, n, w, r.1);
        EolFiles(q, st, n, w, c, r.1);
        FollowsMore(q, st, n, w, c, r.1, r.1);
      case SeenSlash =>
        if !dropped {
          var q := p.(ups := PathIdle);
          assert Follows(q, st, n, w, PathIdle);
          EolFiles(q, st, n, w, c, PathIdle);
          FollowsMore(q, st, n, w, c, PathIdle, PathIdle);
        }
      case SeenSlashDot =>
        if c == DOT { FollowsBack(p, st, n, w); }
        else if c != SLASH { DotFollows(p, st, n, w, c); }
      case SeenSlashDotDot =>
        if !dropped {
          var q := p.(ups := SeenSlash);
          assert Follows(q, st, n, w, SeenSlash);
          EolFiles(q, st, n, w, c, SeenSlash);
          FollowsMore(q, st, n, w, c, SeenSlash, SeenSlash);
        }
    }
  }

  /** The dot held back is filed with what follows it. */
  lemma DotFollows(p: Parser, st: Store, n: nat, w: seq<byte>, c: byte)
    requires Follows(p, st, n, w, SeenSlashDot) && Ordinary(c) && c != DOT && c != SLASH
    requires |st.data| + |w| + 1 < MAX_HEADER_LEN
    ensures var p1 := p.(st := Opening(st, n, w + [DOT] + [c]), ups := PathIdle);
      PathChar(p, n, c, 0) == More(p1) && Follows(p1, st, n, w + [DOT] + [c], PathIdle)
  {
    OpeningSize(st, n, w);
    OpeningSize(st, n, w + [DOT]);
    FollowsMore(p, st, n, w, DOT, SeenSlashDot, PathIdle);
    var q := p.(st := Opening(st, n, w + [DOT]), ups := PathIdle);
    EolFiles(q, st, n, w + [DOT], c, PathIdle);
    FollowsMore(q, st, n, w + [DOT], c, PathIdle, PathIdle);
    hide Links, Tiled, Opening, Put, CheckEol;
  }

  // --------------------------------------------------------------- escapes undone

  /** Behind the escapes only the digit held back differs. */
  lemma StashFollows(p: Parser, st: Store, n: nat, w: seq<byte>, ups: PathState, d: byte)
    requires Follows(p, st, n, w, ups)
    ensures Follows(p.(stash := d), st, n, w, ups)
  {}

  lemma RawStep(p: Parser, n: nat, c: byte)
    requires WfParser(p) && p.state == Token(n) && n <= POST_URI && p.ues == EscIdle && c != SPACE && c != PERCENT
    ensures Step(p, c, Partial, 0) == PathChar(p, n, c, 0)
  {
    hide Links, PathChar;
  }

  /** The three characters of an escape. */
  lemma EscapeSteps(p: Parser, n: nat, d: byte, e: byte, v: byte)
    requires WfParser(p) && p.state == Token(n) && n <= POST_URI && p.ues == EscIdle && Hex(d) >= 0 && Hex(e) >= 0
    requires v == Hex(d) * 16 + Hex(e)
    ensures var p1, p2 := p.(ues := SeenPercent), p.(ues := SeenPercentH1, stash := d);
      && Step(p, PERCENT, Partial, 0) == More(p1) && WfParser(p1)
      && Step(p1, d, Partial, 0) == More(p2) && WfParser(p2)
      && Step(p2, e, Partial, 0) == PathChar(p.(stash := d), n, v, 0)
  {
    hide Links, PathChar;
    assert d != SPACE && e != SPACE && d != PERCENT && (Hex(d) * 16 + Hex(e)) % 256 == v;
    assert p.(ues := SeenPercentH1, stash := d).(ues := EscIdle) == p.(stash := d);
  }

  /** An escape is the character it stands for, but for the digit held back. */
  lemma DigitsRun(p: Parser, n: nat, d: byte, e: byte, v: byte, p1: Parser)
    requires WfParser(p) && p.state == Token(n) && n <= POST_URI && p.ues == EscIdle && Hex(d) >= 0 && Hex(e) >= 0
    requires v == Hex(d) * 16 + Hex(e) && p1 == p.(stash := d) && WfParser(p1)
    ensures Run(p, Plain([PERCENT, d, e])) == PathChar(p1, n, v, 0)
  {
    EscapeSteps(p, n, d, e, v);
    var q1, q2 := p.(ues := SeenPercent), p.(ues := SeenPercentH1, stash := d);
    hide Run, Step, WfParser, PathChar, Hex, Plain;
    RunThree(p, PERCENT, d, e, q1, q2);
  }

  lemma EscapeSpelled(hi: nat, lo: nat, hiUpper: bool, loUpper: bool)
    requires hi < 16 && lo < 16
    ensures var d, e := Digit(hi, hiUpper), Digit(lo, loUpper);
      && Hex(d) >= 0 && Hex(e) >= 0 && Hex(d) * 16 + Hex(e) == 16 * hi + lo < 256
      && Spelled(Escaped(hi, lo, hiUpper, loUpper)) == [PERCENT, d, e]
  {
    DigitIs(hi, hiUpper);
    DigitIs(lo, loUpper);
  }

  lemma RunThree(p: Parser, a: byte, b: byte, c: byte, p1: Parser, p2: Parser)
    requires WfParser(p) && Step(p, a, Partial, 0) == More(p1)
    requires WfParser(p1) && Step(p1, b, Partial, 0) == More(p2) && WfParser(p2)
    ensures Run(p, Plain([a, b, c])) == Step(p2, c, Partial, 0)
  {
    hide Run, Step, WfParser;
    var i, j, k := Input(a, Partial, 0), Input(b, Partial, 0), Input(c, Partial, 0);
    assert Plain([a, b, c]) == [i] + [j, k];
    RunFirst(p, i, [j, k]);
    RunTwo(p1, j, k);
  }

  /** A character of the path, escaped or not. */
  lemma ItemFollows(p: Parser, st: Store, n: nat, w: seq<byte>, ups: PathState, i: Item) returns (q: Parser)
    requires Follows(p, st, n, w, ups) && ups != Arguments && Sound(i) && Ordinary(Value(i))
    requires |st.data| + |w| + Held(ups) < MAX_HEADER_LEN
    ensures var r := Walk(ups, w, Value(i)); Run(p, Plain(Spelled(i))) == More(q) && Follows(q, st, n, r.0, r.1)
  {
    hide Links, Tiled, Opening, PathChar, Walk, Step, Digit;
    var r := Walk(ups, w, Value(i));
    match i {
      case Raw(c) =>
        PathFollows(p, st, n, w, c, ups);
        RawStep(p, n, c);
        q := p.(st := Opening(st, n, r.0), ups := r.1);
        RunOne(p, Input(c, Partial, 0));
        assert Plain([c]) == [Input(c, Partial, 0)];
      case Escaped(hi, lo, hiUpper, loUpper) =>
        var p1 := p.(stash := Digit(hi, hiUpper));
        StashFollows(p, st, n, w, ups, Digit(hi, hiUpper));
        PathFollows(p1, st, n, w, Value(i), ups);
        q := p1.(st := Opening(st, n, r.0), ups := r.1);
        EscapeSpelled(hi, lo, hiUpper, loUpper);
        DigitsRun(p, n, Digit(hi, hiUpper), Digit(lo, loUpper), Value(i), p1);
    }
  }

  predicate AllOrdinary(items: seq<Item>) {
    AllSound(items) && forall k :: 0 <= k < |items| ==> Ordinary(Value(items[k]))
  }

  lemma FollowsSize(p: Parser, st: Store, n: nat, w: seq<byte>, ups: PathState)
    requires Follows(p, st, n, w, ups)
    ensures WfParser(p) && Links(st) && st.heads[n] < |st.frags| && |p.st.data| == |st.data| + |w|
  {
    OpeningSize(st, n, w);
  }

  lemma PlainJoin(a: seq<byte>, b: seq<byte>)
    ensures Plain(a + b) == Plain(a) + Plain(b)
  {}

  lemma FirstItem(items: seq<Item>)
    requires AllOrdinary(items) && items != []
    ensures AllOrdinary(items[1..]) && Sound(items[0]) && Ordinary(Value(items[0]))
    ensures Spelling(items) == Spelled(items[0]) + Spelling(items[1..])
    ensures Values(items) != [] && Values(items)[0] == Value(items[0]) && Values(items)[1..] == Values(items[1..])
  {
    hide Value, Sound, Ordinary, Spelled;
    assert forall k :: 0 <= k < |items| - 1 ==> items[1..][k] == items[k + 1];
    assert items[0] in items;
  }

  lemma WalkedFirst(ups: PathState, w: seq<byte>, v: seq<byte>)
    requires v != []
    ensures Walked(ups, w, v) == Walked(Walk(ups, w, v[0]).1, Walk(ups, w, v[0]).0, v[1..])
  {}

  /** The path of a URI, with any of its characters escaped, is filed as its characters are walked. */
  lemma {:induction false} PathRun(p: Parser, st: Store, n: nat, w: seq<byte>, ups: PathState, items: seq<Item>)
    returns (q: Parser)
    requires Follows(p, st, n, w, ups) && ups != Arguments && AllOrdinary(items)
    requires |st.data| + |w| + Held(ups) + |items| <= MAX_HEADER_LEN
    ensures var r := Walked(ups, w, Values(items));
      Run(p, Plain(Spelling(items))) == More(q) && Follows(q, st, n, r.0, r.1) && r.1 != Arguments
      && |r.0| + Held(r.1) <= |w| + Held(ups) + |items|
    decreases |items|
  {
    if items == [] {
      q := p;
      FollowsSize(p, st, n, w, ups);
    } else {
      FirstItem(items);
      WalkedFirst(ups, w, Values(items));
      WalkSize(ups, w, Value(items[0]));
      NotArguments(ups, w, Value(items[0]));
      hide Follows, Run, Plain, Spelling, Values, Walked, Walk, AllOrdinary, Ordinary, Sound, Spelled, Held;
      var q1 := ItemFollows(p, st, n, w, ups, items[0]);
      var r := Walk(ups, w, Value(items[0]));
      q := PathRun(q1, st, n, r.0, r.1, items[1..]);
      FollowsSize(p, st, n, w, ups);
      FollowsSize(q1, st, n, r.0, r.1);
      PlainJoin(Spelled(items[0]), Spelling(items[1..]));
      RunAppend(p, Plain(Spelled(items[0])), Plain(Spelling(items[1..])));
    }
  }

  lemma NotArguments(ups: PathState, w: seq<byte>, c: byte)
    requires ups != Arguments
    ensures Walk(ups, w, c).1 != Arguments
  {}

  // ------------------------------------------------------------------ the arguments

  /** The path is closed and a of the arguments is filed. */
  ghost predicate Collects(p: Parser, st: Store, n: nat, a: seq<byte>) {
    && Links(st) && n <= POST_URI && st.heads[URI_ARGS] == 0 && st.heads[n] < |st.frags|
    && st.frags[st.heads[n]].len > 0 && Tiled(st, false)
    && p.state == Token(n) && p.st == Opening(st, URI_ARGS, a) && p.ups == Arguments && p.ues == EscIdle
    && WfParser(p) && Tiled(p.st, true) && |p.st.frags| > 1
  }

  /** A dot held back in front of the question mark is filed after all. */
  function Sealed(w: seq<byte>, ups: PathState): seq<byte> { if ups == SeenSlashDot then w + [DOT] else w }

  /** The question mark closes the path and opens the arguments. */
  lemma QuestionOpens(p: Parser, st: Store, n: nat, w: seq<byte>)
    requires Follows(p, st, n, w, p.ups) && w != [] && st.heads[URI_ARGS] == 0
    requires |st.frags| + 2 <= MAX_FRAGS && !Full(p.st)
    ensures Links(Closing(st, n, w))
    ensures var p1 := p.(st := Opening(Closing(st, n, w), URI_ARGS, []), ups := Arguments);
      CheckEol(p, n, QUESTION, 0) == More(p1) && Collects(p1, Closing(st, n, w), n, [])
  {
    PutOpens(st, n, w, 0);
    PutWf(p.st, 0);
    PutTiled(p.st, 0);
    ArgsWf(p.st);
    ArgsTiled(p.st);
    var st1 := Closing(st, n, w);
    assert StartArgs(p.st) == Opening(st1, URI_ARGS, []) by { assert st1.data + [] == st1.data; }
    hide Tiled, Links, Put, StartArgs;
  }

  lemma QuestionStep(p: Parser, st: Store, n: nat, w: seq<byte>, ups: PathState)
    requires Follows(p, st, n, w, ups) && w != [] && ups != Arguments && st.heads[URI_ARGS] == 0
    requires |st.frags| + 2 <= MAX_FRAGS && |st.data| + |w| + Held(ups) < MAX_HEADER_LEN
    ensures Links(Closing(st, n, Sealed(w, ups)))
    ensures var st1 := Closing(st, n, Sealed(w, ups));
      var p1 := p.(st := Opening(st1, URI_ARGS, []), ups := Arguments);
      Step(p, QUESTION, Partial, 0) == More(p1) && Collects(p1, st1, n, [])
  {
    FollowsSize(p, st, n, w, ups);
    RawStep(p, n, QUESTION);
    hide Links, Tiled, Opening, Closing, Step;
    match ups {
      case PathIdle => QuestionOpens(p.(ups := PathIdle), st, n, w);
      case SeenSlash =>
        assert Follows(p.(ups := PathIdle), st, n, w, PathIdle);
        QuestionOpens(p.(ups := PathIdle), st, n, w);
      case SeenSlashDot =>
        FollowsMore(p, st, n, w, DOT, SeenSlashDot, PathIdle);
        OpeningSize(st, n, w + [DOT]);
        QuestionOpens(p.(st := Opening(st, n, w + [DOT]), ups := PathIdle), st, n, w + [DOT]);
      case SeenSlashDotDot =>
        assert Follows(p.(ups := SeenSlash), st, n, w, SeenSlash);
        QuestionOpens(p.(ups := SeenSlash), st, n, w);
    }
  }

  lemma CollectsStash(p: Parser, st: Store, n: nat, a: seq<byte>, d: byte)
    requires Collects(p, st, n, a)
    ensures Collects(p.(stash := d), st, n, a) && WfParser(p) && Links(st) && |p.st.data| == |st.data| + |a|
  {
    OpeningSize(st, URI_ARGS, a);
  }

  lemma ArgEol(p: Parser, st: Store, n: nat, a: seq<byte>, c: byte)
    requires Collects(p, st, n, a) && Ordinary(c) && !Full(p.st)
    ensures PathChar(p, n, c, 0) == More(p.(st := Put(p.st, c)))
  {
    hide Links, Tiled, Put, Opening;
  }

  /** Arguments are filed as they come. */
  lemma ArgsMore(p: Parser, st: Store, n: nat, a: seq<byte>, c: byte)
    requires Collects(p, st, n, a) && Ordinary(c) && |st.data| + |a| < MAX_HEADER_LEN
    ensures var p1 := p.(st := Opening(st, URI_ARGS, a + [c]));
      PathChar(p, n, c, 0) == More(p1) && Collects(p1, st, n, a + [c])
  {
    OpeningSize(st, URI_ARGS, a);
    ArgEol(p, st, n, a, c);
    PutOpens(st, URI_ARGS, a, c);
    PutWf(p.st, c);
    PutTiled(p.st, c);
    PutSize(p.st, c);
    hide Links, Tiled, Put, Opening, PathChar;
  }

  lemma ArgItem(p: Parser, st: Store, n: nat, a: seq<byte>, i: Item) returns (q: Parser)
    requires Collects(p, st, n, a) && Sound(i) && Ordinary(Value(i)) && |st.data| + |a| < MAX_HEADER_LEN
    ensures Run(p, Plain(Spelled(i))) == More(q) && Collects(q, st, n, a + [Value(i)])
  {
    CollectsStash(p, st, n, a, p.stash);
    hide Links, Tiled, Opening, PathChar, Step, Digit;
    match i {
      case Raw(c) =>
        ArgsMore(p, st, n, a, c);
        RawStep(p, n, c);
        q := p.(st := Opening(st, URI_ARGS, a + [c]));
        RunOne(p, Input(c, Partial, 0));
        assert Plain([c]) == [Input(c, Partial, 0)];
      case Escaped(hi, lo, hiUpper, loUpper) =>
        var p1 := p.(stash := Digit(hi, hiUpper));
        CollectsStash(p, st, n, a, Digit(hi, hiUpper));
        ArgsMore(p1, st, n, a, Value(i));
        q := p1.(st := Opening(st, URI_ARGS, a + [Value(i)]));
        EscapeSpelled(hi, lo, hiUpper, loUpper);
        DigitsRun(p, n, Digit(hi, hiUpper), Digit(lo, loUpper), Value(i), p1);
    }
  }

  lemma {:induction false} ArgsRun(p: Parser, st: Store, n: nat, a: seq<byte>, items: seq<Item>) returns (q: Parser)
    requires Collects(p, st, n, a) && AllOrdinary(items) && |st.data| + |a| + |items| <= MAX_HEADER_LEN
    ensures Run(p, Plain(Spelling(items))) == More(q) && Collects(q, st, n, a + Values(items))
    decreases |items|
  {
    CollectsStash(p, st, n, a, p.stash);
    if items == [] {
      q := p;
      assert a + Values(items) == a;
    } else {
      FirstItem(items);
      hide *;
      var q1 := ArgItem(p, st, n, a, items[0]);
      q := ArgsRun(q1, st, n, a + [Value(items[0])], items[1..]);
      CollectsStash(q1, st, n, a + [Value(items[0])], q1.stash);
      PlainJoin(Spelled(items[0]), Spelling(items[1..]));
      RunAppend(p, Plain(Spelled(items[0])), Plain(Spelling(items[1..])));
      ValuesCons(items, a);
    }
  }

  lemma ValuesCons(items: seq<Item>, a: seq<byte>)
    requires AllSound(items) && items != []
    ensures AllSound(items[1..]) && a + [Value(items[0])] + Values(items[1..]) == a + Values(items)
  {
    assert Values(items) == [Value(items[0])] + Values(items[1..]);
  }

  // -------------------------------------------------------------- escapes that are none

  /** A percent sign and a character that is no digit: both go on as they are. */
  lemma FalseSteps(p: Parser, n: nat, c: byte)
    requires WfParser(p) && p.state == Token(n) && n <= POST_URI && p.ues == EscIdle
    requires Hex(c) < 0 && c != SPACE && !Full(p.st)
    ensures var p1, p2 := p.(ues := SeenPercent), p.(st := Put(p.st, PERCENT));
      && Step(p, PERCENT, Partial, 0) == More(p1) && WfParser(p1) && WfParser(p2)
      && Step(p1, c, Partial, 0) == PathChar(p2, n, c, 0)
  {
    PutWf(p.st, PERCENT);
    hide Links, PathChar, Put;
    assert p.(ues := SeenPercent).(st := Put(p.st, PERCENT), ues := EscIdle) == p.(st := Put(p.st, PERCENT));
  }

  lemma FalseRun(p: Parser, n: nat, c: byte, p2: Parser)
    requires WfParser(p) && p.state == Token(n) && n <= POST_URI && p.ues == EscIdle
    requires Hex(c) < 0 && c != SPACE && !Full(p.st) && p2 == p.(st := Put(p.st, PERCENT)) && WfParser(p2)
    ensures Run(p, Plain([PERCENT, c])) == PathChar(p2, n, c, 0)
  {
    FalseSteps(p, n, c);
    hide Run, Step, PathChar, WfParser, Put;
    assert Plain([PERCENT, c]) == [Input(PERCENT, Partial, 0), Input(c, Partial, 0)];
    RunTwo(p, Input(PERCENT, Partial, 0), Input(c, Partial, 0));
  }

  /** A percent sign, one digit, and a character that is none: all three go on as they are. */
  lemma HalfSteps(p: Parser, n: nat, d: byte, c: byte, q: Parser)
    requires WfParser(p) && p.state == Token(n) && n <= POST_URI && p.ues == EscIdle
    requires Hex(d) >= 0 && Hex(c) < 0 && c != SPACE && !Full(p.st)
    requires WfParser(q) && PathChar(p.(st := Put(p.st, PERCENT), stash := d), n, d, 0) == More(q)
    ensures var p1, p2 := p.(ues := SeenPercent), p.(ues := SeenPercentH1, stash := d);
      && Step(p, PERCENT, Partial, 0) == More(p1) && WfParser(p1)
      && Step(p1, d, Partial, 0) == More(p2) && WfParser(p2)
      && Step(p2, c, Partial, 0) == PathChar(q, n, c, 0)
  {
    PutWf(p.st, PERCENT);
    PutIfRoomIs(p.st, PERCENT);
    hide Links, PathChar, Put, PutIfRoom;
    assert d != SPACE;
    assert p.(ues := SeenPercentH1, stash := d).(st := Put(p.st, PERCENT), ues := EscIdle)
      == p.(st := Put(p.st, PERCENT), stash := d);
  }

  /** In the arguments, what is no escape is filed as it is. */
  lemma FalseEscapeKept(p: Parser, st: Store, n: nat, a: seq<byte>, c: byte) returns (q: Parser)
    requires Collects(p, st, n, a) && Hex(c) < 0 && c != SPACE && Ordinary(c) && |st.data| + |a| + 2 <= MAX_HEADER_LEN
    ensures Run(p, Plain([PERCENT, c])) == More(q) && Collects(q, st, n, a + [PERCENT] + [c])
  {
    CollectsStash(p, st, n, a, p.stash);
    ArgsMore(p, st, n, a, PERCENT);
    ArgEol(p, st, n, a, PERCENT);
    var p2 := p.(st := Put(p.st, PERCENT));
    assert p2 == p.(st := Opening(st, URI_ARGS, a + [PERCENT]));
    hide Run, Collects, Opening, PathChar, Put, Links, Tiled;
    CollectsStash(p2, st, n, a + [PERCENT], p2.stash);
    ArgsMore(p2, st, n, a + [PERCENT], c);
    FalseRun(p, n, c, p2);
    q := p2.(st := Opening(st, URI_ARGS, a + [PERCENT] + [c]));
  }

  lemma HalfEscapeKept(p: Parser, st: Store, n: nat, a: seq<byte>, d: byte, c: byte) returns (q: Parser)
    requires Collects(p, st, n, a) && Hex(d) >= 0 && Hex(c) < 0 && c != SPACE && Ordinary(c)
    requires |st.data| + |a| + 3 <= MAX_HEADER_LEN
    ensures Run(p, Plain([PERCENT, d, c])) == More(q) && Collects(q, st, n, a + [PERCENT] + [d] + [c])
  {
    CollectsStash(p, st, n, a, p.stash);
    ArgsMore(p, st, n, a, PERCENT);
    ArgEol(p, st, n, a, PERCENT);
    var p2 := p.(st := Put(p.st, PERCENT));
    CollectsStash(p2, st, n, a + [PERCENT], d);
    var p3 := p2.(stash := d);
    ArgsMore(p3, st, n, a + [PERCENT], d);
    var p4 := p3.(st := Opening(st, URI_ARGS, a + [PERCENT] + [d]));
    HalfSteps(p, n, d, c, p4);
    ArgsMore(p4, st, n, a + [PERCENT] + [d], c);
    q := p4.(st := Opening(st, URI_ARGS, a + [PERCENT] + [d] + [c]));
    hide Run, Step, Collects, Opening, PathChar, WfParser, Put;
    RunThree(p, PERCENT, d, c, p.(ues := SeenPercent), p.(ues := SeenPercentH1, stash := d));
  }

  /** So it is inside a name of the path. */
  lemma FalseEscapeInName(p: Parser, st: Store, n: nat, w: seq<byte>, c: byte) returns (q: Parser)
    requires Follows(p, st, n, w, PathIdle) && Hex(c) < 0 && c != SPACE && Ordinary(c)
    requires |st.data| + |w| + 2 <= MAX_HEADER_LEN
    ensures Run(p, Plain([PERCENT, c])) == More(q)
    ensures Follows(q, st, n, w + [PERCENT] + [c], if c == SLASH then SeenSlash else PathIdle)
  {
    FollowsSize(p, st, n, w, PathIdle);
    FollowsMore(p, st, n, w, PERCENT, PathIdle, PathIdle);
    var p2 := p.(st := Put(p.st, PERCENT));
    assert p2 == p.(st := Opening(st, n, w + [PERCENT]), ups := PathIdle);
    hide Run, Follows, Opening, PathChar, Put, Links, Tiled;
    FollowsSize(p2, st, n, w + [PERCENT], PathIdle);
    PathFollows(p2, st, n, w + [PERCENT], c, PathIdle);
    FalseRun(p, n, c, p2);
    q := p2.(st := Opening(st, n, w + [PERCENT] + [c]), ups := if c == SLASH then SeenSlash else PathIdle);
  }

  // ------------------------------------------------------------------- the end of the line

  /** The space behind the path ends it. */
  lemma PathEnds(p: Parser, st: Store, n: nat, w: seq<byte>, ups: PathState)
    requires Follows(p, st, n, w, ups) && w != [] && |st.data| + |w| < MAX_HEADER_LEN
    ensures var p1 := p.(state := Skipping, st := Closing(st, n, w));
      Step(p, SPACE, Partial, 0) == More(p1) && WfParser(p1) && Tiled(p1.st, false)
  {
    OpeningSize(st, n, w);
    BackedIs(st, n, w);
    HeadLength(st, n, w);
    PutOpens(st, n, w, 0);
    PutTiled(p.st, 0);
    PutWf(p.st, 0);
    hide Links, Tiled, Put, Opening, Closing;
  }

  /** The space behind the arguments ends them; a slash stands for none. */
  function ArgsText(a: seq<byte>): seq<byte> { if a == [] then [SLASH] else a }

  lemma ArgsEnd(p: Parser, st: Store, n: nat, a: seq<byte>)
    requires Collects(p, st, n, a) && |st.data| + |a| + 2 <= MAX_HEADER_LEN
    ensures var p1 := p.(state := Skipping, st := Closing(st, URI_ARGS, ArgsText(a)));
      Step(p, SPACE, Partial, 0) == More(p1) && WfParser(p1) && Tiled(p1.st, false)
  {
    var b := ArgsText(a);
    HeadsElsewhere(st, n, a);
    OpeningSize(st, URI_ARGS, a);
    OpeningSize(st, URI_ARGS, b);
    assert Last(p.st).len == |a|;
    if a == [] {
      PutOpens(st, URI_ARGS, a, SLASH);
      PutTiled(p.st, SLASH);
      PutWf(p.st, SLASH);
      assert a + [SLASH] == b;
    }
    var st1 := Opening(st, URI_ARGS, b);
    PutOpens(st, URI_ARGS, b, 0);
    PutTiled(st1, 0);
    PutWf(st1, 0);
    hide Links, Tiled, Put, Opening, Closing;
  }

  lemma HeadsElsewhere(st: Store, n: nat, a: seq<byte>)
    requires Links(st) && n <= POST_URI && st.heads[n] < |st.frags| && st.frags[st.heads[n]].len > 0
    requires st.heads[URI_ARGS] == 0
    ensures var st1 := Opening(st, URI_ARGS, a);
      st1.heads[n] < |st1.frags| && st1.frags[st1.heads[n]].len > 0 && Last(st1).len == |a|
  {}

  // ------------------------------------------------------------------- the whole line

  // A request line: its method, its path and, behind a question mark, its arguments.
  datatype UriLine = UriLine(name: seq<byte>, n: HeaderToken, path: seq<Item>, hasArgs: bool, args: seq<Item>,
    rest: seq<byte>)

  function UriText(l: UriLine): seq<byte>
    requires AllSound(l.path) && AllSound(l.args)
  {
    Spelling(l.path) + if l.hasArgs then [QUESTION] + Spelling(l.args) else []
  }

  function UriInputs(l: UriLine): seq<Input>
    requires l.name != [] && AllSound(l.path) && AllSound(l.args)
  {
    Named(l.name, Known(l.n)) + (Plain(UriText(l)) + (Plain([SPACE]) + (Plain(l.rest) + Plain([CR, LF]))))
  }

  predicate GoodLine(l: UriLine) {
    && l.name != [] && l.n <= POST_URI && AllOrdinary(l.path) && AllOrdinary(l.args) && CR !in l.rest
    && l.path != [] && Value(l.path[0]) == SLASH
  }

  lemma MethodStep(p: Parser, c: byte, n: nat)
    requires Ready(p) && n <= POST_URI && p.st.heads[n] == 0 && p.ups == PathIdle && p.ues == EscIdle
    requires |p.st.frags| < MAX_FRAGS && !Full(p.st)
    ensures var p1 := p.(state := Token(n), st := Opening(p.st, n, []));
      Step(p, c, Known(n), 0) == More(p1) && Follows(p1, p.st, n, [], PathIdle)
  {
    StartOpens(p.st, n);
    StartFragmentOpens(p.st, n);
    hide Links, Tiled, Opening, StartFragment;
  }

  lemma MethodOpens(p: Parser, name: seq<byte>, n: nat)
    requires Ready(p) && n <= POST_URI && name != [] && p.st.heads[n] == 0 && p.ups == PathIdle && p.ues == EscIdle
    requires |p.st.frags| < MAX_FRAGS && !Full(p.st)
    ensures var p1 := p.(state := Token(n), st := Opening(p.st, n, []));
      Run(p, Named(name, Known(n))) == More(p1) && Follows(p1, p.st, n, [], PathIdle)
  {
    var first, last := name[..|name| - 1], name[|name| - 1];
    MethodStep(p, last, n);
    PartialName(p, first);
    hide Run, Step, Opening, Follows, Links, Tiled, WfParser;
    RunAppend(p, Plain(first), [Input(last, Known(n), 0)]);
    RunOne(p, Input(last, Known(n), 0));
  }

  /** What the path of a line reads as: its characters walked from the start. */
  function PathText(l: UriLine): seq<byte>
    requires AllSound(l.path)
  {
    var r := Walked(PathIdle, [], Values(l.path)); if l.hasArgs then Sealed(r.0, r.1) else r.0
  }

  function LineSize(l: UriLine): nat { |l.path| + |l.args| + 4 }

  /** The store behind a request line. */
  function UriFiled(st: Store, l: UriLine): Store
    requires Links(st) && l.n < TOKEN_COUNT && AllSound(l.path) && AllSound(l.args)
    requires l.hasArgs ==> Links(Closing(st, l.n, PathText(l)))
  {
    var st1 := Closing(st, l.n, PathText(l));
    if l.hasArgs then Closing(st1, URI_ARGS, ArgsText(Values(l.args))) else st1
  }

  lemma WalkKeepsSome(ups: PathState, w: seq<byte>, c: byte)
    requires w != [] || ups == PathIdle
    ensures Walk(ups, w, c).0 != []
  {
    if |w| > 2 { CutShortens(w[..|w| - 1]); }
  }

  lemma {:induction false} WalkedKeepsSome(ups: PathState, w: seq<byte>, v: seq<byte>)
    requires w != [] || (ups == PathIdle && v != [])
    ensures Walked(ups, w, v).0 != []
    decreases |v|
  {
    if v != [] {
      WalkKeepsSome(ups, w, v[0]);
      WalkedKeepsSome(Walk(ups, w, v[0]).1, Walk(ups, w, v[0]).0, v[1..]);
    }
  }

  /** The method, then the path. */
  lemma PathRead(p: Parser, l: UriLine) returns (q: Parser)
    requires Ready(p) && GoodLine(l) && p.st.heads[l.n] == 0 && p.ups == PathIdle && p.ues == EscIdle
    requires |p.st.frags| < MAX_FRAGS && |p.st.data| + LineSize(l) <= MAX_HEADER_LEN
    ensures Run(p, Named(l.name, Known(l.n)) + Plain(Spelling(l.path))) == More(q)
    ensures var r := Walked(PathIdle, [], Values(l.path));
      Follows(q, p.st, l.n, r.0, r.1) && r.1 != Arguments && r.0 != [] && |r.0| + Held(r.1) <= |l.path|
  {
    MethodOpens(p, l.name, l.n);
    var p1 := p.(state := Token(l.n), st := Opening(p.st, l.n, []));
    q := PathRun(p1, p.st, l.n, [], PathIdle, l.path);
    WalkedKeepsSome(PathIdle, [], Values(l.path));
    assert WfParser(p1);
    hide Run, Walked, Opening, Links, Tiled, Follows, Values, Spelling, Plain, Named;
    RunAppend(p, Named(l.name, Known(l.n)), Plain(Spelling(l.path)));
  }

  /** What is left of the line once a space has ended the URI. */
  lemma RestSkipped(p: Parser, q: Parser, rest: seq<byte>)
    requires WfParser(p) && Step(p, SPACE, Partial, 0) == More(q) && WfParser(q) && q.state == Skipping && CR !in rest
    ensures Run(p, Plain([SPACE]) + (Plain(rest) + Plain([CR, LF]))) == More(q.(state := NamePart))
  {
    Skips1(q, rest);
    SkipEnds(q);
    hide Run, Step, WfParser;
    RunOne(p, Input(SPACE, Partial, 0));
    assert Plain([SPACE]) == [Input(SPACE, Partial, 0)];
    RunAppend(q, Plain(rest), Plain([CR, LF]));
    RunAppend(p, Plain([SPACE]), Plain(rest) + Plain([CR, LF]));
  }

  /** The arguments, from the question mark on. */
  lemma ArgsRead(p: Parser, st: Store, l: UriLine, w: seq<byte>, ups: PathState) returns (q: Parser)
    requires Follows(p, st, l.n, w, ups) && ups != Arguments && w != [] && GoodLine(l) && st.heads[URI_ARGS] == 0
    requires |st.frags| + 2 <= MAX_FRAGS && |w| + Held(ups) <= |l.path| && |st.data| + LineSize(l) <= MAX_HEADER_LEN
    ensures Links(Closing(st, l.n, Sealed(w, ups)))
    ensures Run(p, Plain([QUESTION] + Spelling(l.args))) == More(q)
    ensures Collects(q, Closing(st, l.n, Sealed(w, ups)), l.n, Values(l.args))
  {
    QuestionStep(p, st, l.n, w, ups);
    var st1 := Closing(st, l.n, Sealed(w, ups));
    ClosingSize(st, l.n, Sealed(w, ups));
    var p1 := p.(st := Opening(st1, URI_ARGS, []), ups := Arguments);
    q := ArgsRun(p1, st1, l.n, [], l.args);
    assert [] + Values(l.args) == Values(l.args) && WfParser(p1);
    hide Run, Step, Opening, Closing, Links, Tiled, Values, Spelling, Plain, Collects;
    QuestionFirst(p, p1, Spelling(l.args));
  }

  lemma QuestionFirst(p: Parser, p1: Parser, s: seq<byte>)
    requires WfParser(p) && Step(p, QUESTION, Partial, 0) == More(p1) && WfParser(p1)
    ensures Run(p, Plain([QUESTION] + s)) == Run(p1, Plain(s))
  {
    hide Run, Step, WfParser;
    assert Plain([QUESTION] + s) == [Input(QUESTION, Partial, 0)] + Plain(s);
    RunFirst(p, Input(QUESTION, Partial, 0), Plain(s));
  }

  lemma ClosingSize(st: Store, n: nat, w: seq<byte>)
    requires Links(st) && n < TOKEN_COUNT
    ensures |Closing(st, n, w).data| == |st.data| + |w| + 1 && |Closing(st, n, w).frags| == |st.frags| + 1
  {}

  ghost predicate HasUriRoom(st: Store, l: UriLine) {
    |st.frags| + 2 <= MAX_FRAGS && |st.data| + LineSize(l) <= MAX_HEADER_LEN
  }

  /** A whole request line, in terms of the store. */
  lemma UriLineFiled(p: Parser, l: UriLine) returns (q: Parser)
    requires Ready(p) && GoodLine(l) && p.st.heads[l.n] == 0 && p.ups == PathIdle && p.ues == EscIdle
    requires p.st.heads[URI_ARGS] == 0 && HasUriRoom(p.st, l)
    ensures Links(Closing(p.st, l.n, PathText(l)))
    ensures Run(p, UriInputs(l)) == More(q) && Ready(q) && q.st == UriFiled(p.st, l)
    ensures l.hasArgs ==> Tiled(Closing(p.st, l.n, PathText(l)), false)
  {
    var r := Walked(PathIdle, [], Values(l.path));
    var p1 := PathRead(p, l);
    var name, tail := Named(l.name, Known(l.n)), Plain([SPACE]) + (Plain(l.rest) + Plain([CR, LF]));
    var p2, p3;
    if l.hasArgs {
      p2 := ArgsRead(p1, p.st, l, r.0, r.1);
      var st1 := Closing(p.st, l.n, PathText(l));
      ClosingSize(p.st, l.n, PathText(l));
      ArgsEnd(p2, st1, l.n, Values(l.args));
      p3 := p2.(state := Skipping, st := Closing(st1, URI_ARGS, ArgsText(Values(l.args))));
    } else {
      p2 := p1;
      PathEnds(p1, p.st, l.n, r.0, r.1);
      p3 := p1.(state := Skipping, st := Closing(p.st, l.n, r.0));
    }
    RestSkipped(p2, p3, l.rest);
    q := p3.(state := NamePart);
    assert Ready(q);
    LineJoin(p, p1, p2, name, Spelling(l.path), if l.hasArgs then [QUESTION] + Spelling(l.args) else [], tail);
  }

  lemma LineJoin(p: Parser, p1: Parser, p2: Parser, name: seq<Input>, path: seq<byte>, args: seq<byte>,
      tail: seq<Input>)
    requires WfParser(p) && Run(p, name + Plain(path)) == More(p1) && WfParser(p1)
    requires Run(p1, Plain(args)) == More(p2) && WfParser(p2)
    ensures Run(p, name + (Plain(path + args) + tail)) == Run(p2, tail)
  {
    hide Run, WfParser;
    PlainJoin(path, args);
    RunAppend(p, name + Plain(path), Plain(args));
    RunAppend(p, name + Plain(path) + Plain(args), tail);
    hide Plain;
    assert name + Plain(path) + Plain(args) + tail == name + (Plain(path + args) + tail);
  }

  /**
    The URI law: behind a request line the method's header reads as the path with its escapes undone
    and walked, the arguments as they are with their escapes undone, and every other header as before.
  */
  lemma UriReadsBack(p: Parser, l: UriLine, h: nat) returns (q: Parser)
    requires Ready(p) && GoodLine(l) && p.st.heads[l.n] == 0 && p.ups == PathIdle && p.ues == EscIdle
    requires p.st.heads[URI_ARGS] == 0 && HasUriRoom(p.st, l) && h < TOKEN_COUNT
    ensures Run(p, UriInputs(l)) == More(q) && Ready(q)
    ensures Links(p.st) && AllSolid(p.st) && Links(q.st) && AllSolid(q.st)
    ensures Text(q.st, q.st.heads[h]) ==
      if h == l.n then PathText(l)
      else if h == URI_ARGS && l.hasArgs then ArgsText(Values(l.args))
      else Text(p.st, p.st.heads[h])
  {
    q := UriLineFiled(p, l);
    ReadyReads(p);
    ReadyReads(q);
    var w := PathText(l);
    var st1 := Closing(p.st, l.n, w);
    if l.hasArgs { ClosedIsReadable(st1, 0); }
    ClosingTexts(p.st, l.n, w, h);
    if l.hasArgs { ClosingTexts(st1, URI_ARGS, ArgsText(Values(l.args)), h); }
    hide Links, Closing, PathText, AllSolid;
    assert [] + w == w && [] + ArgsText(Values(l.args)) == ArgsText(Values(l.args));
    if h != l.n { assert Text(p.st, p.st.heads[h]) + [] == Text(p.st, p.st.heads[h]); }
    assert Text(p.st, 0) == [];
    assert Text(st1, st1.heads[h]) + [] == Text(st1, st1.heads[h]);
  }
}
