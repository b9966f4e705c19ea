/**
  The header store of libwebsockets (struct allocated_headers and parsers.c): the
  fragments a request parser files header values in, chained per header through indices,
  and the byte-at-a-time parser that fills them.
*/
module HeaderStore {
  import opened Bytes

  const TOKEN_COUNT := 38
  const MAX_FRAGS := 76
  const MAX_HEADER_LEN := 10240

  const GET_URI := 0
  const POST_URI := 1
  const UPGRADE := 7
  const ORIGIN := 8
  const CHALLENGE := 10
  const VERSION := 12
  const SWORIGIN := 13
  const HTTP := 17
  const REFERER := 30
  const URI_ARGS := 31

  const SPACE: byte := 32
  const SLASH: byte := 47
  const DOT: byte := 46
  const PERCENT: byte := 37
  const QUESTION: byte := 63
  const CR: byte := 13
  const LF: byte := 10

  // struct lws_fragments
  datatype Frag = Frag(offset: nat, len: nat, next: nat)

  // frags[..next_frag_index + 1] (entry 0 is not used), data[..pos] and frag_index.
  datatype Store = Store(frags: seq<Frag>, data: seq<byte>, heads: seq<nat>)

  // ---------------------------------------------------------------- invariants

  ghost predicate Upward(st: Store) {
    forall i :: 0 < i < |st.frags| ==> st.frags[i].next == 0 || i < st.frags[i].next < |st.frags|
  }

  /** Entry i starts at most one chain or continues at most one other entry, and links only go up. */
  ghost predicate Links(st: Store) {
    && 1 <= |st.frags| <= MAX_FRAGS && |st.heads| == TOKEN_COUNT
    && (forall h :: 0 <= h < TOKEN_COUNT ==> st.heads[h] < |st.frags|)
    && Upward(st)
    && (forall g, h :: 0 <= g < h < TOKEN_COUNT && st.heads[g] == st.heads[h] ==> st.heads[g] == 0)
    && (forall i, j :: 0 < i < j < |st.frags| && st.frags[i].next == st.frags[j].next ==> st.frags[i].next == 0)
    && (forall h, i ::
          0 <= h < TOKEN_COUNT && 0 < i < |st.frags| && st.heads[h] == st.frags[i].next ==> st.heads[h] == 0)
  }

  predicate Terminated(st: Store, i: nat)
    requires i < |st.frags|
  {
    var e := st.frags[i].offset + st.frags[i].len; e < |st.data| && st.data[e] == 0
  }

  ghost predicate Solid(st: Store, i: nat)
    requires i < |st.frags|
  {
    var f := st.frags[i];
    f.offset + f.len <= |st.data| && forall k :: f.offset <= k < f.offset + f.len ==> st.data[k] != 0
  }

  /** The fragments lie end to end, each with its NUL behind it; the last may still be open. */
  ghost predicate Tiled(st: Store, open: bool) {
    && |st.frags| >= 1 && |st.data| <= MAX_HEADER_LEN
    && (forall i :: 0 < i < |st.frags| ==> Solid(st, i))
    && (forall i :: 0 < i < |st.frags| - 1 ==>
          Terminated(st, i) && st.frags[i + 1].offset == st.frags[i].offset + st.frags[i].len + 1)
    && Tail(st, open)
  }

  predicate Tail(st: Store, open: bool)
    requires |st.frags| >= 1
  {
    if |st.frags| == 1 then !open && st.data == []
    else
      var last := |st.frags| - 1;
      var e := st.frags[last].offset + st.frags[last].len;
      (|st.frags| == 2 ==> st.frags[1].offset == 0)
      && if open then e == |st.data| else Terminated(st, last) && e + 1 == |st.data|
  }

  // -------------------------------------------------------------------- chains

  /** The fragments of a chain from entry n on. */
  ghost function Chain(st: Store, n: nat): seq<nat>
    requires Links(st) && n < |st.frags|
    decreases |st.frags| - n
  {
    if n == 0 then [] else [n] + (if st.frags[n].next == 0 then [] else Chain(st, st.frags[n].next))
  }

  /** Chains are strictly increasing, which is what ends every walk along one. */
  lemma {:induction false} ChainIncreases(st: Store, n: nat)
    requires Links(st) && 0 < n < |st.frags|
    ensures Chain(st, n) != [] && Chain(st, n)[0] == n
    ensures forall a, b :: 0 <= a < b < |Chain(st, n)| ==> Chain(st, n)[a] < Chain(st, n)[b]
    ensures forall a :: 0 <= a < |Chain(st, n)| ==> n <= Chain(st, n)[a] < |st.frags|
    decreases |st.frags| - n
  {
    if st.frags[n].next != 0 { ChainIncreases(st, st.frags[n].next); }
  }

  /** Every later entry of a chain is the successor of one before it. */
  lemma {:induction false} Predecessor(st: Store, n: nat, i: nat) returns (j: nat)
    requires Links(st) && 0 < n < |st.frags| && i in Chain(st, n) && i != n
    ensures j in Chain(st, n) && 0 < j < i < |st.frags| && st.frags[j].next == i
    decreases |st.frags| - n
  {
    var m := st.frags[n].next;
    assert m != 0 && i in Chain(st, m);
    ChainIncreases(st, m);
    if i == m { j := n; } else { j := Predecessor(st, m, i); }
  }

  /** The chains of different headers share no fragment. */
  lemma {:induction false} ChainsDisjoint(st: Store, g: nat, h: nat, i: nat)
    requires Links(st) && g < TOKEN_COUNT && h < TOKEN_COUNT
    requires i in Chain(st, st.heads[g]) && i in Chain(st, st.heads[h])
    ensures g == h
    decreases i
  {
    ChainIncreases(st, st.heads[g]);
    ChainIncreases(st, st.heads[h]);
    if i != st.heads[g] && i != st.heads[h] {
      var j := Predecessor(st, st.heads[g], i);
      var k := Predecessor(st, st.heads[h], i);
      assert j == k;
      ChainsDisjoint(st, g, h, j);
    } else if i != st.heads[g] {
      var j := Predecessor(st, st.heads[g], i);
    } else if i != st.heads[h] {
      var j := Predecessor(st, st.heads[h], i);
    }
  }

  /** No two fragments overlap in the data, not even in their terminators. */
  lemma {:induction false} RangesDisjoint(st: Store, open: bool, i: nat, j: nat)
    requires Tiled(st, open) && 0 < i < j < |st.frags|
    ensures st.frags[i].offset + st.frags[i].len < st.frags[j].offset
    decreases j - i
  {
    if i < j - 1 { RangesDisjoint(st, open, i, j - 1); }
  }

  ghost function Piece(st: Store, i: nat): seq<byte>
    requires i < |st.frags| && st.frags[i].offset + st.frags[i].len <= |st.data|
  {
    st.data[st.frags[i].offset..st.frags[i].offset + st.frags[i].len]
  }

  ghost predicate AllSolid(st: Store) {
    |st.frags| >= 1 && forall i :: 0 < i < |st.frags| ==> Solid(st, i)
  }

  /** The value of a header: its fragments one after the other. */
  ghost function Text(st: Store, n: nat): seq<byte>
    requires Links(st) && AllSolid(st) && n < |st.frags|
    decreases |st.frags| - n
  {
    if n == 0 then [] else
      assert Solid(st, n);
      Piece(st, n) + (if st.frags[n].next == 0 then [] else Text(st, st.frags[n].next))
  }

  function TotalLength(st: Store, n: nat): nat
    requires n < |st.frags| && Upward(st)
    decreases |st.frags| - n
  {
    if n == 0 then 0 else st.frags[n].len + (if st.frags[n].next == 0 then 0 else TotalLength(st, st.frags[n].next))
  }

  /** A header's value is its first fragment and then the rest of the chain. */
  lemma TextSplits(st: Store, n: nat, done: seq<byte>)
    requires Links(st) && AllSolid(st) && 0 < n < |st.frags|
    ensures Solid(st, n) && Text(st, n) == Piece(st, n) + Text(st, st.frags[n].next)
    ensures done + Text(st, n) == done + Piece(st, n) + Text(st, st.frags[n].next)
    ensures TotalLength(st, n) == st.frags[n].len + TotalLength(st, st.frags[n].next)
    ensures st.frags[n].next == 0 || n < st.frags[n].next < |st.frags|
  {
    assert Solid(st, n);
    assert done + (Piece(st, n) + Text(st, st.frags[n].next)) == done + Piece(st, n) + Text(st, st.frags[n].next);
  }

  lemma {:induction false} TextLength(st: Store, n: nat)
    requires Links(st) && AllSolid(st) && n < |st.frags|
    ensures |Text(st, n)| == TotalLength(st, n)
    decreases |st.frags| - n
  {
    if n != 0 {
      assert Solid(st, n);
      if st.frags[n].next != 0 { TextLength(st, st.frags[n].next); }
    }
  }

  // ----------------------------------------------------------- filing characters

  const EMPTY_STORE := Store([Frag(0, 0, 0)], [], seq(TOKEN_COUNT, _ => 0))

  function Full(st: Store): bool { |st.data| >= MAX_HEADER_LEN }

  function Last(st: Store): Frag
    requires st.frags != []
  {
    st.frags[|st.frags| - 1]
  }

  function SetLast(st: Store, f: Frag): Store
    requires st.frags != []
  {
    st.(frags := st.frags[|st.frags| - 1 := f])
  }

  /** issue_char with room to spare. */
  function Put(st: Store, c: byte): Store
    requires st.frags != []
  {
    var st1 := st.(data := st.data + [c]);
    if c != 0 then SetLast(st1, Last(st).(len := Last(st).len + 1)) else st1
  }

  function PutIfRoom(st: Store, c: byte): Store
    requires st.frags != []
  {
    if Full(st) then st else Put(st, c)
  }

  /** What every step may rely on, clean input or not. */
  ghost predicate Wf(st: Store) {
    1 <= |st.frags| <= MAX_FRAGS && |st.heads| == TOKEN_COUNT && Links(st)
      && Last(st).offset + Last(st).len <= |st.data| <= MAX_HEADER_LEN
  }

  /** Takes the last character back. */
  function TakeBack(st: Store): Store
    requires st.frags != [] && 0 < Last(st).len <= |st.data|
  {
    SetLast(st, Last(st).(len := Last(st).len - 1)).(data := st.data[..|st.data| - 1])
  }

  /** The do-while of the directory back-up. */
  function BackUpLoop(st: Store): (r: Store)
    requires st.frags != [] && 0 < Last(st).len <= |st.data|
    ensures |r.frags| == |st.frags|
    decreases |st.data|
  {
    var st1 := TakeBack(st);
    if Last(st1).len > 1 && st.data[|st.data| - 1] != SLASH then BackUpLoop(st1) else st1
  }

  function BackUp(st: Store): (r: Store)
    requires st.frags != [] && Last(st).len <= |st.data|
    ensures |r.frags| == |st.frags|
  {
    if Last(st).len > 2 then BackUpLoop(TakeBack(st)) else st
  }

  function NewFrag(st: Store): Store { st.(frags := st.frags + [Frag(|st.data|, 0, 0)]) }

  /** The question mark seals the fragment and files what follows as URI arguments. */
  function StartArgs(st: Store): Store
    requires |st.heads| == TOKEN_COUNT
  {
    var st1 := NewFrag(st.(data := st.data + [0]));
    st1.(heads := st1.heads[URI_ARGS := |st.frags|])
  }

  function ChainEnd(st: Store, n: nat): (e: nat)
    requires Links(st) && 0 < n < |st.frags|
    ensures 0 < e < |st.frags| && st.frags[e].next == 0
    decreases |st.frags| - n
  {
    if st.frags[n].next == 0 then n else ChainEnd(st, st.frags[n].next)
  }

  datatype Filed = Filed(st: Store) | Dropped

  /** start_fragment */
  function StartFragment(st: Store, h: nat): Filed
    requires Links(st) && h < TOKEN_COUNT
  {
    if |st.frags| == MAX_FRAGS then Dropped
    else
      var i, n, st1 := |st.frags|, st.heads[h], NewFrag(st);
      if n == 0 then Filed(st1.(heads := st1.heads[h := i]))
      else if Full(st) then Dropped
      else
        var e := ChainEnd(st, n);
        Filed(Put(st1.(frags := st1.frags[e := st1.frags[e].(next := i)]), SPACE))
  }

  lemma NewFragLinks(st: Store, h: nat)
    requires Links(st) && |st.frags| < MAX_FRAGS && h < TOKEN_COUNT
    ensures var st1 := NewFrag(st); Links(st1.(heads := st1.heads[h := |st.frags|]))
  {}

  lemma ContinueLinks(st: Store, e: nat)
    requires Links(st) && |st.frags| < MAX_FRAGS && 0 < e < |st.frags| && st.frags[e].next == 0
    ensures var st1 := NewFrag(st); Links(st1.(frags := st1.frags[e := st1.frags[e].(next := |st.frags|)]))
  {}

  lemma SetLastLinks(st: Store, f: Frag, data: seq<byte>)
    requires Links(st) && f.next == Last(st).next
    ensures Links(SetLast(st, f).(data := data))
  {}

  lemma PutWf(st: Store, c: byte)
    requires Wf(st) && !Full(st)
    ensures Wf(Put(st, c))
  {
    hide Links;
    SetLastLinks(st, Last(st), st.data + [c]);
    SetLastLinks(st, Last(st).(len := Last(st).len + 1), st.data + [c]);
    assert SetLast(st, Last(st)) == st;
  }

  /** A character keeps the last fragment open, the NUL closes it. */
  lemma PutTiled(st: Store, c: byte)
    requires Tiled(st, true) && !Full(st)
    ensures Tiled(Put(st, c), c != 0) && (c == 0 ==> !Tiled(Put(st, c), true))
  {
    var st1, last := Put(st, c), |st.frags| - 1;
    assert Solid(st, last);
    forall i | 0 < i < |st1.frags| ensures Solid(st1, i) {
      assert Solid(st, i);
    }
    forall i | 0 < i < last ensures Terminated(st1, i) { assert Terminated(st, i); }
  }

  lemma TakeBackTiled(st: Store)
    requires Tiled(st, true) && |st.frags| > 1 && Last(st).len > 0
    ensures Last(st).len <= |st.data| && Tiled(TakeBack(st), true)
  {
    var last := |st.frags| - 1;
    assert Solid(st, last);
    var st1 := TakeBack(st);
    forall i | 0 < i < |st1.frags| ensures Solid(st1, i) {
      assert Solid(st, i);
      if i < last { RangesDisjoint(st, true, i, last); }
    }
    forall i | 0 < i < last ensures Terminated(st1, i) {
      assert Terminated(st, i);
      RangesDisjoint(st, true, i, last);
    }
  }

  lemma {:induction false} BackUpLoopKeeps(st: Store)
    requires Wf(st) && 0 < Last(st).len <= |st.data|
    ensures Wf(BackUpLoop(st))
    ensures Tiled(st, true) && |st.frags| > 1 ==> Tiled(BackUpLoop(st), true)
    decreases |st.data|
  {
    hide Links, Tiled;
    SetLastLinks(st, Last(st).(len := Last(st).len - 1), st.data[..|st.data| - 1]);
    if Tiled(st, true) && |st.frags| > 1 { TakeBackTiled(st); }
    var st1 := TakeBack(st);
    if Last(st1).len > 1 && st.data[|st.data| - 1] != SLASH { BackUpLoopKeeps(st1); }
  }

  /** Backing up over a directory keeps the tiling: it only shortens the last fragment. */
  lemma BackUpKeeps(st: Store)
    requires Wf(st)
    ensures Wf(BackUp(st)) && (Tiled(st, true) && |st.frags| > 1 ==> Tiled(BackUp(st), true))
  {
    hide Links, Tiled;
    if Last(st).len > 2 {
      SetLastLinks(st, Last(st).(len := Last(st).len - 1), st.data[..|st.data| - 1]);
      if Tiled(st, true) && |st.frags| > 1 { TakeBackTiled(st); }
      BackUpLoopKeeps(TakeBack(st));
    }
  }

  lemma NewFragTiled(st: Store)
    requires Links(st) && Tiled(st, false)
    ensures Tiled(NewFrag(st), true)
  {
    var st1, last := NewFrag(st), |st.frags| - 1;
    forall i | 0 < i < |st1.frags| ensures Solid(st1, i) { if i <= last { assert Solid(st, i); } }
    forall i | 0 < i < last + 1 ensures Terminated(st1, i) { assert Terminated(st, i); }
  }

  /** Two stores that differ in links alone are tiled alike. */
  lemma SameTiles(st: Store, st1: Store, open: bool)
    requires Tiled(st, open) && st1.data == st.data && |st1.frags| == |st.frags|
    requires forall i :: 0 <= i < |st.frags| ==>
      st1.frags[i].offset == st.frags[i].offset && st1.frags[i].len == st.frags[i].len
    ensures Tiled(st1, open)
  {
    forall i | 0 < i < |st1.frags| ensures Solid(st1, i) { assert Solid(st, i); }
    forall i | 0 < i < |st1.frags| - 1 ensures Terminated(st1, i) { assert Terminated(st, i); }
  }

  // -------------------------------------------------------------------- the parser

  datatype State = Token(h: nat) | NamePart | Skipping | SkippingSawCr | Complete
  datatype PathState = PathIdle | SeenSlash | SeenSlashDot | SeenSlashDotDot | Arguments
  datatype EscState = EscIdle | SeenPercent | SeenPercentH1

  // The headers the name table knows.
  type HeaderToken = n: nat | n <= REFERER

  // What lextable_decode makes of a character of a name.
  datatype Lookup = Unknown | Partial | Known(n: HeaderToken)

  datatype Parser = Parser(state: State, ups: PathState, ues: EscState, stash: byte, st: Store)

  // Overflow: the question mark finds no room, which the parser does not test for.
  datatype Result = More(p: Parser) | Failed | Overflow

  ghost predicate WfParser(p: Parser) {
    Wf(p.st) && (p.state.Token? ==> p.state.h <= REFERER) && (p.ues == SeenPercentH1 ==> Hex(p.stash) >= 0)
  }

  function Hex(c: byte): int {
    if 48 <= c <= 57 then c - 48 else if 97 <= c <= 102 then c - 97 + 10 else if 65 <= c <= 70 then c - 65 + 10 else -1
  }

  function Collect(p: Parser, c: byte): Result
    requires p.st.frags != []
  {
    if Full(p.st) then Failed else More(p.(st := Put(p.st, c)))
  }

  ghost function HeaderLength(st: Store, h: nat): nat
    requires Links(st) && h < TOKEN_COUNT
  {
    TotalLength(st, st.heads[h])
  }

  /** The test behind the swallow label; version is what atoi makes of the version header. */
  ghost function Swallow(p: Parser, h: nat, version: int): Result
    requires Wf(p.st) && h < TOKEN_COUNT
  {
    if h != CHALLENGE then More(p)
    else if HeaderLength(p.st, VERSION) == 0 && HeaderLength(p.st, h) != 8 then More(p)
    else if HeaderLength(p.st, VERSION) > 0 && version < 4 && HeaderLength(p.st, h) != 8 then More(p)
    else More(p.(state := Complete))
  }

  ghost function CheckEol(p: Parser, h: nat, c: byte, version: int): Result
    requires Wf(p.st) && h < TOKEN_COUNT
  {
    if h != CHALLENGE && c == CR then Collect(p.(state := SkippingSawCr), 0)
    else if c == QUESTION then
      if Full(p.st) || |p.st.frags| == MAX_FRAGS then Overflow
      else
        ArgsWf(p.st);
        Swallow(p.(st := StartArgs(p.st), ups := Arguments), h, version)
    else if Full(p.st) then Failed
    else
      PutWf(p.st, c);
      Swallow(p.(st := Put(p.st, c)), h, version)
  }

  lemma ArgsWf(st: Store)
    requires Wf(st) && !Full(st) && |st.frags| < MAX_FRAGS
    ensures Wf(StartArgs(st))
  {
    NewFragLinks(st.(data := st.data + [0]), URI_ARGS);
  }

  lemma PutIfRoomWf(st: Store, c: byte)
    requires Wf(st)
    ensures Wf(PutIfRoom(st, c))
  {
    if !Full(st) { PutWf(st, c); }
  }

  /** Squashing of dots and slashes in a request path. */
  ghost function PathChar(p: Parser, h: nat, c: byte, version: int): Result
    requires Wf(p.st) && h < TOKEN_COUNT
  {
    match p.ups
    case PathIdle => CheckEol(p.(ups := if c == SLASH then SeenSlash else PathIdle), h, c, version)
    case SeenSlash =>
      if c == SLASH then More(p)
      else if c == DOT then More(p.(ups := SeenSlashDot))
      else CheckEol(p.(ups := PathIdle), h, c, version)
    case SeenSlashDot =>
      if c == DOT then More(p.(st := BackUp(p.st), ups := SeenSlashDotDot))
      else if c == SLASH then More(p.(ups := SeenSlash))
      else
        PutIfRoomWf(p.st, DOT);
        CheckEol(p.(st := PutIfRoom(p.st, DOT), ups := PathIdle), h, c, version)
    case SeenSlashDotDot =>
      if c == DOT || c == SLASH then More(p) else CheckEol(p.(ups := SeenSlash), h, c, version)
    case Arguments => CheckEol(p, h, c, version)
  }

  /** Percent escapes; a false start is put back, its digit through the parser again. */
  ghost function EscChar(p: Parser, h: nat, c: byte, version: int): Result
    requires Wf(p.st) && h < TOKEN_COUNT
  {
    match p.ues
    case EscIdle => if c == PERCENT then More(p.(ues := SeenPercent)) else PathChar(p, h, c, version)
    case SeenPercent =>
      if Hex(c) >= 0 then More(p.(stash := c, ues := SeenPercentH1))
      else if Full(p.st) then Failed
      else
        PutWf(p.st, PERCENT);
        PathChar(p.(st := Put(p.st, PERCENT), ues := EscIdle), h, c, version)
    case SeenPercentH1 =>
      if Hex(c) >= 0 then PathChar(p.(ues := EscIdle), h, (Hex(p.stash) * 16 + Hex(c)) % 256, version)
      else
        PutIfRoomWf(p.st, PERCENT);
        var r := PathChar(p.(st := PutIfRoom(p.st, PERCENT), ues := EscIdle), h, p.stash, version);
        if r.More? && Wf(r.p.st) then PathChar(r.p, h, c, version) else r
  }

  /** A character of a header value. */
  ghost function ValueChar(p: Parser, h: nat, c: byte, version: int): Result
    requires Wf(p.st) && h < TOKEN_COUNT
  {
    if p.st.frags[p.st.heads[h]].len == 0 && c == SPACE then More(p)
    else if h != GET_URI && h != POST_URI then CheckEol(p, h, c, version)
    else if c == SPACE then
      if Last(p.st).len == 0 then
        if Full(p.st) then Failed else Collect(p.(st := Put(p.st, SLASH), state := Skipping), 0)
      else Collect(p.(state := Skipping), 0)
    else EscChar(p, h, c, version)
  }

  ghost function NameChar(p: Parser, look: Lookup): Result
    requires Wf(p.st)
  {
    match look
    case Unknown =>
      if p.st.heads[GET_URI] != 0 || p.st.heads[POST_URI] != 0 || p.st.heads[HTTP] != 0
      then More(p.(state := Skipping)) else Failed
    case Partial => More(p)
    case Known(n) =>
      if (n == GET_URI && p.st.heads[GET_URI] != 0) || (n == POST_URI && p.st.heads[POST_URI] != 0) then Failed
      else
        var h := if n == SWORIGIN then ORIGIN else n;
        if h == CHALLENGE && (HeaderLength(p.st, UPGRADE) == 0 || HeaderLength(p.st, VERSION) > 0)
          then More(p.(state := Complete))
        else match StartFragment(p.st, h)
          case Dropped => Failed
          case Filed(st) => More(p.(state := Token(h), st := st))
  }

  /** libwebsocket_parse */
  ghost function Step(p: Parser, c: byte, look: Lookup, version: int): Result
    requires WfParser(p)
  {
    match p.state
    case Token(h) => ValueChar(p, h, c, version)
    case NamePart => NameChar(p, look)
    case Skipping => More(if c == CR then p.(state := SkippingSawCr) else p)
    case SkippingSawCr => More(p.(state := if c == LF then NamePart else Skipping))
    case Complete => More(p)
  }

  const START := Parser(NamePart, PathIdle, EscIdle, 0, EMPTY_STORE)

  // ------------------------------------------------------- what any input leaves intact

  /** The result, if the parse goes on, has sound links and indices. */
  ghost predicate Usable(r: Result) { r.More? ==> WfParser(r.p) }

  lemma CheckEolUsable(p: Parser, h: nat, c: byte, version: int)
    requires WfParser(p) && h <= REFERER
    ensures Usable(CheckEol(p, h, c, version))
  {
    hide Links, Put, StartArgs, TotalLength;
    if !Full(p.st) {
      PutWf(p.st, 0);
      PutWf(p.st, c);
      if |p.st.frags| < MAX_FRAGS { ArgsWf(p.st); }
    }
  }

  lemma PathUsable(p: Parser, h: nat, c: byte, version: int)
    requires WfParser(p) && h <= REFERER
    ensures Usable(PathChar(p, h, c, version))
  {
    hide Links, CheckEol, PutIfRoom, BackUp;
    BackUpKeeps(p.st);
    PutIfRoomWf(p.st, DOT);
    var p1 := p.(st := PutIfRoom(p.st, DOT), ups := PathIdle);
    CheckEolUsable(p1, h, c, version);
    CheckEolUsable(p.(ups := PathIdle), h, c, version);
    CheckEolUsable(p.(ups := SeenSlash), h, c, version);
    CheckEolUsable(p, h, c, version);
  }

  /** A digit given back to the parser leaves it in the same header. */
  lemma DigitStays(p: Parser, h: nat, c: byte, version: int)
    requires WfParser(p) && p.state == Token(h) && h <= POST_URI && Hex(c) >= 0
    ensures !PathChar(p, h, c, version).Overflow?
    ensures var r := PathChar(p, h, c, version); r.More? ==> WfParser(r.p) && r.p.state == p.state && r.p.ues == p.ues
  {
    PathUsable(p, h, c, version);
    hide Wf, Links, Put;
  }

  lemma EscUsable(p: Parser, h: nat, c: byte, version: int)
    requires WfParser(p) && p.state == Token(h) && h <= POST_URI
    ensures Usable(EscChar(p, h, c, version))
  {
    hide Links, PutIfRoom, PathChar;
    if p.ues == EscIdle {
      PathUsable(p, h, c, version);
    } else if p.ues == SeenPercentH1 && Hex(c) >= 0 {
      PathUsable(p.(ues := EscIdle), h, (Hex(p.stash) * 16 + Hex(c)) % 256, version);
    } else if Hex(c) < 0 {
      PutIfRoomWf(p.st, PERCENT);
      var p1 := p.(st := PutIfRoom(p.st, PERCENT), ues := EscIdle);
      if p.ues == SeenPercentH1 {
        DigitStays(p1, h, p.stash, version);
        var r := PathChar(p1, h, p.stash, version);
        if r.More? { PathUsable(r.p, h, c, version); }
      } else if !Full(p.st) {
        PutIfRoomIs(p.st, PERCENT);
        PathUsable(p1, h, c, version);
      }
    }
  }

  lemma PutIfRoomIs(st: Store, c: byte)
    requires st.frags != [] && !Full(st)
    ensures PutIfRoom(st, c) == Put(st, c)
  {}

  /** Whatever the input, links stay sound: every walk along a chain ends and stays inside the table. */
  lemma StepUsable(p: Parser, c: byte, look: Lookup, version: int)
    requires WfParser(p)
    ensures Usable(Step(p, c, look, version))
  {
    hide Links, CheckEol, EscChar, Put, StartFragment;
    match p.state {
      case Token(h) =>
        if h != GET_URI && h != POST_URI { CheckEolUsable(p, h, c, version); }
        else if c != SPACE { EscUsable(p, h, c, version); }
        else if !Full(p.st) {
          PutWf(p.st, SLASH);
          PutWf(p.st, 0);
          if !Full(Put(p.st, SLASH)) { PutWf(Put(p.st, SLASH), 0); }
        }
      case NamePart =>
        if look.Known? { StartFragmentWf(p.st, if look.n == SWORIGIN then ORIGIN else look.n); }
      case _ =>
    }
  }

  lemma StartFragmentWf(st: Store, h: nat)
    requires Wf(st) && h < TOKEN_COUNT
    ensures StartFragment(st, h).Filed? ==> Wf(StartFragment(st, h).st)
  {
    if |st.frags| < MAX_FRAGS {
      var st1, n := NewFrag(st), st.heads[h];
      NewFragLinks(st, h);
      if n != 0 && !Full(st) {
        var e := ChainEnd(st, n);
        ContinueLinks(st, e);
        var st2 := st1.(frags := st1.frags[e := st1.frags[e].(next := |st.frags|)]);
        hide Links, Put;
        PutWf(st2, SPACE);
      }
    }
  }

  // --------------------------------------------------- where the question mark runs over

  /** The character after undoing a percent escape. */
  function Decoded(p: Parser, c: byte): byte {
    if p.state.Token? && p.state.h <= POST_URI && c != SPACE && p.ues == SeenPercentH1 && Hex(c) >= 0
      && Hex(p.stash) >= 0
    then (Hex(p.stash) * 16 + Hex(c)) % 256 else c
  }

  /** How many characters of a percent escape that c proves false are given back before c itself. */
  function GivenBack(p: Parser, c: byte): nat
    requires p.state.Token?
  {
    if p.state.h > POST_URI || Hex(c) >= 0 then 0
    else if p.ues == SeenPercent then 1
    else if p.ues == SeenPercentH1 then 2 else 0
  }

  /** A dot swallowed behind a slash is filed after all when the next character makes no directory of it. */
  function HeldDot(p: Parser): nat
    requires p.state.Token?
  {
    if p.state.h <= POST_URI && p.ups == SeenSlashDot then 1 else 0
  }

  /**
    A question mark whose fragment or terminator finds no room, and nothing given back
    before it that makes the parser fail first.
  */
  predicate RunsOver(p: Parser, c: byte) {
    && p.state.Token? && Decoded(p, c) == QUESTION
    && (|p.st.frags| == MAX_FRAGS || |p.st.data| + GivenBack(p, c) + HeldDot(p) >= MAX_HEADER_LEN)
    && |p.st.data| + (match GivenBack(p, c) case 0 => 0 case 1 => 1 case _ => 2 + HeldDot(p)) <= MAX_HEADER_LEN
  }

  /** The parser writes outside its tables exactly on a question mark without room. */
  lemma OverflowExactly(p: Parser, c: byte, look: Lookup, version: int)
    requires WfParser(p)
    ensures Step(p, c, look, version).Overflow? <==> RunsOver(p, c)
  {
    hide Links, TotalLength, StartArgs, BackUp, StartFragment, Put;
    if p.state.Token? {
      var h := p.state.h;
      if h > POST_URI { CheckEolOverflows(p, h, c, version); }
      else if c != SPACE { EscOverflows(p, h, c, version); }
    }
  }

  lemma CheckEolOverflows(p: Parser, h: nat, c: byte, version: int)
    requires WfParser(p) && h <= REFERER
    ensures CheckEol(p, h, c, version).Overflow? <==> c == QUESTION && (|p.st.frags| == MAX_FRAGS || Full(p.st))
  {
    hide Links, TotalLength, StartArgs, Put;
  }

  lemma PathOverflows(p: Parser, h: nat, c: byte, version: int)
    requires WfParser(p) && p.state == Token(h) && h <= POST_URI
    ensures PathChar(p, h, c, version).Overflow? <==>
      c == QUESTION && (|p.st.frags| == MAX_FRAGS || |p.st.data| + HeldDot(p) >= MAX_HEADER_LEN)
  {
    hide Links, CheckEol, BackUp;
    PutIfRoomWf(p.st, DOT);
    var p1 := p.(st := PutIfRoom(p.st, DOT), ups := PathIdle);
    CheckEolOverflows(p1, h, c, version);
    CheckEolOverflows(p.(ups := PathIdle), h, c, version);
    CheckEolOverflows(p.(ups := SeenSlash), h, c, version);
    CheckEolOverflows(p, h, c, version);
  }

  /** A digit is filed behind a held dot, or fails for want of room. */
  lemma DigitFiled(p: Parser, h: nat, c: byte, version: int)
    requires WfParser(p) && p.state == Token(h) && h <= POST_URI && Hex(c) >= 0
    ensures var r := PathChar(p, h, c, version);
      if |p.st.data| + HeldDot(p) >= MAX_HEADER_LEN then r.Failed?
      else
        r.More? && r.p.ups != SeenSlashDot
        && |r.p.st.frags| == |p.st.frags| && |r.p.st.data| == |p.st.data| + HeldDot(p) + 1
  {
    hide Links;
  }

  lemma EscOverflows(p: Parser, h: nat, c: byte, version: int)
    requires WfParser(p) && p.state == Token(h) && h <= POST_URI && c != SPACE
    ensures EscChar(p, h, c, version).Overflow? <==> RunsOver(p, c)
  {
    hide Links, PathChar;
    match p.ues {
      case EscIdle => PathOverflows(p, h, c, version);
      case SeenPercent =>
        if Hex(c) < 0 && !Full(p.st) {
          PutWf(p.st, PERCENT);
          PathOverflows(p.(st := Put(p.st, PERCENT), ues := EscIdle), h, c, version);
        }
      case SeenPercentH1 =>
        if Hex(c) >= 0 { PathOverflows(p.(ues := EscIdle), h, Decoded(p, c), version); }
        else {
          PutIfRoomWf(p.st, PERCENT);
          var p1 := p.(st := PutIfRoom(p.st, PERCENT), ues := EscIdle);
          DigitStays(p1, h, p.stash, version);
          DigitFiled(p1, h, p.stash, version);
          var r := PathChar(p1, h, p.stash, version);
          if r.More? { PathOverflows(r.p, h, c, version); }
        }
    }
  }

  // ------------------------------------------------------------ what every run keeps

  /** The fragments are tiled, the last one open while a value is being read. */
  ghost predicate Filing(p: Parser) {
    match p.state
    case Token(_) => Tiled(p.st, true) && |p.st.frags| > 1
    case Complete => Tiled(p.st, true) || Tiled(p.st, false)
    case _ => Tiled(p.st, false)
  }

  /** Reading the value of header h into an open fragment. */
  ghost predicate Reading(p: Parser, h: nat) {
    p.state == Token(h) && h <= REFERER && WfParser(p) && Tiled(p.st, true) && |p.st.frags| > 1
  }

  /** What a value character leaves behind: a NUL spoils the store, anything else keeps it. */
  ghost predicate Left(r: Result, clean: bool) {
    r.More? ==>
      && WfParser(r.p)
      && (clean ==> Filing(r.p))
      && (!clean && !r.p.state.Complete? ==> !Filing(r.p))
  }

  lemma SwallowLeft(p: Parser, h: nat, version: int, clean: bool)
    requires p.state == Token(h) && WfParser(p) && |p.st.frags| > 1 && (clean <==> Tiled(p.st, true))
    ensures Left(Swallow(p, h, version), clean)
  {
    hide Wf, Tiled, Links;
  }

  lemma ArgsTiled(st: Store)
    requires Wf(st) && Tiled(st, true) && !Full(st) && |st.frags| < MAX_FRAGS
    ensures Tiled(StartArgs(st), true) && |StartArgs(st).frags| > 1
  {
    var st1 := st.(data := st.data + [0]);
    assert st1 == Put(st, 0);
    PutTiled(st, 0);
    NewFragTiled(st1);
    SameTiles(NewFrag(st1), StartArgs(st), true);
  }

  /** The NUL at the end of a value closes its fragment. */
  lemma EndValueLeft(p: Parser, h: nat, next: State)
    requires Reading(p, h) && (next == Skipping || next == SkippingSawCr)
    ensures Left(Collect(p.(state := next), 0), true)
  {
    hide Wf, Tiled, Links, Put;
    if !Full(p.st) {
      PutWf(p.st, 0);
      PutTiled(p.st, 0);
    }
  }

  lemma CheckEolLeft(p: Parser, h: nat, c: byte, version: int)
    requires Reading(p, h)
    ensures Left(CheckEol(p, h, c, version), c != 0)
  {
    hide Tiled, Links, Put, StartArgs, Swallow;
    if Full(p.st) {
    } else if h != CHALLENGE && c == CR {
      EndValueLeft(p, h, SkippingSawCr);
    } else if c == QUESTION {
      if |p.st.frags| < MAX_FRAGS {
        ArgsWf(p.st);
        ArgsTiled(p.st);
        SwallowLeft(p.(st := StartArgs(p.st), ups := Arguments), h, version, true);
      }
    } else {
      PutWf(p.st, c);
      PutTiled(p.st, c);
      PutSize(p.st, c);
      SwallowLeft(p.(st := Put(p.st, c)), h, version, c != 0);
    }
  }

  lemma PutSize(st: Store, c: byte)
    requires st.frags != []
    ensures |Put(st, c).frags| == |st.frags|
  {}

  lemma PutReads(p: Parser, h: nat, c: byte)
    requires Reading(p, h) && c != 0
    ensures Reading(p.(st := PutIfRoom(p.st, c)), h)
  {
    hide Wf, Tiled, Links, Put;
    if !Full(p.st) {
      PutWf(p.st, c);
      PutTiled(p.st, c);
      PutSize(p.st, c);
    }
  }

  lemma PathLeft(p: Parser, h: nat, c: byte, version: int)
    requires Reading(p, h)
    ensures Left(PathChar(p, h, c, version), c != 0)
  {
    hide Wf, Tiled, Links, PutIfRoom, CheckEol, BackUp, TotalLength;
    match p.ups {
      case PathIdle => CheckEolLeft(p.(ups := if c == SLASH then SeenSlash else PathIdle), h, c, version);
      case SeenSlash => if c != SLASH && c != DOT { CheckEolLeft(p.(ups := PathIdle), h, c, version); }
      case SeenSlashDot =>
        BackUpKeeps(p.st);
        if c != SLASH && c != DOT {
          PutReads(p, h, DOT);
          CheckEolLeft(p.(st := PutIfRoom(p.st, DOT), ups := PathIdle), h, c, version);
        }
      case SeenSlashDotDot => if c != SLASH && c != DOT { CheckEolLeft(p.(ups := SeenSlash), h, c, version); }
      case Arguments => CheckEolLeft(p, h, c, version);
    }
  }

  lemma EscLeft(p: Parser, h: nat, c: byte, version: int)
    requires Reading(p, h) && h <= POST_URI && c != SPACE
    ensures Left(EscChar(p, h, c, version), Decoded(p, c) != 0)
  {
    hide Wf, Tiled, Links, PutIfRoom, PathChar;
    match p.ues {
      case EscIdle => PathLeft(p, h, c, version);
      case SeenPercent =>
        if Hex(c) < 0 && !Full(p.st) {
          PutReads(p, h, PERCENT);
          PutIfRoomIs(p.st, PERCENT);
          PathLeft(p.(st := Put(p.st, PERCENT), ues := EscIdle), h, c, version);
        }
      case SeenPercentH1 =>
        if Hex(c) >= 0 { PathLeft(p.(ues := EscIdle), h, Decoded(p, c), version); }
        else {
          PutReads(p, h, PERCENT);
          var p1 := p.(st := PutIfRoom(p.st, PERCENT), ues := EscIdle);
          DigitStays(p1, h, p.stash, version);
          PathLeft(p1, h, p.stash, version);
          var r := PathChar(p1, h, p.stash, version);
          if r.More? { PathLeft(r.p, h, c, version); }
        }
    }
  }

  lemma ValueLeft(p: Parser, h: nat, c: byte, version: int)
    requires Reading(p, h)
    ensures Left(ValueChar(p, h, c, version), Decoded(p, c) != 0)
  {
    hide Wf, Tiled, Put, Collect, CheckEol, EscChar;
    if h != GET_URI && h != POST_URI { CheckEolLeft(p, h, c, version); }
    else if c == SPACE {
      EndValueLeft(p, h, Skipping);
      if !Full(p.st) {
        PutReads(p, h, SLASH);
        PutIfRoomIs(p.st, SLASH);
        EndValueLeft(p.(st := Put(p.st, SLASH)), h, Skipping);
      }
    } else { EscLeft(p, h, c, version); }
  }

  /** A new fragment opens at the end of the data, whether it starts a chain or continues one. */
  lemma StartFragmentOpens(st: Store, h: nat)
    requires Wf(st) && Tiled(st, false) && h <= REFERER && StartFragment(st, h).Filed?
    ensures var st1 := StartFragment(st, h).st; Wf(st1) && Tiled(st1, true) && |st1.frags| > 1
  {
    var st1, i, n := NewFrag(st), |st.frags|, st.heads[h];
    NewFragTiled(st);
    if n == 0 {
      NewFragLinks(st, h);
      SameTiles(st1, st1.(heads := st1.heads[h := i]), true);
    } else {
      var e := ChainEnd(st, n);
      var st2 := st1.(frags := st1.frags[e := st1.frags[e].(next := i)]);
      ContinueLinks(st, e);
      SameTiles(st1, st2, true);
      hide Links, Tiled, Put;
      PutWf(st2, SPACE);
      PutTiled(st2, SPACE);
      PutSize(st2, SPACE);
    }
  }

  /** One step keeps the store in order exactly when no NUL is filed (or the parse just completed). */
  lemma StepKeepsExactly(p: Parser, c: byte, look: Lookup, version: int)
    requires WfParser(p) && Filing(p) && Step(p, c, look, version).More?
    ensures var p1 := Step(p, c, look, version).p;
      && WfParser(p1)
      && (p.state.Token? && Decoded(p, c) == 0 && !p1.state.Complete? ==> !Filing(p1))
      && (!p.state.Token? || Decoded(p, c) != 0 ==> Filing(p1))
  {
    hide Tiled, ValueChar, StartFragment;
    if p.state.Token? { ValueLeft(p, p.state.h, c, version); }
    else if p.state.NamePart? && look.Known? {
      var h := if look.n == SWORIGIN then ORIGIN else look.n;
      if StartFragment(p.st, h).Filed? { StartFragmentOpens(p.st, h); }
    }
  }

  datatype Input = Input(c: byte, look: Lookup, version: int)

  ghost function Run(p: Parser, inputs: seq<Input>): Result
    requires WfParser(p)
    decreases |inputs|
  {
    if inputs == [] then More(p)
    else
      var r := Step(p, inputs[0].c, inputs[0].look, inputs[0].version);
      if r.More? && WfParser(r.p) then Run(r.p, inputs[1..]) else r
  }

  /** No character filed along the run is a NUL, undone escapes included. */
  ghost predicate Clean(p: Parser, inputs: seq<Input>)
    requires WfParser(p)
    decreases |inputs|
  {
    inputs == [] ||
    ((p.state.Token? ==> Decoded(p, inputs[0].c) != 0) &&
     var r := Step(p, inputs[0].c, inputs[0].look, inputs[0].version);
     (r.More? && WfParser(r.p) ==> Clean(r.p, inputs[1..])))
  }

  /** Over every clean run, however headers are split, repeated or backed up, the store stays in order. */
  lemma {:induction false} RunKeeps(p: Parser, inputs: seq<Input>)
    requires WfParser(p) && Filing(p) && Clean(p, inputs) && Run(p, inputs).More?
    ensures WfParser(Run(p, inputs).p) && Filing(Run(p, inputs).p)
    decreases |inputs|
  {
    hide WfParser, Filing, Step;
    if inputs != [] {
      StepKeepsExactly(p, inputs[0].c, inputs[0].look, inputs[0].version);
      RunKeeps(Step(p, inputs[0].c, inputs[0].look, inputs[0].version).p, inputs[1..]);
    }
  }

  lemma StartsInOrder()
    ensures WfParser(START) && Filing(START)
  {}

  // ------------------------------------------------------------------ reading back

  ghost predicate AllTerminated(st: Store, n: nat)
    requires Links(st) && n < |st.frags|
    decreases |st.frags| - n
  {
    n == 0 || (Terminated(st, n) && (st.frags[n].next == 0 || AllTerminated(st, st.frags[n].next)))
  }

  /** Once no fragment is open, every header can be read back. */
  lemma {:induction false} ClosedIsReadable(st: Store, n: nat)
    requires Links(st) && Tiled(st, false) && n < |st.frags|
    ensures AllSolid(st) && AllTerminated(st, n)
    decreases |st.frags| - n
  {
    if n != 0 {
      assert Terminated(st, n);
      if st.frags[n].next != 0 { ClosedIsReadable(st, st.frags[n].next); }
    }
  }

  /** lws_hdr_simple_create when there is room. */
  function Create(st: Store, h: nat, s: seq<byte>): Store
    requires |st.heads| == TOKEN_COUNT && h < TOKEN_COUNT
  {
    Store(st.frags + [Frag(|st.data|, |s|, 0)], st.data + s + [0], st.heads[h := |st.frags|])
  }

  lemma CreateTiled(st: Store, h: nat, s: seq<byte>)
    requires Wf(st) && Tiled(st, false) && h < TOKEN_COUNT && |st.data| + |s| + 1 <= MAX_HEADER_LEN && 0 !in s
    ensures Tiled(Create(st, h, s), false)
  {
    hide Links;
    var st1, last := Create(st, h, s), |st.frags| - 1;
    forall i | 0 < i < |st1.frags| ensures Solid(st1, i) {
      if i <= last { assert Solid(st, i); } else { assert forall k :: 0 <= k < |s| ==> s[k] in s; }
    }
    forall i | 0 < i < |st1.frags| - 1 ensures Terminated(st1, i) { assert Terminated(st, i); }
  }

  /** A value stored whole reads back as it was, and the store stays in order. */
  lemma CreateReadsBack(st: Store, h: nat, s: seq<byte>)
    requires Wf(st) && Tiled(st, false) && |st.frags| < MAX_FRAGS && h < TOKEN_COUNT
    requires |st.data| + |s| + 1 <= MAX_HEADER_LEN && 0 !in s
    ensures var st1 := Create(st, h, s); Wf(st1) && Tiled(st1, false) && AllSolid(st1) && Text(st1, st1.heads[h]) == s
  {
    var st1 := Create(st, h, s);
    CreateTiled(st, h, s);
    NewFragLinks(st, h);
    SetLastLinks(NewFrag(st).(heads := st1.heads), Last(st1), st1.data);
    assert SetLast(NewFrag(st).(heads := st1.heads), Last(st1)).(data := st1.data) == st1;
    assert Piece(st1, |st.frags|) == s;
  }
}
