/**
  The walk of a request path against the path its segments make up: empty and "." segments
  disappear, and a ".." segment goes up a directory only in few places.
*/
module HeaderPaths {
  import opened Bytes
  import opened HeaderStore
  import opened HeaderUri

  // The text between two slashes.
  type Segment = seq<byte>

  /** The segments with a slash between any two. */
  function Spell(segs: seq<Segment>): seq<byte> {
    if segs == [] then [] else if |segs| == 1 then segs[0] else segs[0] + [SLASH] + Spell(segs[1..])
  }

  const HERE: Segment := [DOT]
  const UP: Segment := [DOT, DOT]

  /** A segment that should leave no trace. */
  predicate Nothing(s: Segment) { s == [] || s == HERE }

  /** A name of its own: neither of those, and not "..", nor anything that starts with it. */
  predicate Name(s: Segment) {
    s != [] && SLASH !in s && s != HERE && !(UP <= s)
  }

  /** The path: each name behind what was resolved before, which ends in a slash. */
  function Resolved(base: seq<byte>, segs: seq<Segment>): seq<byte>
    decreases |segs|
  {
    if segs == [] then base
    else
      var s := if Nothing(segs[0]) then [] else segs[0];
      if |segs| == 1 then base + s else Resolved(if s == [] then base else base + s + [SLASH], segs[1..])
  }

  function Filed(path: seq<byte>): seq<byte> { Walked(PathIdle, [], path).0 }

  // ------------------------------------------------------------------- plain segments

  lemma {:induction false} WalkedJoin(ups: PathState, w: seq<byte>, a: seq<byte>, b: seq<byte>)
    ensures Walked(ups, w, a + b) == (var r := Walked(ups, w, a); Walked(r.1, r.0, b))
    decreases |a|
  {
    if a == [] {
      assert a + b == b;
    } else {
      assert (a + b)[0] == a[0] && (a + b)[1..] == a[1..] + b;
      WalkedJoin(Walk(ups, w, a[0]).1, Walk(ups, w, a[0]).0, a[1..], b);
    }
  }

  /** Inside a name every character but a slash is filed. */
  lemma {:induction false} RestOfName(w: seq<byte>, s: seq<byte>)
    requires SLASH !in s
    ensures Walked(PathIdle, w, s) == (w + s, PathIdle)
    decreases |s|
  {
    if s == [] {
      assert w + s == w;
    } else {
      assert s[0] in s;
      RestOfName(w + [s[0]], s[1..]);
      assert w + [s[0]] + s[1..] == w + s;
    }
  }

  lemma OneWalked(ups: PathState, w: seq<byte>, c: byte)
    ensures Walked(ups, w, [c]) == Walk(ups, w, c)
  {
    var r := Walk(ups, w, c);
    assert Walked(r.1, r.0, [c][1..]) == r;
  }

  lemma DottedName(s: Segment)
    requires Name(s) && s[0] == DOT
    ensures |s| > 1 && s[1] != DOT && s[1] != SLASH
  {
    assert |s| == 1 ==> s == HERE;
    if |s| > 1 {
      var two := s[..2];
      assert two == [DOT, s[1]] && s[1] in s;
    }
  }

  /** A name behind a slash. */
  lemma NameWalked(w: seq<byte>, s: Segment)
    requires Name(s)
    ensures Walked(SeenSlash, w, s) == (w + s, PathIdle)
  {
    var rest := s[1..];
    assert s[0] in s;
    if s[0] == DOT {
      DottedName(s);
      RestOfName(w + [DOT] + [s[1]], rest[1..]);
      assert w + [DOT] + [s[1]] + rest[1..] == w + s;
    } else {
      RestOfName(w + [s[0]], rest);
      assert w + [s[0]] + rest == w + s;
    }
  }

  /** A segment behind a slash, and the slash that ends it. */
  lemma SegmentWalked(w: seq<byte>, s: Segment)
    requires Name(s) || Nothing(s)
    ensures Walked(SeenSlash, w, s).0 == w + (if Nothing(s) then [] else s)
    ensures Walked(SeenSlash, w, s + [SLASH]) == (if Nothing(s) then w else w + s + [SLASH], SeenSlash)
  {
    WalkedJoin(SeenSlash, w, s, [SLASH]);
    if Name(s) {
      NameWalked(w, s);
      OneWalked(PathIdle, w + s, SLASH);
    } else {
      assert w + [] == w;
      if s == HERE {
        OneWalked(SeenSlash, w, DOT);
        OneWalked(SeenSlashDot, w, SLASH);
      } else {
        OneWalked(SeenSlash, w, SLASH);
      }
    }
  }

  predicate Flat(segs: seq<Segment>) { forall k :: 0 <= k < |segs| ==> Name(segs[k]) || Nothing(segs[k]) }

  lemma {:induction false} SegmentsWalked(w: seq<byte>, segs: seq<Segment>)
    requires Flat(segs)
    ensures Walked(SeenSlash, w, Spell(segs)).0 == Resolved(w, segs)
    decreases |segs|
  {
    if segs != [] {
      var s := segs[0];
      SegmentWalked(w, s);
      if |segs| > 1 {
        assert s + [SLASH] + Spell(segs[1..]) == Spell(segs);
        WalkedJoin(SeenSlash, w, s + [SLASH], Spell(segs[1..]));
        SegmentsWalked(if Nothing(s) then w else w + s + [SLASH], segs[1..]);
      }
    }
  }

  /**
    Whatever names, empty segments and "." segments a path is made of: the names are filed as they
    are, each behind a slash, and nothing else; a slash at the end stays.
  */
  lemma PathIsResolved(segs: seq<Segment>)
    requires Flat(segs)
    ensures Filed([SLASH] + Spell(segs)) == Resolved([SLASH], segs)
  {
    FromRoot(segs);
    SegmentsWalked([SLASH], segs);
  }

  lemma FromRoot(segs: seq<Segment>)
    ensures Filed([SLASH] + Spell(segs)) == Walked(SeenSlash, [SLASH], Spell(segs)).0
  {
    WalkedJoin(PathIdle, [], [SLASH], Spell(segs));
    OneWalked(PathIdle, [], SLASH);
    assert [] + [SLASH] == [SLASH];
  }

  // --------------------------------------------------------------- one directory up

  predicate Names(segs: seq<Segment>) { forall k :: 0 <= k < |segs| ==> Name(segs[k]) }

  /** The path with one ".." between names. */
  function WithUp(before: seq<Segment>, after: seq<Segment>): seq<byte> {
    [SLASH] + Spell(before + [UP] + after)
  }

  /** What it should be: without the last name in front; a slash stays if nothing follows. */
  function Intended(before: seq<Segment>, after: seq<Segment>): seq<byte> {
    var kept := if before == [] then [] else before[..|before| - 1];
    Resolved([SLASH], kept + if after == [] then [[]] else after)
  }

  /** A name that is filed whole although the walk is already behind its first character's slash. */
  predicate Survives(q: Segment, last: bool) {
    q != [] && q[0] != DOT
    && if |q| == 1 then last else q[1] != DOT || (|q| > 2 && q[2] != DOT)
  }

  /** Each of the names in front, with its slash. */
  function Base(w: seq<byte>, names: seq<Segment>): seq<byte> {
    if names == [] then w else Base(w, names[..|names| - 1]) + names[|names| - 1] + [SLASH]
  }

  lemma {:induction false} ResolvedNames(w: seq<byte>, names: seq<Segment>, segs: seq<Segment>)
    requires Names(names) && segs != []
    ensures Resolved(w, names + segs) == Resolved(Base(w, names), segs)
    decreases |names|
  {
    if names == [] {
      assert names + segs == segs;
    } else {
      var k := |names| - 1;
      var last := names[k];
      assert names + segs == names[..k] + ([last] + segs);
      ResolvedNames(w, names[..k], [last] + segs);
      assert ([last] + segs)[1..] == segs;
    }
  }

  lemma {:induction false} NamesWalked(w: seq<byte>, names: seq<Segment>, segs: seq<Segment>)
    requires Names(names) && segs != []
    ensures Walked(SeenSlash, w, Spell(names + segs)) == Walked(SeenSlash, Base(w, names), Spell(segs))
    decreases |names|
  {
    if names == [] {
      assert names + segs == segs;
    } else {
      var k := |names| - 1;
      var last := names[k];
      assert names + segs == names[..k] + ([last] + segs);
      NamesWalked(w, names[..k], [last] + segs);
      var b := Base(w, names[..k]);
      SegmentWalked(b, last);
      assert ([last] + segs)[1..] == segs && last + [SLASH] + Spell(segs) == Spell([last] + segs);
      WalkedJoin(SeenSlash, b, last + [SLASH], Spell(segs));
    }
  }

  lemma {:induction false} CutName(w: seq<byte>, s: seq<byte>)
    requires w != [] && w[|w| - 1] == SLASH && SLASH !in s
    ensures Cut(w + s) == if |w| > 1 then w[..|w| - 1] else if s == [] then [] else w
    decreases |s|
  {
    var k := |w + s| - 1;
    if s == [] {
      assert w + s == w;
    } else {
      var j := |s| - 1;
      assert (w + s)[k] == s[j] && s[j] in s && (w + s)[..k] == w + s[..j];
      if k > 1 { CutName(w, s[..j]); } else { assert w + s[..0] == w; }
    }
  }

  /** Backing up from a name leaves the directory it is in, but without its slash unless that is the root. */
  lemma BackedName(w: seq<byte>, s: Segment)
    requires w != [] && w[|w| - 1] == SLASH && Name(s)
    ensures Backed(w + s + [SLASH]) == if |w| > 1 then w[..|w| - 1] else w
  {
    assert (w + s + [SLASH])[..|w + s|] == w + s;
    CutName(w, s);
  }

  lemma {:induction false} BaseEnds(names: seq<Segment>)
    requires Names(names)
    ensures var b := Base([SLASH], names); b != [] && b[|b| - 1] == SLASH && (|b| > 1 <==> names != [])
    decreases |names|
  {
    if names != [] { BaseEnds(names[..|names| - 1]); }
  }

  lemma {:induction false} ResolvedIsText(w: seq<byte>, names: seq<Segment>)
    requires Names(names)
    ensures Resolved(w, names) == w + Spell(names)
    decreases |names|
  {
    if names == [] {
      assert w + [] == w;
    } else if |names| > 1 {
      assert Name(names[0]);
      ResolvedIsText(w + names[0] + [SLASH], names[1..]);
      assert w + names[0] + [SLASH] + Spell(names[1..]) == w + Spell(names);
    }
  }

  /** What stands behind a name: nothing, or a slash and the names to come. */
  function Behind(names: seq<Segment>): seq<byte> { if names == [] then [] else [SLASH] + Spell(names) }

  /** Once inside a name, all the rest is filed. */
  lemma Continues(w: seq<byte>, s: seq<byte>, names: seq<Segment>)
    requires SLASH !in s && Names(names)
    ensures Walked(PathIdle, w, s + Behind(names)).0 == w + (s + Behind(names))
  {
    WalkedJoin(PathIdle, w, s, Behind(names));
    RestOfName(w, s);
    assert w + s + Behind(names) == w + (s + Behind(names));
    if names != [] {
      WalkedJoin(PathIdle, w + s, [SLASH], Spell(names));
      OneWalked(PathIdle, w + s, SLASH);
      SegmentsWalked(w + s + [SLASH], names);
      ResolvedIsText(w + s + [SLASH], names);
      assert w + s + [SLASH] + Spell(names) == w + s + Behind(names);
    }
  }

  lemma {:induction false} WalkedSize(ups: PathState, w: seq<byte>, v: seq<byte>)
    ensures var r := Walked(ups, w, v); |r.0| + Held(r.1) <= |w| + Held(ups) + |v|
    decreases |v|
  {
    if v != [] {
      var r := Walk(ups, w, v[0]);
      WalkSize(ups, w, v[0]);
      WalkedSize(r.1, r.0, v[1..]);
    }
  }

  lemma SpellFirst(names: seq<Segment>)
    requires names != []
    ensures Spell(names) == names[0] + Behind(names[1..])
  {
    assert names[0] + [SLASH] + Spell(names[1..]) == names[0] + ([SLASH] + Spell(names[1..]));
    assert names[0] + [] == names[0];
  }

  /** Behind the first character of a name the walk stands as if behind a slash. */
  lemma SecondCharacter(w: seq<byte>, q: Segment, names: seq<Segment>)
    requires Name(q) && q[0] != DOT && Names(names)
    ensures var u := q[1..] + Behind(names);
      Walked(SeenSlash, w, u).0 == w + u <==> Survives(q, names == [])
  {
    if |q| == 1 {
      SingleCharacter(w, names);
      assert q[1..] + Behind(names) == Behind(names);
    } else if q[1] != DOT {
      TailOfName(q, 1);
      PlainSecond(w, q, names);
    } else {
      DotSecond(w, q, names);
    }
  }

  lemma SingleCharacter(w: seq<byte>, names: seq<Segment>)
    ensures Walked(SeenSlash, w, Behind(names)).0 == w + Behind(names) <==> names == []
  {
    if names == [] {
      assert w + Behind(names) == w;
    } else {
      WalkedSize(SeenSlash, w, Spell(names));
      WalkedFirst(SeenSlash, w, Behind(names));
      assert Behind(names)[1..] == Spell(names);
    }
  }

  lemma PlainSecond(w: seq<byte>, q: Segment, names: seq<Segment>)
    requires Name(q) && |q| > 1 && q[1] != DOT && q[1] != SLASH && Names(names)
    ensures var u := q[1..] + Behind(names); Walked(SeenSlash, w, u).0 == w + u
  {
    FiledAfterSlash(w, q[1], q[2..] + Behind(names));
    TailOfName(q, 1);
    assert q[1..] + Behind(names) == [q[1]] + (q[2..] + Behind(names));
    hide *;
    Continues(w + [q[1]], q[2..], names);
  }

  lemma TailOfName(q: Segment, k: nat)
    requires Name(q) && k < |q|
    ensures q[k] != SLASH && SLASH !in q[k + 1..]
  {
    assert q[k] in q && forall c :: c in q[k + 1..] ==> c in q;
  }

  lemma FiledAfterSlash(w: seq<byte>, c: byte, u: seq<byte>)
    requires c != DOT && c != SLASH
    ensures Walked(SeenSlash, w, [c] + u) == Walked(PathIdle, w + [c], u)
    ensures w + ([c] + u) == w + [c] + u
  {
    WalkedFirst(SeenSlash, w, [c] + u);
    assert ([c] + u)[1..] == u;
  }

  lemma DotSecond(w: seq<byte>, q: Segment, names: seq<Segment>)
    requires Name(q) && |q| > 1 && q[1] == DOT && Names(names)
    ensures var u := q[1..] + Behind(names);
      Walked(SeenSlash, w, u).0 == w + u <==> |q| > 2 && q[2] != DOT
  {
    var u := q[1..] + Behind(names);
    var v := q[2..] + Behind(names);
    assert u[0] == DOT && u[1..] == v && |u| == |v| + 1;
    WalkedFirst(SeenSlash, w, u);
    if v != [] { WalkedFirst(SeenSlashDot, w, v); }
    assert Walked(SeenSlashDot, w, []) == (w, SeenSlashDot);
    hide Walked, Behind;
    if v == [] {
    } else if |q| == 2 {
      assert v[0] == SLASH;
      WalkedSize(SeenSlash, w, v[1..]);
    } else if q[2] == DOT {
      assert v[0] == DOT;
      BackedSize(w);
      WalkedSize(SeenSlashDotDot, Backed(w), v[1..]);
    } else {
      assert q[2] in q && v[0] == q[2] && v[1..] == q[3..] + Behind(names);
      assert forall c :: c in q[3..] ==> c in q;
      Continues(w + [DOT] + [q[2]], q[3..], names);
      assert w + [DOT] + [q[2]] + v[1..] == w + u;
    }
  }

  lemma BackedSize(w: seq<byte>)
    ensures |Backed(w)| <= |w|
  {
    if |w| > 2 { CutShortens(w[..|w| - 1]); }
  }

  /** Where the walk stands behind the "..": at the directory meant, or a slash short of it. */
  lemma UpWalked(before: seq<Segment>)
    requires Names(before)
    ensures var kept := if before == [] then [] else before[..|before| - 1];
      var up := Base([SLASH], kept);
      Walked(SeenSlash, Base([SLASH], before), UP)
        == (if |before| <= 1 then up else up[..|up| - 1], SeenSlashDotDot)
  {
    var b := Base([SLASH], before);
    assert UP[1..] == [DOT] && [DOT as byte][1..] == [];
    assert Walked(SeenSlash, b, UP) == Walked(SeenSlashDot, b, [DOT]);
    OneWalked(SeenSlashDot, b, DOT);
    if before != [] {
      var k := |before| - 1;
      assert Name(before[k]);
      BaseEnds(before[..k]);
      BackedName(Base([SLASH], before[..k]), before[k]);
    }
  }

  /** The names behind a ".." are filed as they are exactly when the first one survives. */
  lemma AfterUp(w: seq<byte>, after: seq<Segment>)
    requires Names(after) && after != []
    ensures Walked(SeenSlashDotDot, w, Spell(after)).0 == w + Spell(after) <==> Survives(after[0], |after| == 1)
    ensures |Walked(SeenSlashDotDot, w, Spell(after)).0| <= |w| + |Spell(after)|
  {
    var q, names := after[0], after[1..];
    SpellFirst(after);
    NamesBehind(after);
    hide Walked, Spell, Behind, Survives, Names, Name;
    FirstAfterUp(w, q, names);
    WalkedSize(SeenSlashDotDot, w, q + Behind(names));
  }

  lemma FirstAfterUp(w: seq<byte>, q: Segment, names: seq<Segment>)
    requires Name(q) && Names(names)
    ensures var s := q + Behind(names);
      Walked(SeenSlashDotDot, w, s).0 == w + s <==> Survives(q, names == [])
  {
    var s := q + Behind(names);
    FirstOfName(q);
    if q[0] == DOT { DotAfterUp(w, s); } else { PlainAfterUp(w, q, names); }
  }

  lemma DotAfterUp(w: seq<byte>, s: seq<byte>)
    requires s != [] && s[0] == DOT
    ensures |Walked(SeenSlashDotDot, w, s).0| < |w| + |s|
  {
    WalkedFirst(SeenSlashDotDot, w, s);
    hide Walked;
    WalkedSize(SeenSlashDotDot, w, s[1..]);
  }

  lemma PlainAfterUp(w: seq<byte>, q: Segment, names: seq<Segment>)
    requires Name(q) && q[0] != DOT && q[0] != SLASH && Names(names)
    ensures var s := q + Behind(names);
      Walked(SeenSlashDotDot, w, s).0 == w + s <==> Survives(q, names == [])
  {
    FiledAfterUp(w, q[0], q[1..] + Behind(names));
    assert q + Behind(names) == [q[0]] + (q[1..] + Behind(names));
    hide *;
    SecondCharacter(w + [q[0]], q, names);
  }

  lemma FiledAfterUp(w: seq<byte>, c: byte, u: seq<byte>)
    requires c != DOT && c != SLASH
    ensures Walked(SeenSlashDotDot, w, [c] + u) == Walked(SeenSlash, w + [c], u)
    ensures w + ([c] + u) == w + [c] + u
  {
    WalkedFirst(SeenSlashDotDot, w, [c] + u);
    assert ([c] + u)[1..] == u;
  }

  lemma FirstOfName(q: Segment)
    requires Name(q)
    ensures q != [] && q[0] != SLASH
  {}

  lemma NamesBehind(names: seq<Segment>)
    requires Names(names) && names != []
    ensures Name(names[0]) && Names(names[1..]) && (|names| == 1 <==> names[1..] == [])
  {}

  /** Where the ".." leads to. */
  function Reached(before: seq<Segment>): seq<byte> {
    var up := Base([SLASH], if before == [] then [] else before[..|before| - 1]);
    if |before| <= 1 || up == [] then up else up[..|up| - 1]
  }

  /** What is filed: where the ".." leads to, and what the walk then makes of the names behind it. */
  lemma FiledUp(before: seq<Segment>, after: seq<Segment>)
    requires Names(before)
    ensures Filed(WithUp(before, after)) == Walked(SeenSlashDotDot, Reached(before), Spell(after)).0
  {
    BaseEnds(if before == [] then [] else before[..|before| - 1]);
    UpWalked(before);
    assert Walked(SeenSlash, Base([SLASH], before), UP) == (Reached(before), SeenSlashDotDot);
    hide Walked, Base, Spell, Reached, Filed;
    FromRoot(before + [UP] + after);
    assert before + [UP] + after == before + ([UP] + after);
    NamesWalked([SLASH], before, [UP] + after);
    BehindUp(Base([SLASH], before), Reached(before), after);
  }

  lemma BehindUp(w: seq<byte>, d: seq<byte>, after: seq<Segment>)
    requires Walked(SeenSlash, w, UP) == (d, SeenSlashDotDot)
    ensures Walked(SeenSlash, w, Spell([UP] + after)).0 == Walked(SeenSlashDotDot, d, Spell(after)).0
  {
    SpellUp(after);
    hide Walk, Spell;
    if after != [] {
      WalkedJoin(SeenSlash, w, UP, [SLASH] + Spell(after));
      WalkedFirst(SeenSlashDotDot, d, [SLASH] + Spell(after));
      SlashDropped(d);
      hide Walked;
      assert ([SLASH] + Spell(after))[1..] == Spell(after);
    }
  }

  lemma SlashDropped(w: seq<byte>)
    ensures Walk(SeenSlashDotDot, w, SLASH) == (w, SeenSlashDotDot)
  {}

  lemma SpellUp(after: seq<Segment>)
    ensures Spell([UP] + after) == if after == [] then UP else UP + ([SLASH] + Spell(after))
    ensures Spell([]) == []
  {
    assert ([UP] + after)[1..] == after;
  }

  /** What was intended: the directory reached if there is at most one to leave, and the names behind it. */
  lemma IntendedIs(before: seq<Segment>, after: seq<Segment>)
    requires Names(before) && Names(after)
    ensures |before| <= 1 ==> Intended(before, after) == Reached(before) + Spell(after)
    ensures |before| > 1 ==> |Intended(before, after)| == |Reached(before)| + 1 + |Spell(after)|
  {
    var kept := if before == [] then [] else before[..|before| - 1];
    var up := Base([SLASH], kept);
    BaseEnds(kept);
    ResolvedNames([SLASH], kept, if after == [] then [[]] else after);
    if after == [] {
      assert up + [] == up && Spell(after) == [];
    } else {
      ResolvedIsText(up, after);
    }
  }

  /**
    Going up one directory: the path comes out as intended exactly when there is at most one
    directory to leave and, if anything follows, the next name is longer than one character or
    the last, and has no dot in front, and none behind its first character that another one, a
    slash or the end follows.
  */
  lemma UpExactly(before: seq<Segment>, after: seq<Segment>)
    requires Names(before) && Names(after)
    ensures Filed(WithUp(before, after)) == Intended(before, after)
      <==> |before| <= 1 && (after == [] || Survives(after[0], |after| == 1))
  {
    hide Filed, Intended, Spell, Reached, Walked;
    FiledUp(before, after);
    IntendedIs(before, after);
    WalkedSize(SeenSlashDotDot, Reached(before), Spell(after));
    if after == [] {
      NothingBehind(Reached(before));
    } else {
      AfterUp(Reached(before), after);
    }
  }

  lemma NothingBehind(w: seq<byte>)
    ensures Walked(SeenSlashDotDot, w, Spell([])).0 == w + Spell([])
  {
    assert w + [] == w;
  }

  /** Two of the places where it goes wrong: "/a/b/../c" is filed as "/ac", and "/a/../b/c" as "/bc". */
  lemma UpGoesWrong()
    ensures Filed(WithUp([[97], [98]], [[99]])) == [SLASH, 97, 99]
    ensures Filed(WithUp([[97]], [[98], [99]])) == [SLASH, 98, 99]
  {
    FiledUp([[97], [98]], [[99]]);
    FiledUp([[97]], [[98], [99]]);
    var ab: seq<Segment> := [[97], [98]];
    assert ab[..1] == [[97]] && Base([SLASH], [[97]]) == [SLASH, 97, SLASH];
    assert Reached(ab) == [SLASH, 97] && Reached([[97]]) == [SLASH];
    OneWalked(SeenSlashDotDot, [SLASH, 97], 99);
    WalkedJoin(SeenSlashDotDot, [SLASH], [98], [SLASH, 99]);
    OneWalked(SeenSlashDotDot, [SLASH], 98);
    WalkedJoin(SeenSlash, [SLASH, 98], [SLASH], [99]);
    OneWalked(SeenSlash, [SLASH, 98], SLASH);
    OneWalked(SeenSlash, [SLASH, 98], 99);
    var bc: seq<Segment> := [[98], [99]];
    assert bc[1..] == [[99]] && Spell(bc) == [98] + [SLASH, 99];
  }
}
