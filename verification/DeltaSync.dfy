/**
  The delta protocol between the pit-crew server and its browser client: the server sends
  only the fields that changed since the last message (callback_iracing_data in
  WebServerLWS.cpp), the client finds them in the text again (parseDataPortion in
  parseYaml.js) and keeps what it has for the rest.
*/
module DeltaSync {

  // ------------------------------------------------------------------- searching

  /** indexOf: the first occurrence of p in s at or after from, or -1. */
  function IndexOf(s: string, p: string, from: nat): (i: int)
    ensures i == -1 || from <= i <= |s| - |p|
    decreases |s| - from
  {
    if from + |p| > |s| then -1 else if s[from..from + |p|] == p then from else IndexOf(s, p, from + 1)
  }

  /** Positions that do not hold the first character of p can be skipped. */
  lemma {:induction false} SkipTo(s: string, p: string, from: nat, to: nat)
    requires p != "" && from <= to <= |s| && forall i :: from <= i < to ==> s[i] != p[0]
    ensures IndexOf(s, p, from) == IndexOf(s, p, to)
  {
    if from < to {
      SkipTo(s, p, from, to - 1);
      if to - 1 + |p| <= |s| { assert s[to - 1..to - 1 + |p|][0] == s[to - 1]; }
    }
  }

  // --------------------------------------------------------------------- messages

  const NOT_SET := "<not set>"
  const MARKER := "***D.A.T.A***"

  datatype Field = Field(name: string, value: string)

  /** stripUnicode: characters outside 0..127 are removed. */
  function Strip(s: string): string {
    if s == "" then "" else Kept(s[0]) + Strip(s[1..])
  }

  function Kept(c: char): string { if (c as int) < 128 then [c] else "" }

  function Body(fields: seq<Field>): string {
    if fields == [] then "" else fields[0].name + ";" + fields[0].value + "\n" + Body(fields[1..])
  }

  /** The fields that are new or differ from what was last sent. */
  function Unsent(fields: seq<Field>, last: map<string, string>): seq<Field> {
    if fields == [] then []
    else
      (if fields[0].name in last && last[fields[0].name] == fields[0].value then [] else [fields[0]])
      + Unsent(fields[1..], last)
  }

  function Portion(fields: seq<Field>): string { MARKER + "\n" + "\n" + Body(fields) }

  /** What a writeable event sends. */
  function Message(reset: bool, session: string, fields: seq<Field>, last: map<string, string>): string {
    Strip((if reset then session + "\n" else "") + Portion(Unsent(fields, if reset then map[] else last)))
  }

  // ----------------------------------------------------------------------- client

  /** parseDataPortion */
  function ParseDataPortion(portion: string, tag: string): string {
    if |portion| > 0 && |tag| > 0 then
      var pos1 := IndexOf(portion, "\n" + tag + ";", 0);
      if pos1 >= 0 then
        var semi := IndexOf(portion, ";", pos1);
        if semi < 0 then "" else
        var pos2 := IndexOf(portion, "\n", semi);
        if pos2 > semi + 1 then portion[semi + 1..pos2] else ""
      else NOT_SET
    else NOT_SET
  }

  /** What the client finds under a name in a message. */
  function Found(message: string, tag: string): string {
    var dataPos := IndexOf(message, MARKER, 0);
    if dataPos < 0 then NOT_SET else ParseDataPortion(message[dataPos..], tag)
  }

  /** The names whose value the page does not clear: an empty one is ignored. */
  const KEPT_NAMES: set<string> := {"FuelDisplayConversionFactor", "FuelDisplayUnits", "IsOnTrack", "OnPitRoad"}

  predicate Refused(tag: string, value: string) { tag in KEPT_NAMES && value == "" }

  /** It looks one name up and stores what it finds, if anything, unless the name refuses it. */
  function Receive(store: map<string, string>, message: string, tag: string): map<string, string> {
    var value := Found(message, tag);
    if value != NOT_SET && !Refused(tag, value) then store[tag := value] else store
  }

  function ReceiveAll(store: map<string, string>, message: string, tags: seq<string>): map<string, string>
    decreases |tags|
  {
    if tags == [] then store else ReceiveAll(Receive(store, message, tags[0]), message, tags[1..])
  }

  // -------------------------------------------------------- what the fields must avoid

  predicate Ascii(s: string) { forall i :: 0 <= i < |s| ==> (s[i] as int) < 128 }

  predicate NameOk(n: string) { n != "" && Ascii(n) && '\n' !in n && ';' !in n }

  predicate ValueOk(v: string) { '\n' !in v && Strip(v) != NOT_SET }

  ghost predicate FieldsOk(fields: seq<Field>) {
    && (forall i :: 0 <= i < |fields| ==> NameOk(fields[i].name) && ValueOk(fields[i].value))
    && (forall i, j :: 0 <= i < j < |fields| ==> fields[i].name != fields[j].name)
  }

  predicate SessionOk(session: string) { IndexOf(Strip(session), MARKER, 0) == -1 }

  // --------------------------------------------------------------------- stripping

  lemma {:induction false} StripAppend(s: string, t: string)
    ensures Strip(s + t) == Strip(s) + Strip(t)
  {
    hide Kept;
    if s == "" {
      assert s + t == t;
    } else {
      StripAppend(s[1..], t);
      assert (s + t)[1..] == s[1..] + t;
      assert Kept(s[0]) + (Strip(s[1..]) + Strip(t)) == Kept(s[0]) + Strip(s[1..]) + Strip(t);
    }
  }

  lemma {:induction false} StripAscii(s: string)
    requires Ascii(s)
    ensures Strip(s) == s
  {
    if s != "" { StripAscii(s[1..]); }
  }

  lemma {:induction false} StripKeepsOut(s: string, c: char)
    requires c !in s
    ensures c !in Strip(s)
  {
    if s != "" { StripKeepsOut(s[1..], c); }
  }

  function Occurrences(s: string, c: char): nat {
    if s == "" then 0 else (if s[0] == c then 1 else 0) + Occurrences(s[1..], c)
  }

  /** Stripping keeps every character below 128, as often as it occurs, and no other. */
  lemma {:induction false} StripExactly(s: string, c: char)
    ensures Occurrences(Strip(s), c) == if (c as int) < 128 then Occurrences(s, c) else 0
  {
    if s != "" {
      StripExactly(s[1..], c);
      if (s[0] as int) < 128 {
        assert (Kept(s[0]) + Strip(s[1..]))[1..] == Strip(s[1..]);
      } else {
        assert "" + Strip(s[1..]) == Strip(s[1..]);
      }
    }
  }

  function Stripped(fields: seq<Field>): seq<Field> {
    if fields == [] then [] else [Field(fields[0].name, Strip(fields[0].value))] + Stripped(fields[1..])
  }

  lemma StripEntry(name: string, value: string, rest: string)
    requires Ascii(name)
    ensures Strip(name + ";" + value + "\n" + rest) == name + ";" + Strip(value) + "\n" + Strip(rest)
  {
    StripAppend(name + ";" + value + "\n", rest);
    StripAppend(name + ";" + value, "\n");
    StripAppend(name + ";", value);
    StripAppend(name, ";");
    StripAscii(name);
    assert Strip(";") == ";" && Strip("\n") == "\n";
  }

  lemma {:induction false} StripBody(fields: seq<Field>)
    requires FieldsOk(fields)
    ensures Strip(Body(fields)) == Body(Stripped(fields))
  {
    if fields != [] {
      StripEntry(fields[0].name, fields[0].value, Body(fields[1..]));
      StripBody(fields[1..]);
    }
  }

  lemma {:induction false} StrippedFields(fields: seq<Field>)
    requires FieldsOk(fields)
    ensures |Stripped(fields)| == |fields|
    ensures forall i :: 0 <= i < |fields| ==> Stripped(fields)[i] == Field(fields[i].name, Strip(fields[i].value))
  {
    if fields != [] { StrippedFields(fields[1..]); }
  }

  // --------------------------------------------------------------------- decoding

  predicate LineOk(f: Field) { f.name != "" && '\n' !in f.name && ';' !in f.name && '\n' !in f.value }

  ghost predicate LinesOk(fields: seq<Field>) { forall i :: 0 <= i < |fields| ==> LineOk(fields[i]) }

  /** The value the first line of that name carries. */
  function Lookup(fields: seq<Field>, tag: string): string {
    if fields == [] then NOT_SET else if fields[0].name == tag then fields[0].value else Lookup(fields[1..], tag)
  }

  /** A name followed by a semicolon is matched by no other name. */
  lemma {:induction false} SameName(n: string, t: string, x: string)
    requires ';' !in n && ';' !in t && t + ";" <= n + ";" + x
    ensures n == t
    decreases |n|
  {
    assert (t + ";")[0] == (n + ";" + x)[0];
    assert (n != "" ==> n[0] in n) && (t != "" ==> t[0] in t);
    if n != "" && t != "" {
      assert (t + ";")[1..] == t[1..] + ";" && (n + ";" + x)[1..] == n[1..] + ";" + x;
      SameName(n[1..], t[1..], x);
    }
  }

  predicate StartsWith(s: string, at: nat, p: string) { at + |p| <= |s| && s[at..at + |p|] == p }

  /** Whether the line starting at position at of s carries the name. */
  lemma LineMatches(s: string, at: nat, f: Field, rest: string, tag: string)
    requires LineOk(f) && ';' !in tag
    requires at <= |s| && s[at..] == "\n" + f.name + ";" + f.value + "\n" + rest
    ensures StartsWith(s, at, "\n" + tag + ";") <==> f.name == tag
  {
    var p, line := "\n" + tag + ";", "\n" + f.name + ";" + f.value + "\n" + rest;
    var tail := f.name + ";" + (f.value + "\n" + rest);
    assert line == "\n" + tail && line[1..] == tail && p[1..] == tag + ";";
    if f.name == tag {
      assert line[..|p|] == p;
      assert s[at..at + |p|] == s[at..][..|p|];
    } else if StartsWith(s, at, p) {
      assert p == s[at..][..|p|];
      assert tag + ";" <= tail;
      SameName(f.name, tag, f.value + "\n" + rest);
    }
  }

  lemma IndexHere(s: string, p: string, at: nat)
    ensures at + |p| > |s| ==> IndexOf(s, p, at) == -1
    ensures StartsWith(s, at, p) ==> IndexOf(s, p, at) == at
  {}

  /** The position search steps from line to line. */
  lemma {:induction false} FindLine(s: string, at: nat, fields: seq<Field>, tag: string) returns (k: nat, pos: int)
    requires LinesOk(fields) && tag != "" && '\n' !in tag && ';' !in tag
    requires at <= |s| && s[at..] == "\n" + Body(fields)
    ensures pos == IndexOf(s, "\n" + tag + ";", at) && k <= |fields|
    ensures k == |fields| ==> pos == -1 && Lookup(fields, tag) == NOT_SET
    ensures k < |fields| ==> at <= pos <= |s| && fields[k].name == tag && Lookup(fields, tag) == fields[k].value
    ensures k < |fields| ==> s[pos..] == "\n" + Body(fields[k..])
    decreases |fields|
  {
    hide IndexOf;
    var p := "\n" + tag + ";";
    if fields == [] {
      k, pos := 0, -1;
      assert |s[at..]| == 1;
      IndexHere(s, p, at);
    } else {
      var f := fields[0];
      BodyFirst(fields);
      LineMatches(s, at, f, Body(fields[1..]), tag);
      if f.name == tag {
        k, pos := 0, at;
        assert fields[0..] == fields;
        IndexHere(s, p, at);
      } else {
        var next := at + |"\n" + f.name + ";" + f.value|;
        NextLine(s, at, f, Body(fields[1..]), p);
        k, pos := FindLine(s, next, fields[1..], tag);
        if k < |fields[1..]| { assert fields[1..][k..] == fields[k + 1..]; }
        k := k + 1;
      }
    }
  }

  lemma NextLine(s: string, at: nat, f: Field, rest: string, p: string)
    requires LineOk(f) && |p| >= 2 && p[0] == '\n'
    requires at <= |s| && s[at..] == "\n" + f.name + ";" + f.value + "\n" + rest
    requires !StartsWith(s, at, p)
    ensures var next := at + |"\n" + f.name + ";" + f.value|;
      next <= |s| && s[next..] == "\n" + rest && IndexOf(s, p, at) == IndexOf(s, p, next)
  {
    var line := "\n" + f.name + ";" + f.value;
    var next := at + |line|;
    assert s[at..] == line + ("\n" + rest);
    assert s[next..] == s[at..][|line|..];
    forall i | at + 1 <= i < next ensures s[i] != '\n' {
      assert s[i] == s[at..][i - at] == line[i - at];
      var j := i - at - 1;
      if j < |f.name| { assert line[i - at] == f.name[j] && f.name[j] in f.name; }
      else if j > |f.name| { assert line[i - at] == f.value[j - |f.name| - 1] && f.value[j - |f.name| - 1] in f.value; }
    }
    if at + |p| > |s| {
      assert IndexOf(s, p, at) == -1;
    } else {
      SkipTo(s, p, at + 1, next);
    }
  }

  lemma {:induction false} FirstOf(s: string, pos: nat, a: string, c: char, rest: string)
    requires pos <= |s| && s[pos..] == a + [c] + rest && c !in a
    ensures IndexOf(s, [c], pos) == pos + |a|
    decreases |a|
  {
    assert s[pos] == s[pos..][0] && s[pos..pos + 1] == [s[pos]];
    if a != "" {
      assert a[0] in a;
      assert s[pos + 1..] == s[pos..][1..] == a[1..] + [c] + rest;
      FirstOf(s, pos + 1, a[1..], c, rest);
    }
  }

  /** From the line found, the value is what lies between the semicolon and the end of the line. */
  lemma ValueOfLine(s: string, pos: nat, f: Field, rest: string)
    requires LineOk(f) && pos <= |s| && s[pos..] == "\n" + f.name + ";" + f.value + "\n" + rest
    ensures var semi := pos + 1 + |f.name|;
      IndexOf(s, ";", pos) == semi && IndexOf(s, "\n", semi) == semi + 1 + |f.value|
    ensures var semi := pos + 1 + |f.name|; semi + 1 + |f.value| <= |s| && s[semi + 1..semi + 1 + |f.value|] == f.value
  {
    hide IndexOf;
    var a, semi, line := "\n" + f.name, pos + 1 + |f.name|, f.value + "\n" + rest;
    assert s[pos..] == a + [';'] + line;
    FirstOf(s, pos, a, ';', line);
    Behind(s, pos, a + [';'], line);
    LineEnd(s, semi + 1, f.value, rest);
    assert s[semi] == s[pos..][|a|] == ';';
    SkipTo(s, ['\n'], semi, semi + 1);
  }

  lemma Behind(s: string, pos: nat, a: string, y: string)
    requires pos <= |s| && s[pos..] == a + y
    ensures pos + |a| <= |s| && s[pos + |a|..] == y
  {
    assert s[pos + |a|..] == s[pos..][|a|..];
  }

  lemma LineEnd(s: string, k: nat, v: string, rest: string)
    requires k <= |s| && s[k..] == v + ['\n'] + rest && '\n' !in v
    ensures k + |v| <= |s| && IndexOf(s, ['\n'], k) == k + |v| && s[k..k + |v|] == v
  {
    hide IndexOf;
    FirstOf(s, k, v, '\n', rest);
    assert s[k..k + |v|] == s[k..][..|v|];
  }

  /** No name is found on the marker line or the empty line behind it. */
  lemma PastMarker(s: string, body: string, tag: string)
    requires s == MARKER + "\n" + "\n" + body && tag != "" && '\n' !in tag
    ensures IndexOf(s, "\n" + tag + ";", 0) == IndexOf(s, "\n" + tag + ";", |MARKER| + 1)
      && s[|MARKER| + 1..] == "\n" + body
  {
    var p, n := "\n" + tag + ";", |MARKER|;
    SkipTo(s, p, 0, n);
    assert p[1] == tag[0] && tag[0] in tag;
  }

  /** Decoding inverts encoding: a name's value is found exactly when its line was sent. */
  lemma ParseFinds(fields: seq<Field>, tag: string)
    requires LinesOk(fields) && tag != "" && '\n' !in tag && ';' !in tag
    ensures ParseDataPortion(Portion(fields), tag) == Lookup(fields, tag)
  {
    hide IndexOf, Body, Lookup;
    var s := Portion(fields);
    PastMarker(s, Body(fields), tag);
    var k, pos := FindLine(s, |MARKER| + 1, fields, tag);
    if k < |fields| {
      BodyFirst(fields[k..]);
      ValueOfLine(s, pos, fields[k], Body(fields[k..][1..]));
    }
  }

  lemma BodyFirst(fields: seq<Field>)
    requires fields != []
    ensures "\n" + Body(fields) == "\n" + fields[0].name + ";" + fields[0].value + "\n" + Body(fields[1..])
  {}

  // ------------------------------------------------------------------ synchronising

  lemma {:induction false} NowhereFound(s: string, p: string, from: nat, i: nat)
    requires IndexOf(s, p, from) == -1 && from <= i
    ensures !StartsWith(s, i, p)
    decreases i - from
  {
    if from < i && from + |p| <= |s| { NowhereFound(s, p, from + 1, i); }
  }

  lemma {:induction false} SkipMisses(s: string, p: string, to: nat)
    requires to <= |s| && forall i :: 0 <= i < to ==> !StartsWith(s, i, p)
    ensures IndexOf(s, p, 0) == IndexOf(s, p, to)
  {
    if to > 0 {
      SkipMisses(s, p, to - 1);
      assert !StartsWith(s, to - 1, p);
    }
  }

  lemma NotAcross(session: string, tail: string, p: string, i: nat)
    requires i <= |session| && '\n' !in p && p != "" && !StartsWith(session, i, p)
    ensures !StartsWith(session + "\n" + tail, i, p)
  {
    hide IndexOf;
    var s := session + "\n" + tail;
    if i + |p| <= |session| {
      assert s[i..i + |p|] == session[i..i + |p|];
    } else if i + |p| <= |s| {
      assert s[i..i + |p|][|session| - i] == s[|session|] == '\n';
      assert p[|session| - i] in p;
    }
  }

  /** Text free of p, a line end, and then p: p is found right behind the line end. */
  lemma FoundAfter(session: string, tail: string, p: string)
    requires IndexOf(session, p, 0) == -1 && '\n' !in p && p != "" && StartsWith(tail, 0, p)
    ensures IndexOf(session + "\n" + tail, p, 0) == |session| + 1 && (session + "\n" + tail)[|session| + 1..] == tail
  {
    hide IndexOf;
    var s := session + "\n" + tail;
    forall i | 0 <= i < |session| + 1 ensures !StartsWith(s, i, p) {
      NowhereFound(session, p, 0, i);
      NotAcross(session, tail, p, i);
    }
    SkipMisses(s, p, |session| + 1);
    assert s[|session| + 1..] == tail;
    assert s[|session| + 1..|session| + 1 + |p|] == tail[0..|p|];
    IndexHere(s, p, |session| + 1);
  }

  lemma PortionStarts(fields: seq<Field>)
    ensures StartsWith(Portion(fields), 0, MARKER)
  {}

  lemma {:induction false} UnsentFrom(fields: seq<Field>, last: map<string, string>, f: Field)
    requires f in Unsent(fields, last)
    ensures f in fields
  {
    UnsentFirst(fields, last);
    hide Unsent;
    if f != fields[0] {
      UnsentFrom(fields[1..], last, f);
    }
  }

  lemma {:induction false} UnsentOk(fields: seq<Field>, last: map<string, string>)
    requires FieldsOk(fields)
    ensures FieldsOk(Unsent(fields, last))
  {
    if fields != [] {
      UnsentOk(fields[1..], last);
      UnsentFirst(fields, last);
      hide Unsent;
      var rest := Unsent(fields[1..], last);
      forall i | 0 <= i < |rest| ensures rest[i].name != fields[0].name {
        UnsentFrom(fields[1..], last, rest[i]);
        var j :| 0 <= j < |fields[1..]| && fields[1..][j] == rest[i];
        assert fields[j + 1] == rest[i];
      }
    }
  }

  lemma StripPortion(fields: seq<Field>)
    requires FieldsOk(fields)
    ensures Strip(Portion(fields)) == Portion(Stripped(fields))
  {
    hide Strip, Body, Stripped;
    var head := MARKER + "\n" + "\n";
    assert Ascii(head);
    StripAscii(head);
    StripAppend(head, Body(fields));
    StripBody(fields);
  }

  lemma StrippedLines(fields: seq<Field>)
    requires FieldsOk(fields)
    ensures LinesOk(Stripped(fields))
  {
    StrippedFields(fields);
    forall i | 0 <= i < |fields| ensures LineOk(Stripped(fields)[i]) { StripKeepsOut(fields[i].value, '\n'); }
  }

  /** What a message says about a name is what the lines it carries say. */
  lemma FoundInMessage(reset: bool, session: string, fields: seq<Field>, last: map<string, string>, tag: string)
    requires FieldsOk(fields) && SessionOk(session) && NameOk(tag)
    ensures Found(Message(reset, session, fields, last), tag)
      == Lookup(Stripped(Unsent(fields, if reset then map[] else last)), tag)
  {
    hide Strip, Body, IndexOf, Stripped, Unsent, ParseDataPortion;
    var sent := Unsent(fields, if reset then map[] else last);
    UnsentOk(fields, if reset then map[] else last);
    StripPortion(sent);
    StrippedLines(sent);
    ParseFinds(Stripped(sent), tag);
    var portion := Portion(Stripped(sent));
    PortionStarts(Stripped(sent));
    hide Portion;
    if reset {
      StripAppend(session + "\n", Portion(sent));
      StripAppend(session, "\n");
      StripAscii("\n");
      FoundAfter(Strip(session), portion, MARKER);
    } else {
      assert "" + Portion(sent) == Portion(sent);
      IndexHere(portion, MARKER, 0);
      assert portion[0..] == portion;
    }
  }

  /**
    The session text reaches the page with a full message and with no other: what stands in front
    of the data marker is the session text, stripped, and a line end, or nothing.
  */
  lemma SessionReaches(reset: bool, session: string, fields: seq<Field>, last: map<string, string>)
    requires FieldsOk(fields) && SessionOk(session)
    ensures var message := Message(reset, session, fields, last);
      var dataPos := IndexOf(message, MARKER, 0);
      0 <= dataPos <= |message| && message[..dataPos] == if reset then Strip(session) + "\n" else ""
  {
    hide Strip, Body, IndexOf, Stripped, Unsent;
    var sent := Unsent(fields, if reset then map[] else last);
    UnsentOk(fields, if reset then map[] else last);
    StripPortion(sent);
    var portion := Portion(Stripped(sent));
    PortionStarts(Stripped(sent));
    hide Portion;
    if reset {
      StripAppend(session + "\n", Portion(sent));
      StripAppend(session, "\n");
      StripAscii("\n");
      FoundAfter(Strip(session), portion, MARKER);
      assert (Strip(session) + "\n" + portion)[..|Strip(session)| + 1] == Strip(session) + "\n";
    } else {
      assert "" + Portion(sent) == Portion(sent);
      IndexHere(portion, MARKER, 0);
    }
  }

  lemma LookupCons(f: Field, rest: seq<Field>, tag: string)
    ensures Lookup(Stripped([f] + rest), tag) == if f.name == tag then Strip(f.value) else Lookup(Stripped(rest), tag)
    ensures [] + rest == rest
  {
    assert ([f] + rest)[1..] == rest;
    assert Stripped([f] + rest)[1..] == Stripped(rest);
  }

  /** A changed or new value is on its way, an unchanged one is not. */
  lemma {:induction false} LookupSent(fields: seq<Field>, last: map<string, string>, i: nat)
    requires FieldsOk(fields) && i < |fields|
    ensures var f := fields[i];
      Lookup(Stripped(Unsent(fields, last)), f.name)
        == if f.name in last && last[f.name] == f.value then NOT_SET else Strip(f.value)
    decreases |fields|
  {
    hide Lookup, Stripped, Strip;
    LookupCons(fields[0], Unsent(fields[1..], last), fields[i].name);
    if i > 0 { LookupSent(fields[1..], last, i - 1); } else { LookupAbsent(fields[1..], last, fields[0].name); }
  }

  lemma {:induction false} LookupAbsent(fields: seq<Field>, last: map<string, string>, tag: string)
    requires forall i :: 0 <= i < |fields| ==> fields[i].name != tag
    ensures Lookup(Stripped(Unsent(fields, last)), tag) == NOT_SET
  {
    if fields != [] {
      LookupCons(fields[0], Unsent(fields[1..], last), tag);
      hide Lookup, Stripped, Strip;
      LookupAbsent(fields[1..], last, tag);
    }
  }

  /** Each name of interest ends up as found, or as it was. */
  lemma {:induction false} ReceiveAllGets(store: map<string, string>, message: string, tags: seq<string>, tag: string)
    ensures var r, value := ReceiveAll(store, message, tags), Found(message, tag);
      if tag in tags && value != NOT_SET && !Refused(tag, value) then tag in r && r[tag] == value
      else (tag in r <==> tag in store) && (tag in store ==> r[tag] == store[tag])
    decreases |tags|
  {
    hide Found, Refused;
    if tags != [] {
      ReceiveAllGets(Receive(store, message, tags[0]), message, tags[1..], tag);
      assert tag in tags <==> tag == tags[0] || tag in tags[1..];
    }
  }

  // Server and clients together: the flag and the last sent map, which all connections
  // share, what the server would send, and what each client holds.
  datatype World = World(reset: bool, last: map<string, string>, session: string, data: seq<Field>,
                         stores: seq<map<string, string>>)

  // Connect and Writeable are about client k; a page just loaded knows nothing, one that
  // connects again keeps what it had.
  datatype Event =
    | Update(session: string, data: seq<Field>)
    | Connect(k: nat, loaded: bool)
    | SdkReset
    | Writeable(k: nat)

  function MapOf(fields: seq<Field>): map<string, string> {
    if fields == [] then map[] else MapOf(fields[1..])[fields[0].name := fields[0].value]
  }

  predicate Known(w: World, e: Event) { e.Connect? || e.Writeable? ==> e.k < |w.stores| }

  function Step(w: World, e: Event, tags: seq<string>): World
    requires Known(w, e)
  {
    match e
    case Update(session, data) => w.(session := session, data := data)
    case Connect(k, loaded) => w.(reset := true, stores := if loaded then w.stores[k := map[]] else w.stores)
    case SdkReset => w.(reset := true)
    case Writeable(k) =>
      var message := Message(w.reset, w.session, w.data, w.last);
      World(false, MapOf(w.data), w.session, w.data, w.stores[k := ReceiveAll(w.stores[k], message, tags)])
  }

  ghost predicate DataOk(session: string, data: seq<Field>, tags: seq<string>) {
    SessionOk(session) && FieldsOk(data) && forall i :: 0 <= i < |data| ==> data[i].name in tags
  }

  ghost predicate Holds(store: map<string, string>, f: Field) { f.name in store && store[f.name] == Strip(f.value) }

  /** Whether the next message carries the field. */
  predicate Sent(w: World, f: Field) { w.reset || f.name !in w.last || w.last[f.name] != f.value }

  /**
    What any client holds once it was served, whatever it held and whoever was served before:
    exactly the fields sent that are not refused, and those it held already.
  */
  lemma ServedExactly(w: World, tags: seq<string>, k: nat, i: nat)
    requires DataOk(w.session, w.data, tags) && k < |w.stores| && i < |w.data|
    ensures var f := w.data[i];
      Holds(Step(w, Writeable(k), tags).stores[k], f) <==>
        (Sent(w, f) && !Refused(f.name, Strip(f.value))) || Holds(w.stores[k], f)
  {
    hide Message, Found, Strip, Lookup, Stripped, Unsent, Refused;
    var f, last := w.data[i], if w.reset then map[] else w.last;
    FoundInMessage(w.reset, w.session, w.data, w.last, f.name);
    LookupSent(w.data, last, i);
    ReceiveAllGets(w.stores[k], Message(w.reset, w.session, w.data, w.last), tags, f.name);
  }

  /** The client holds the server's current value of every name. */
  ghost predicate InStep(w: World, k: nat)
    requires k < |w.stores|
  {
    forall i :: 0 <= i < |w.data| ==> Holds(w.stores[k], w.data[i])
  }

  /** A served client is in step exactly when each field was on its way and not refused, or held already. */
  lemma InStepExactly(w: World, tags: seq<string>, k: nat)
    requires DataOk(w.session, w.data, tags) && k < |w.stores|
    ensures InStep(Step(w, Writeable(k), tags), k) <==>
      forall i :: 0 <= i < |w.data| ==>
        (Sent(w, w.data[i]) && !Refused(w.data[i].name, Strip(w.data[i].value))) || Holds(w.stores[k], w.data[i])
  {
    hide Holds, Sent, Refused, Step;
    var w1 := Step(w, Writeable(k), tags);
    ServedFrame(w, tags, k);
    forall i | 0 <= i < |w.data|
      ensures Holds(w1.stores[k], w.data[i]) <==>
        (Sent(w, w.data[i]) && !Refused(w.data[i].name, Strip(w.data[i].value))) || Holds(w.stores[k], w.data[i])
    {
      ServedExactly(w, tags, k, i);
    }
  }

  lemma ServedFrame(w: World, tags: seq<string>, k: nat)
    requires k < |w.stores|
    ensures var w1 := Step(w, Writeable(k), tags);
      w1.data == w.data && w1.session == w.session && |w1.stores| == |w.stores| && !w1.reset && w1.last == MapOf(w.data)
  {}

  const LEVEL := Field("FuelLevel", "10.5")

  // What is sent of it, and what is sent when it has not changed.
  const LEVEL_TEXT := "***D.A.T.A***\n\nFuelLevel;10.5\n"
  const NO_TEXT := "***D.A.T.A***\n\n"

  lemma LevelPortion()
    ensures Portion([LEVEL]) == LEVEL_TEXT && Portion([]) == NO_TEXT
    ensures Ascii(LEVEL_TEXT) && Ascii(NO_TEXT) && Ascii("S" + "\n" + LEVEL_TEXT)
  {
    assert Body([LEVEL]) == "FuelLevel;10.5\n" + Body([]);
  }

  lemma LevelUnsent(last: map<string, string>)
    ensures "FuelLevel" !in last ==> Unsent([LEVEL], last) == [LEVEL]
    ensures Unsent([LEVEL], last["FuelLevel" := "10.5"]) == []
  {
    assert [LEVEL][1..] == [];
  }

  /** A full message and two deltas, as they go over the socket. */
  lemma MessageExamples(last: map<string, string>)
    requires "FuelLevel" !in last
    ensures Message(true, "S", [LEVEL], last) == "S" + "\n" + LEVEL_TEXT
    ensures Message(false, "S", [LEVEL], last) == LEVEL_TEXT
    ensures Message(false, "S", [LEVEL], last["FuelLevel" := "10.5"]) == NO_TEXT
  {
    LevelPortion();
    LevelUnsent(last);
    LevelUnsent(map[]);
    hide *;
    FullIs("S", [LEVEL], last, LEVEL_TEXT);
    DeltaIs("S", [LEVEL], last, LEVEL_TEXT);
    DeltaIs("S", [LEVEL], last["FuelLevel" := "10.5"], NO_TEXT);
  }

  lemma FullIs(session: string, fields: seq<Field>, last: map<string, string>, text: string)
    requires Portion(Unsent(fields, map[])) == text && Ascii(session + "\n" + text)
    ensures Message(true, session, fields, last) == session + "\n" + text
  {
    StripAscii(session + "\n" + text);
  }

  lemma DeltaIs(session: string, fields: seq<Field>, last: map<string, string>, text: string)
    requires Portion(Unsent(fields, last)) == text && Ascii(text)
    ensures Message(false, session, fields, last) == text
  {
    StripAscii(text);
    assert "" + text == text;
  }

  // ------------------------------------------------------- one client being served

  /** A name that is not cleared never holds an empty value. */
  ghost predicate NeverCleared(store: map<string, string>) {
    forall n :: n in store && n in KEPT_NAMES ==> store[n] != ""
  }

  /** Unless a full message is due, client k holds all that was last sent and not refused. */
  ghost predicate Synced(w: World, k: nat, tags: seq<string>) {
    && k < |w.stores| && DataOk(w.session, w.data, tags) && NeverCleared(w.stores[k])
    && (!w.reset ==>
          forall n :: n in w.last && !Refused(n, Strip(w.last[n])) ==> Holds(w.stores[k], Field(n, w.last[n])))
  }

  /** Client k holds exactly the fields that are not refused. */
  ghost predicate InStepButRefused(w: World, k: nat)
    requires k < |w.stores|
  {
    forall i :: 0 <= i < |w.data| ==>
      (Holds(w.stores[k], w.data[i]) <==> !Refused(w.data[i].name, Strip(w.data[i].value)))
  }

  lemma {:induction false} MapOfIs(fields: seq<Field>, n: string)
    requires FieldsOk(fields) && n in MapOf(fields)
    ensures exists i :: 0 <= i < |fields| && fields[i].name == n && MapOf(fields)[n] == fields[i].value
  {
    if fields[0].name == n {
      assert fields[0].name == n;
    } else {
      MapOfIs(fields[1..], n);
      var i :| 0 <= i < |fields[1..]| && fields[1..][i].name == n && MapOf(fields[1..])[n] == fields[1..][i].value;
      assert fields[i + 1].name == n;
    }
  }

  lemma {:induction false} ReceiveAllNeverClears(store: map<string, string>, message: string, tags: seq<string>)
    requires NeverCleared(store)
    ensures NeverCleared(ReceiveAll(store, message, tags))
    decreases |tags|
  {
    hide Found;
    if tags != [] { ReceiveAllNeverClears(Receive(store, message, tags[0]), message, tags[1..]); }
  }

  /** A delivered message brings the client in step, whether full or a delta, but for the values it refuses. */
  lemma WriteableSyncs(w: World, tags: seq<string>, k: nat)
    requires Synced(w, k, tags)
    ensures var w1 := Step(w, Writeable(k), tags); Synced(w1, k, tags) && InStepButRefused(w1, k)
  {
    hide Message, Found, Strip, ReceiveAll, SessionOk;
    var w1 := Step(w, Writeable(k), tags);
    ReceiveAllNeverClears(w.stores[k], Message(w.reset, w.session, w.data, w.last), tags);
    forall i | 0 <= i < |w.data|
      ensures Holds(w1.stores[k], w.data[i]) <==> !Refused(w.data[i].name, Strip(w.data[i].value))
    {
      ServedExactly(w, tags, k, i);
      assert w.data[i].name in w.last && w.last[w.data[i].name] == w.data[i].value ==>
        Field(w.data[i].name, w.last[w.data[i].name]) == w.data[i];
    }
    forall n | n in w1.last && !Refused(n, Strip(w1.last[n])) ensures Holds(w1.stores[k], Field(n, w1.last[n])) {
      MapOfIs(w.data, n);
      var i :| 0 <= i < |w.data| && w.data[i].name == n && MapOf(w.data)[n] == w.data[i].value;
      assert Field(n, w1.last[n]) == w.data[i];
    }
  }

  ghost predicate AllKnown(w: World, events: seq<Event>) { forall i :: 0 <= i < |events| ==> Known(w, events[i]) }

  function Run(w: World, events: seq<Event>, tags: seq<string>): (r: World)
    requires AllKnown(w, events)
    ensures |r.stores| == |w.stores|
    decreases |events|
  {
    if events == [] then w
    else
      assert Known(w, events[0]);
      Run(Step(w, events[0], tags), events[1..], tags)
  }

  /** Sound updates, and no client but k is ever served. */
  ghost predicate ServesOnly(events: seq<Event>, k: nat, tags: seq<string>) {
    forall i :: 0 <= i < |events| ==>
      (events[i].Update? ==> DataOk(events[i].session, events[i].data, tags))
        && (events[i].Writeable? ==> events[i].k == k)
  }

  /**
    Over any run of updates, resets, connections, also renewed ones, and deliveries to one
    client, each delivered message leaves it with the server's value of every name, also of
    names that went and came back; the only values it does not hold are the empty ones of the
    names it does not clear.
  */
  lemma {:induction false} RunSyncs(w: World, events: seq<Event>, tags: seq<string>, k: nat)
    requires Synced(w, k, tags) && AllKnown(w, events) && ServesOnly(events, k, tags)
    ensures Synced(Run(w, events, tags), k, tags)
    ensures events != [] && events[|events| - 1] == Writeable(k) ==> InStepButRefused(Run(w, events, tags), k)
    decreases |events|
  {
    hide Synced, InStepButRefused, DataOk;
    if events != [] {
      assert Known(w, events[0]);
      SyncedRange(w, k, tags);
      StepSyncs(w, events[0], tags, k);
      RunSyncs(Step(w, events[0], tags), events[1..], tags, k);
    }
  }

  lemma SyncedRange(w: World, k: nat, tags: seq<string>)
    requires Synced(w, k, tags)
    ensures k < |w.stores|
  {}

  lemma StepSyncs(w: World, e: Event, tags: seq<string>, k: nat)
    requires Synced(w, k, tags) && Known(w, e)
    requires (e.Update? ==> DataOk(e.session, e.data, tags)) && (e.Writeable? ==> e.k == k)
    ensures Synced(Step(w, e, tags), k, tags) && (e == Writeable(k) ==> InStepButRefused(Step(w, e, tags), k))
  {
    hide ReceiveAll, Message;
    if e.Writeable? { WriteableSyncs(w, tags, k); }
  }

  // ---------------------------------------------------------- where step is lost

  lemma RunFirst(w: World, e: Event, rest: seq<Event>, tags: seq<string>)
    requires Known(w, e) && AllKnown(Step(w, e, tags), rest)
    ensures AllKnown(w, [e] + rest) && Run(w, [e] + rest, tags) == Run(Step(w, e, tags), rest, tags)
  {
    hide Message, ReceiveAll, MapOf;
    assert ([e] + rest)[1..] == rest;
    assert forall i :: 0 < i < |[e] + rest| ==> ([e] + rest)[i] == rest[i - 1];
  }

  lemma RunFour(w: World, e0: Event, e1: Event, e2: Event, e3: Event, tags: seq<string>)
    requires Known(w, e0) && Known(w, e1) && Known(w, e2) && Known(w, e3)
    ensures AllKnown(w, [e0, e1, e2, e3])
    ensures Run(w, [e0, e1, e2, e3], tags) == Step(Step(Step(Step(w, e0, tags), e1, tags), e2, tags), e3, tags)
  {
    hide Message, ReceiveAll, MapOf;
    var w1 := Step(w, e0, tags);
    var w2 := Step(w1, e1, tags);
    var w3 := Step(w2, e2, tags);
    RunFirst(w3, e3, [], tags);
    RunFirst(w2, e2, [e3] + [], tags);
    RunFirst(w1, e1, [e2] + ([e3] + []), tags);
    RunFirst(w, e0, [e1] + ([e2] + ([e3] + [])), tags);
    assert [e0] + ([e1] + ([e2] + ([e3] + []))) == [e0, e1, e2, e3];
  }

  /** A refused value leaves the client with what it had under that name. */
  lemma RefusedKeeps(w: World, tags: seq<string>, k: nat, i: nat)
    requires DataOk(w.session, w.data, tags) && k < |w.stores| && i < |w.data|
    requires Refused(w.data[i].name, Strip(w.data[i].value))
    ensures var n, store, store1 := w.data[i].name, w.stores[k], Step(w, Writeable(k), tags).stores[k];
      (n in store1 <==> n in store) && (n in store ==> store1[n] == store[n])
  {
    hide Message, Found, Strip, Lookup, Stripped, Unsent;
    var f, last := w.data[i], if w.reset then map[] else w.last;
    FoundInMessage(w.reset, w.session, w.data, w.last, f.name);
    LookupSent(w.data, last, i);
    ReceiveAllGets(w.stores[k], Message(w.reset, w.session, w.data, w.last), tags, f.name);
  }

  const STARTED := World(true, map[], "", [], [map[]])
  const ON_TRACK := Field("IsOnTrack", "1")
  const OFF_TRACK := Field("IsOnTrack", "")
  const TAGS := ["IsOnTrack"]

  // IsOnTrack is set and delivered, then emptied and delivered.
  const CLEARING := [Update("", [ON_TRACK]), Writeable(0), Update("", [OFF_TRACK]), Writeable(0)]

  lemma OneFieldOk(f: Field)
    requires f == ON_TRACK || f == OFF_TRACK
    ensures DataOk("", [f], TAGS) && Strip(f.value) == f.value
  {
    assert '\n' !in f.name && ';' !in f.name;
    StripAscii(f.value);
  }

  /** Once set, a name that is not cleared keeps its old value when the server's becomes empty. */
  lemma ClearedStays()
    ensures AllKnown(STARTED, CLEARING)
    ensures var w := Run(STARTED, CLEARING, TAGS);
      w.data == [OFF_TRACK] && Holds(w.stores[0], ON_TRACK) && !Holds(w.stores[0], OFF_TRACK)
  {
    OneFieldOk(ON_TRACK);
    OneFieldOk(OFF_TRACK);
    RunFour(STARTED, CLEARING[0], CLEARING[1], CLEARING[2], CLEARING[3], TAGS);
    assert [CLEARING[0], CLEARING[1], CLEARING[2], CLEARING[3]] == CLEARING;
    var w1 := STARTED.(data := [ON_TRACK]);
    var w2 := Step(w1, Writeable(0), TAGS);
    hide Message, ReceiveAll, Strip, FieldsOk, SessionOk;
    ServedExactly(w1, TAGS, 0, 0);
    RefusedKeeps(w2.(data := [OFF_TRACK]), TAGS, 0, 0);
  }

  /**
    The flag and the last sent map are shared: a client served right after another one holds
    of the current values exactly those it held before.
  */
  lemma SecondServedExactly(w: World, tags: seq<string>, k: nat, j: nat, i: nat)
    requires DataOk(w.session, w.data, tags) && k < |w.stores| && j < |w.stores| && j != k && i < |w.data|
    ensures var w2 := Step(Step(w, Writeable(k), tags), Writeable(j), tags);
      Holds(w2.stores[j], w.data[i]) <==> Holds(w.stores[j], w.data[i])
  {
    hide Message, ReceiveAll, Strip;
    ServedExactly(Step(w, Writeable(k), tags), tags, j, i);
    MapOfHas(w.data, i);
  }

  lemma {:induction false} MapOfHas(fields: seq<Field>, i: nat)
    requires FieldsOk(fields) && i < |fields|
    ensures fields[i].name in MapOf(fields) && MapOf(fields)[fields[i].name] == fields[i].value
  {
    if i > 0 { MapOfHas(fields[1..], i - 1); }
  }

  // Two pages are loaded, connect and are served in turn.
  const TWO_CLIENTS := [Connect(0, true), Connect(1, true), Writeable(0), Writeable(1)]

  /** The first of two new clients gets everything, the second one nothing. */
  lemma SecondClientMisses(w: World, tags: seq<string>)
    requires |w.stores| == 2 && DataOk(w.session, w.data, tags)
    ensures AllKnown(w, TWO_CLIENTS)
    ensures var w1 := Run(w, TWO_CLIENTS, tags);
      && w1.data == w.data && InStepButRefused(w1, 0)
      && forall i :: 0 <= i < |w.data| ==> !Holds(w1.stores[1], w.data[i])
  {
    RunFour(w, Connect(0, true), Connect(1, true), Writeable(0), Writeable(1), tags);
    hide Message, ReceiveAll, Strip, FieldsOk, SessionOk, Refused;
    var w2 := w.(reset := true, stores := [map[], map[]]);
    assert Step(Step(w, Connect(0, true), tags), Connect(1, true), tags) == w2;
    WriteableSyncs(w2, tags, 0);
    forall i | 0 <= i < |w.data| ensures !Holds(Run(w, TWO_CLIENTS, tags).stores[1], w.data[i]) {
      SecondServedExactly(w2, tags, 0, 1, i);
    }
  }

  // ------------------------------------------------------------------- the callback

  /** The statics behind callback_iracing_data. */
  class IracingData {
    var connectionReset: bool
    var lastSentDataStrMap: map<string, string>

    constructor ()
      ensures connectionReset && lastSentDataStrMap == map[]
    {
      connectionReset, lastSentDataStrMap := true, map[];
    }

    /** LWS_CALLBACK_ESTABLISHED */
    method Established()
      modifies this`connectionReset
      ensures connectionReset
    {
      connectionReset := true;
    }

    /** LWS_CALLBACK_SERVER_WRITEABLE: the text handed to writeToSocket. */
    method ServerWriteable(sessionInfo: string, data: seq<Field>) returns (strOutput: string)
      modifies this
      ensures strOutput == Message(old(connectionReset), sessionInfo, data, old(lastSentDataStrMap))
      ensures lastSentDataStrMap == MapOf(data) && !connectionReset
    {
      hide Strip, Body, Unsent, MapOf, Portion;
      strOutput := "";
      if connectionReset {
        strOutput := strOutput + sessionInfo;
        strOutput := strOutput + "\n";
        lastSentDataStrMap := map[];
      }
      ghost var session := strOutput;
      strOutput := strOutput + MARKER + "\n";
      strOutput := strOutput + "\n";
      strOutput := AppendUnsent(strOutput, data);
      assert session == if old(connectionReset) then sessionInfo + "\n" else "";
      ghost var sent := Unsent(data, lastSentDataStrMap);
      PortionBehind(session, sent);
      strOutput := StripUnicode(strOutput);
      lastSentDataStrMap := MapOf(data);
      connectionReset := false;
    }

    /** The loop over the data map. */
    method AppendUnsent(start: string, data: seq<Field>) returns (strOutput: string)
      ensures strOutput == start + Body(Unsent(data, lastSentDataStrMap))
    {
      strOutput := start;
      var i := 0;
      while i < |data|
        invariant i <= |data|
        invariant strOutput + Body(Unsent(data[i..], lastSentDataStrMap))
          == start + Body(Unsent(data, lastSentDataStrMap))
      {
        var isSendValue := !(data[i].name in lastSentDataStrMap && lastSentDataStrMap[data[i].name] == data[i].value);
        SendOne(strOutput, data[i..], lastSentDataStrMap);
        assert data[i..][1..] == data[i + 1..];
        if isSendValue {
          strOutput := strOutput + (data[i].name + ";" + data[i].value + "\n");
        }
        i := i + 1;
      }
    }

    /** stripUnicode: remove_if and erase. */
    method StripUnicode(str: string) returns (out: string)
      ensures out == Strip(str)
    {
      hide Kept;
      out := "";
      var i := 0;
      while i < |str|
        invariant i <= |str| && out + Strip(str[i..]) == Strip(str)
      {
        assert str[i..][1..] == str[i + 1..];
        assert out + (Kept(str[i]) + Strip(str[i + 1..])) == out + Kept(str[i]) + Strip(str[i + 1..]);
        out := out + Kept(str[i]);
        i := i + 1;
      }
    }
  }

  lemma PortionBehind(session: string, fields: seq<Field>)
    ensures session + MARKER + "\n" + "\n" + Body(fields) == session + Portion(fields)
  {
    hide Body;
  }

  lemma BodyCons(f: Field, rest: seq<Field>)
    ensures Body([f] + rest) == f.name + ";" + f.value + "\n" + Body(rest)
  {
    assert ([f] + rest)[1..] == rest;
  }

  lemma SendOne(out: string, data: seq<Field>, last: map<string, string>)
    requires data != []
    ensures var f := data[0];
      out + Body(Unsent(data, last))
        == (if f.name in last && last[f.name] == f.value then out else out + (f.name + ";" + f.value + "\n"))
        + Body(Unsent(data[1..], last))
  {
    var f, rest := data[0], Unsent(data[1..], last);
    UnsentFirst(data, last);
    BodyCons(f, rest);
    hide Body, Unsent;
    var line := f.name + ";" + f.value + "\n";
    assert out + (line + Body(rest)) == out + line + Body(rest);
  }

  lemma UnsentFirst(data: seq<Field>, last: map<string, string>)
    requires data != []
    ensures var f, rest := data[0], Unsent(data[1..], last);
      Unsent(data, last) == if f.name in last && last[f.name] == f.value then rest else [f] + rest
  {
    var rest := Unsent(data[1..], last);
    assert [] + rest == rest;
  }
}
