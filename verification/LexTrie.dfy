/**
  The trie of the header-name lexer generator in libwebsockets (minilex.c): the
  states the generator creates while it inserts a list of strings, and why a
  prefix-free list ends up with every string leading to its own terminal.
*/
module LexTrie {
  import opened Bytes

  const FAIL_CHAR: byte := 0x08
  const MAX_STATES := 1000
  const PARALLEL := 30

  // One used slot of `struct state`: the character in c[] and the target in
  // state[].  Target 0 marks a terminal, whose c[] holds the string's index.
  datatype Edge = Edge(c: int, state: nat)
  type Trie = seq<seq<Edge>>

  /** Storing an int in a (signed, 8 bit) char. */
  function ToChar(n: nat): int {
    if n % 256 < 128 then n % 256 else n % 256 - 256
  }

  predicate CharOk(c: int) { 9 <= c < 128 }

  predicate Proper(s: seq<byte>) { forall k :: 0 <= k < |s| ==> CharOk(s[k]) }

  /** No non-empty string of the set is a prefix of another one. */
  ghost predicate PrefixFree(words: seq<seq<byte>>) {
    forall i, j :: 0 <= i < |words| && 0 <= j < |words| && i != j && words[i] != [] && words[j] != []
      ==> !(words[i] <= words[j])
  }

  ghost predicate Words(words: seq<seq<byte>>) {
    PrefixFree(words) && forall i :: 0 <= i < |words| ==> Proper(words[i])
  }

  // ---------------------------------------------------------------- the trie

  function Child(edges: seq<Edge>, c: int): nat {
    if edges == [] then 0 else if edges[0].c == c then edges[0].state else Child(edges[1..], c)
  }

  /** The state reached from n by following s, or -1. */
  function Go(t: Trie, n: int, s: seq<byte>): int
    decreases |s|
  {
    if !(0 <= n < |t|) then -1
    else if s == [] then n
    else var v := Child(t[n], s[0]); if v == 0 then -1 else Go(t, v, s[1..])
  }

  predicate Leaf(edges: seq<Edge>) { |edges| == 1 && edges[0].state == 0 }

  ghost predicate Inner(t: Trie, paths: seq<seq<byte>>, n: nat)
    requires n < |t| == |paths|
  {
    && (forall k :: 0 <= k < |t[n]| ==> Branch(t[n][k], t, paths, n))
    && (forall j, k :: 0 <= j < k < |t[n]| ==> t[n][j].c != t[n][k].c)
  }

  ghost predicate Branch(e: Edge, t: Trie, paths: seq<seq<byte>>, n: nat)
    requires n < |t| == |paths|
  {
    n < e.state < |t| && CharOk(e.c) && paths[e.state] == paths[n] + [e.c]
  }

  /** paths[n] spells the way to state n and owner[n] is the string that created it. */
  ghost predicate Shape(t: Trie, paths: seq<seq<byte>>, owner: seq<nat>, words: seq<seq<byte>>)
  {
    && |t| == |paths| == |owner| > 0
    && paths[0] == []
    && forall n :: 0 <= n < |t| ==> Node(t, paths, owner, words, n)
  }

  ghost predicate Node(t: Trie, paths: seq<seq<byte>>, owner: seq<nat>, words: seq<seq<byte>>, n: nat)
    requires n < |t| == |paths| == |owner|
  {
    && (n > 0 ==> owner[n] < |words| && words[owner[n]] != [] && paths[n] <= words[owner[n]])
    && if Leaf(t[n]) then n > 0 && paths[n] == words[owner[n]] && t[n][0].c == ToChar(owner[n])
       else Inner(t, paths, n)
  }

  ghost predicate Extends(t: Trie, t': Trie) {
    |t| <= |t'| && forall n :: 0 <= n < |t| ==> Grows(t[n], t'[n])
  }

  predicate Grows(a: seq<Edge>, b: seq<Edge>) { a <= b && (Leaf(a) ==> a == b) }

  lemma {:induction false} ChildPrefix(a: seq<Edge>, b: seq<Edge>, c: int)
    requires a <= b && Child(a, c) != 0
    ensures Child(b, c) == Child(a, c)
  {
    if a[0].c != c { ChildPrefix(a[1..], b[1..], c); }
  }

  lemma {:induction false} GoExtends(t: Trie, t': Trie, n: int, s: seq<byte>)
    requires Extends(t, t') && Go(t, n, s) >= 0
    ensures Go(t', n, s) == Go(t, n, s)
    decreases |s|
  {
    if s != [] {
      assert Grows(t[n], t'[n]);
      ChildPrefix(t[n], t'[n], s[0]);
      GoExtends(t, t', Child(t[n], s[0]), s[1..]);
    }
  }

  lemma {:induction false} GoSnoc(t: Trie, n: int, s: seq<byte>, c: byte)
    requires Go(t, n, s) >= 0
    ensures Go(t, n, s) < |t|
    ensures Go(t, n, s + [c]) == (var v := Child(t[Go(t, n, s)], c); if 0 < v < |t| then v else -1)
    decreases |s|
  {
    if s == [] {
      assert (s + [c])[1..] == [];
    } else {
      assert (s + [c])[1..] == s[1..] + [c];
      GoSnoc(t, Child(t[n], s[0]), s[1..], c);
    }
  }

  lemma {:induction false} ChildIs(edges: seq<Edge>, c: int, k: nat)
    requires k < |edges| && edges[k].c == c
    requires forall j :: 0 <= j < k ==> edges[j].c != c
    ensures Child(edges, c) == edges[k].state
  {
    if k > 0 { ChildIs(edges[1..], c, k - 1); }
  }

  lemma {:induction false} ChildNone(edges: seq<Edge>, c: int)
    requires forall j :: 0 <= j < |edges| ==> edges[j].c != c
    ensures Child(edges, c) == 0
  {
    if edges != [] { ChildNone(edges[1..], c); }
  }

  lemma {:induction false} ChildFound(edges: seq<Edge>, c: int) returns (k: nat)
    requires Child(edges, c) != 0
    ensures k < |edges| && edges[k] == Edge(c, Child(edges, c))
    ensures forall j :: 0 <= j < k ==> edges[j].c != c
  {
    if edges[0].c == c { k := 0; }
    else { var j := ChildFound(edges[1..], c); k := j + 1; }
  }

  /** Every state reached along s spells s. */
  lemma {:induction false} GoSpells(t: Trie, paths: seq<seq<byte>>, owner: seq<nat>, words: seq<seq<byte>>, n: nat,
      s: seq<byte>)
    requires Shape(t, paths, owner, words) && n < |t| && Go(t, n, s) >= 0
    ensures Go(t, n, s) < |t| && paths[Go(t, n, s)] == paths[n] + s
    decreases |s|
  {
    if s != [] {
      var v := Child(t[n], s[0]);
      var k := ChildFound(t[n], s[0]);
      assert Node(t, paths, owner, words, n);
      assert Branch(t[n][k], t, paths, n);
      GoSpells(t, paths, owner, words, v, s[1..]);
      assert paths[n] + s == paths[n] + [s[0]] + s[1..];
    }
  }

  /** String i is held: its characters lead to a terminal carrying i. */
  ghost predicate Holds(t: Trie, words: seq<seq<byte>>, i: nat)
    requires i < |words|
  {
    var w := Go(t, 0, words[i]);
    0 <= w < |t| && t[w] == [Edge(ToChar(i), 0)]
  }

  lemma HoldsExtends(t: Trie, t': Trie, words: seq<seq<byte>>, i: nat)
    requires i < |words| && Holds(t, words, i) && Extends(t, t')
    ensures Holds(t', words, i)
  {
    GoExtends(t, t', 0, words[i]);
    assert Grows(t[Go(t, 0, words[i])], t'[Go(t, 0, words[i])]);
  }

  /** The slots of the first n states, one for a state still bare. */
  function Slots(t: Trie, n: nat): nat
    requires n <= |t|
  {
    if n == 0 then 0 else Slots(t, n - 1) + if t[n - 1] == [] then 1 else |t[n - 1]|
  }

  /** States are created depth first, and each brings at most two slots. */
  ghost predicate Grown(t: Trie) {
    && (forall n :: 0 <= n < |t| && t[n] != [] && t[n][0].state != 0 ==> t[n][0].state == n + 1 < |t|)
    && (forall n, k :: 0 <= n < |t| && 0 < k < |t[n]| ==> n + 1 < t[n][k].state)
    && Slots(t, |t|) <= 2 * |t|
  }

  lemma {:induction false} SlotsSame(t: Trie, t': Trie, n: nat)
    requires n <= |t| && n <= |t'| && forall k :: 0 <= k < n ==> t[k] == t'[k]
    ensures Slots(t, n) == Slots(t', n)
  {
    if n > 0 { SlotsSame(t, t', n - 1); }
  }

  lemma {:induction false} SlotsUpdate(t: Trie, w: nat, edges: seq<Edge>, n: nat)
    requires w < n <= |t| && edges != []
    ensures Slots(t[w := edges], n) == Slots(t, n) - (if t[w] == [] then 1 else |t[w]|) + |edges|
  {
    if w == n - 1 { SlotsSame(t, t[w := edges], n - 1); } else { SlotsUpdate(t, w, edges, n - 1); }
  }

  lemma AddChildGrown(t: Trie, w: nat, c: int)
    requires Grown(t) && w < |t| && (if t[w] == [] then w == |t| - 1 else t[w][0].state != 0)
    ensures Grown(AddChild(t, w, c))
  {
    var t' := AddChild(t, w, c);
    SlotsUpdate(t, w, t[w] + [Edge(c, |t|)], |t|);
    SlotsSame(t[w := t[w] + [Edge(c, |t|)]], t', |t|);
  }

  lemma MarkLeafGrown(t: Trie, w: nat, leaf: Edge)
    requires Grown(t) && w < |t| && t[w] == [] && leaf.state == 0
    ensures Grown(t[w := [leaf]])
  {
    SlotsUpdate(t, w, [leaf], |t|);
  }

  /** What the finished trie guarantees. */
  ghost predicate Built(t: Trie, words: seq<seq<byte>>) {
    && |t| > 0
    && (forall i :: 0 <= i < |words| && words[i] != [] ==> Holds(t, words, i))
    && (forall n, k :: 0 <= n < |t| && 0 <= k < |t[n]| ==> EdgeOk(t, n, k))
    && (forall n :: 0 <= n < |t| ==> Distinct(t[n]))
    && (forall n :: 0 < n < |t| ==> t[n] != [])
    && (|t| > 1 ==> t[0] != [])
    && Grown(t)
  }

  ghost predicate Distinct(edges: seq<Edge>) {
    forall j, k :: 0 <= j < k < |edges| ==> edges[j].c != edges[k].c
  }

  ghost predicate EdgeOk(t: Trie, n: nat, k: nat)
    requires n < |t| && k < |t[n]|
  {
    if t[n][k].state == 0 then |t[n]| == 1 && -128 <= t[n][k].c < 128
    else n < t[n][k].state < |t| && CharOk(t[n][k].c)
  }

  // ------------------------------------------------------------- building the trie

  ghost function NextChars(words: seq<seq<byte>>, p: seq<byte>): set<int> {
    set i | 0 <= i < |words| && p < words[i] :: words[i][|p|] as int
  }

  ghost function Prefixes(words: seq<seq<byte>>): set<seq<byte>> {
    set i, m | 0 <= i < |words| && 0 <= m <= |words[i]| :: words[i][..m]
  }

  /** The strings fit the fixed arrays `state[1000]` and `c[30]`, which the generator does not check. */
  ghost predicate Fits(words: seq<seq<byte>>) {
    |Prefixes(words) + {[]}| <= MAX_STATES && forall p :: |NextChars(words, p)| <= PARALLEL
  }

  lemma {:induction false} Pigeonhole<T>(s: seq<T>, big: set<T>)
    requires forall i :: 0 <= i < |s| ==> s[i] in big
    requires forall i, j :: 0 <= i < j < |s| ==> s[i] != s[j]
    ensures |s| <= |big|
  {
    if s != [] {
      var k := |s| - 1;
      Pigeonhole(s[..k], big - {s[k]});
    }
  }

  /** While string n is being inserted. */
  ghost predicate Inserting(t: Trie, paths: seq<seq<byte>>, owner: seq<nat>, words: seq<seq<byte>>, n: nat) {
    && Words(words) && n <= |words|
    && Shape(t, paths, owner, words)
    && (forall v :: 0 <= v < |t| ==> Owned(t, paths, owner, v, n))
    && (forall i :: 0 <= i < n && words[i] != [] ==> Holds(t, words, i))
  }

  ghost predicate Owned(t: Trie, paths: seq<seq<byte>>, owner: seq<nat>, v: nat, n: nat)
    requires v < |t| == |paths| == |owner|
  {
    && Go(t, 0, paths[v]) == v
    && (v > 0 ==> owner[v] <= n)
    && (v > 0 && Leaf(t[v]) ==> owner[v] < n)
    && (v > 0 && t[v] == [] ==> owner[v] == n)
  }

  /** A path of the trie never runs through the terminal of another string. */
  lemma NotLeaf(t: Trie, paths: seq<seq<byte>>, owner: seq<nat>, words: seq<seq<byte>>, n: nat, m: nat)
    requires Inserting(t, paths, owner, words, n) && n < |words| && m <= |words[n]| && words[n] != []
    requires Go(t, 0, words[n][..m]) >= 0
    ensures var w := Go(t, 0, words[n][..m]); w < |t| && paths[w] == words[n][..m] && !Leaf(t[w])
  {
    var w := Go(t, 0, words[n][..m]);
    GoSpells(t, paths, owner, words, 0, words[n][..m]);
    assert [] + words[n][..m] == words[n][..m];
    assert Node(t, paths, owner, words, w) && Owned(t, paths, owner, w, n);
    assert w > 0 && paths[w] == words[owner[w]] ==> words[owner[w]] <= words[n];
  }

  /** A state with branches lies strictly inside the string that owns its first branch. */
  lemma Onward(t: Trie, paths: seq<seq<byte>>, owner: seq<nat>, words: seq<seq<byte>>, n: nat, w: nat) returns (o: nat)
    requires Inserting(t, paths, owner, words, n) && w < |t| && !Leaf(t[w]) && t[w] != []
    ensures o < |words| && words[o] != [] && paths[w] <= words[o] && paths[w] != words[o]
  {
    assert Node(t, paths, owner, words, w) && Branch(t[w][0], t, paths, w);
    var v := t[w][0].state;
    assert Node(t, paths, owner, words, v);
    o := owner[v];
    assert paths[w] == paths[v][..|paths[w]|] == words[o][..|paths[w]|];
  }

  /** At the end of a string its state is a fresh one. */
  lemma EndIsFresh(t: Trie, paths: seq<seq<byte>>, owner: seq<nat>, words: seq<seq<byte>>, n: nat)
    requires Inserting(t, paths, owner, words, n) && n < |words| && words[n] != []
    requires Go(t, 0, words[n]) >= 0
    ensures var w := Go(t, 0, words[n]); 0 < w < |t| && paths[w] == words[n] && t[w] == [] && owner[w] == n
  {
    var s, w := words[n], Go(t, 0, words[n]);
    assert s[..|s|] == s;
    NotLeaf(t, paths, owner, words, n, |s|);
    assert Node(t, paths, owner, words, w) && Owned(t, paths, owner, w, n);
    if t[w] != [] {
      var o := Onward(t, paths, owner, words, n, w);
    }
  }

  function AddChild(t: Trie, w: nat, c: int): Trie
    requires w < |t|
  {
    t[w := t[w] + [Edge(c, |t|)]] + [[]]
  }

  lemma AddChildNode(t: Trie, paths: seq<seq<byte>>, owner: seq<nat>, words: seq<seq<byte>>, w: nat, c: byte, n: nat,
      v: nat)
    requires Shape(t, paths, owner, words) && w < |t| && v < |t| && n < |words|
    requires CharOk(c) && !Leaf(t[w]) && forall k :: 0 <= k < |t[w]| ==> t[w][k].c != c
    ensures Node(AddChild(t, w, c), paths + [paths[w] + [c]], owner + [n], words, v)
  {
    var t', paths' := AddChild(t, w, c), paths + [paths[w] + [c]];
    assert Node(t, paths, owner, words, v);
    if !Leaf(t[v]) {
      forall k | 0 <= k < |t'[v]| ensures Branch(t'[v][k], t', paths', v) {
        if k < |t[v]| { assert Branch(t[v][k], t, paths, v); }
      }
    }
  }

  /** The new state is reached by the characters read so far. */
  lemma AddChildReaches(t: Trie, s: seq<byte>, c: byte, w: nat)
    requires Go(t, 0, s) == w < |t| && !Leaf(t[w]) && forall k :: 0 <= k < |t[w]| ==> t[w][k].c != c
    ensures Extends(t, AddChild(t, w, c)) && Go(AddChild(t, w, c), 0, s + [c]) == |t|
  {
    var t' := AddChild(t, w, c);
    forall v | 0 <= v < |t| ensures Grows(t[v], t'[v]) {}
    GoExtends(t, t', 0, s);
    GoSnoc(t', 0, s, c);
    ChildIs(t'[w], c, |t[w]|);
  }

  /** Appending a branch for an unseen character keeps everything built so far. */
  lemma AddChildKeeps(t: Trie, paths: seq<seq<byte>>, owner: seq<nat>, words: seq<seq<byte>>, n: nat, m: nat)
    requires Inserting(t, paths, owner, words, n) && n < |words| && m < |words[n]|
    requires Go(t, 0, words[n][..m]) >= 0 && Go(t, 0, words[n][..m]) < |t|
    requires Child(t[Go(t, 0, words[n][..m])], words[n][m]) == 0
    ensures var w, c := Go(t, 0, words[n][..m]), words[n][m];
      Inserting(AddChild(t, w, c), paths + [words[n][..m + 1]], owner + [n], words, n)
      && Extends(t, AddChild(t, w, c)) && Go(AddChild(t, w, c), 0, words[n][..m + 1]) == |t|
  {
    var s, w, c := words[n], Go(t, 0, words[n][..m]), words[n][m];
    var t', paths', owner' := AddChild(t, w, c), paths + [s[..m + 1]], owner + [n];
    NotLeaf(t, paths, owner, words, n, m);
    NoEdge(t, paths, owner, words, w, c);
    assert s[..m + 1] == s[..m] + [c];
    AddChildReaches(t, s[..m], c, w);
    NewNode(t', paths', owner', words, n, m);
    hide Node, Holds, Owned, Go, Child, Leaf, Extends, PrefixFree;
    forall i | 0 <= i < n && words[i] != [] ensures Holds(t', words, i) { HoldsExtends(t, t', words, i); }
    forall v | 0 <= v < |t'| ensures Node(t', paths', owner', words, v) {
      if v < |t| { AddChildNode(t, paths, owner, words, w, c, n, v); }
    }
    forall v {:trigger paths'[v]} | 0 <= v < |t'| ensures Owned(t', paths', owner', v, n) {
      if v < |t| { AddChildOwned(t, paths, owner, w, c, s[..m + 1], n, v); }
    }
  }

  lemma NewNode(t': Trie, paths': seq<seq<byte>>, owner': seq<nat>, words: seq<seq<byte>>, n: nat, m: nat)
    requires |t'| == |paths'| == |owner'| > 1 && n < |words| && m < |words[n]|
    requires var v := |t'| - 1;
      t'[v] == [] && paths'[v] == words[n][..m + 1] && owner'[v] == n && Go(t', 0, paths'[v]) == v
    ensures var v := |t'| - 1; Node(t', paths', owner', words, v) && Owned(t', paths', owner', v, n)
  {}

  lemma AddChildOwned(t: Trie, paths: seq<seq<byte>>, owner: seq<nat>, w: nat, c: byte, path: seq<byte>, n: nat, v: nat)
    requires |t| == |paths| == |owner| && v < |t| && w < |t| && Owned(t, paths, owner, v, n)
    requires !Leaf(t[w]) && c >= 9 && Extends(t, AddChild(t, w, c))
    ensures Owned(AddChild(t, w, c), paths + [path], owner + [n], v, n)
  {
    GoExtends(t, AddChild(t, w, c), 0, paths[v]);
  }

  lemma NoEdge(t: Trie, paths: seq<seq<byte>>, owner: seq<nat>, words: seq<seq<byte>>, w: nat, c: int)
    requires Shape(t, paths, owner, words) && w < |t| && !Leaf(t[w]) && Child(t[w], c) == 0
    ensures forall k :: 0 <= k < |t[w]| ==> t[w][k].c != c
  {
    assert Node(t, paths, owner, words, w);
    if k :| 0 <= k < |t[w]| && t[w][k].c == c {
      assert Branch(t[w][k], t, paths, w);
      ChildIs(t[w], c, k);
      assert false;
    }
  }

  lemma MarkLeafNode(t: Trie, paths: seq<seq<byte>>, owner: seq<nat>, words: seq<seq<byte>>, n: nat, w: nat, v: nat)
    requires Shape(t, paths, owner, words) && n < |words| && 0 < w < |t| && v < |t|
    requires paths[w] == words[n] && owner[w] == n
    ensures Node(t[w := [Edge(ToChar(n), 0)]], paths, owner, words, v)
  {
    var t' := t[w := [Edge(ToChar(n), 0)]];
    assert Node(t, paths, owner, words, v);
    if v != w && !Leaf(t[v]) {
      forall k | 0 <= k < |t'[v]| ensures Branch(t'[v][k], t', paths, v) { assert Branch(t[v][k], t, paths, v); }
    }
  }

  lemma MarkLeafExtends(t: Trie, w: nat, leaf: Edge)
    requires w < |t| && t[w] == []
    ensures Extends(t, t[w := [leaf]])
  {
    forall v | 0 <= v < |t| ensures Grows(t[v], t[w := [leaf]][v]) {}
  }

  lemma MarkLeafOwned(t: Trie, t': Trie, paths: seq<seq<byte>>, owner: seq<nat>, n: nat, w: nat, v: nat)
    requires |t| == |paths| == |owner| && v < |t| && w < |t| && t[w] == [] && t' == t[w := [Edge(ToChar(n), 0)]]
    requires Owned(t, paths, owner, v, n) && owner[w] == n && (t[v] == [] ==> v == w)
    ensures Owned(t', paths, owner, v, n + 1)
  {
    MarkLeafExtends(t, w, Edge(ToChar(n), 0));
    GoExtends(t, t', 0, paths[v]);
  }

  lemma MarkLeafHolds(t: Trie, t': Trie, words: seq<seq<byte>>, n: nat, w: nat, i: nat)
    requires w < |t| && t[w] == [] && t' == t[w := [Edge(ToChar(n), 0)]] && i <= n < |words|
    requires if i < n then Holds(t, words, i) else Go(t, 0, words[n]) == w
    ensures Holds(t', words, i)
  {
    MarkLeafExtends(t, w, Edge(ToChar(n), 0));
    if i < n { HoldsExtends(t, t', words, i); } else { GoExtends(t, t', 0, words[n]); }
  }

  /** Writing the terminal completes string n. */
  lemma MarkLeafKeeps(t: Trie, paths: seq<seq<byte>>, owner: seq<nat>, words: seq<seq<byte>>, n: nat, w: nat)
    requires Inserting(t, paths, owner, words, n) && n < |words| && words[n] != [] && Go(t, 0, words[n]) == w
    requires Grown(t) && forall v :: 0 <= v < |t| && t[v] == [] ==> v == w
    ensures w < |t| && Between(t[w := [Edge(ToChar(n), 0)]], paths, owner, words, n + 1)
  {
    EndIsFresh(t, paths, owner, words, n);
    MarkLeafGrown(t, w, Edge(ToChar(n), 0));
    var t' := t[w := [Edge(ToChar(n), 0)]];
    hide Node, Holds, Owned, Go, Slots;
    forall v | 0 <= v < |t'| ensures Node(t', paths, owner, words, v) { MarkLeafNode(t, paths, owner, words, n, w, v); }
    forall i | 0 <= i < n + 1 && words[i] != [] ensures Holds(t', words, i) { MarkLeafHolds(t, t', words, n, w, i); }
    forall v {:trigger paths[v]} | 0 <= v < |t'| ensures Owned(t', paths, owner, v, n + 1) {
      MarkLeafOwned(t, t', paths, owner, n, w, v);
    }
  }

  lemma TargetsAlive(t: Trie, paths: seq<seq<byte>>, owner: seq<nat>, words: seq<seq<byte>>, n: nat, m: nat)
    requires Inserting(t, paths, owner, words, n) && n < |words| && m < |words[n]|
    requires Go(t, 0, words[n][..m]) >= 0
    ensures var w := Go(t, 0, words[n][..m]); w < |t| && forall k :: 0 <= k < |t[w]| ==> 0 < t[w][k].state < |t|
  {
    NotLeaf(t, paths, owner, words, n, m);
    var w := Go(t, 0, words[n][..m]);
    assert Node(t, paths, owner, words, w);
    forall k | 0 <= k < |t[w]| ensures 0 < t[w][k].state < |t| { assert Branch(t[w][k], t, paths, w); }
  }

  /** m characters of string n are placed and lead to state walk. */
  ghost predicate Walking(t: Trie, paths: seq<seq<byte>>, owner: seq<nat>, words: seq<seq<byte>>, n: nat, m: nat,
      walk: nat)
  {
    && Inserting(t, paths, owner, words, n)
    && n < |words| && m <= |words[n]| && Go(t, 0, words[n][..m]) == walk < |t|
    && Grown(t) && (t[walk] == [] ==> walk == |t| - 1)
    && forall v :: 0 <= v < |t| && t[v] == [] ==> v == walk
  }

  lemma FollowChild(t: Trie, paths: seq<seq<byte>>, owner: seq<nat>, words: seq<seq<byte>>, n: nat, m: nat, walk: nat)
    requires Walking(t, paths, owner, words, n, m, walk) && m < |words[n]|
    requires Child(t[walk], words[n][m]) != 0
    ensures Walking(t, paths, owner, words, n, m + 1, Child(t[walk], words[n][m]))
  {
    var s, c := words[n][..m], words[n][m];
    var k := ChildFound(t[walk], c);
    TargetsAlive(t, paths, owner, words, n, m);
    GoSnoc(t, 0, s, c);
    assert words[n][..m + 1] == s + [c];
  }

  lemma FreshChild(t: Trie, paths: seq<seq<byte>>, owner: seq<nat>, words: seq<seq<byte>>, n: nat, m: nat, walk: nat)
    requires Walking(t, paths, owner, words, n, m, walk) && m < |words[n]|
    requires Child(t[walk], words[n][m]) == 0
    ensures Walking(AddChild(t, walk, words[n][m]), paths + [words[n][..m + 1]], owner + [n], words, n, m + 1, |t|)
  {
    AddChildKeeps(t, paths, owner, words, n, m);
    TargetsAlive(t, paths, owner, words, n, m);
    AddChildGrown(t, walk, words[n][m]);
  }

  /** Between two strings every state has a way on; only the root may still be bare. */
  ghost predicate Between(t: Trie, paths: seq<seq<byte>>, owner: seq<nat>, words: seq<seq<byte>>, n: nat) {
    && Inserting(t, paths, owner, words, n) && Grown(t)
    && (forall v :: 0 < v < |t| ==> t[v] != []) && (|t| > 1 ==> t[0] != [])
  }

  lemma NothingInserted(words: seq<seq<byte>>)
    requires Words(words)
    ensures Between([[]], [[]], [0], words, 0)
  {
    assert Node([[]], [[]], [0], words, 0) && Owned([[]], [[]], [0], 0, 0);
  }

  lemma BetweenWords(t: Trie, paths: seq<seq<byte>>, owner: seq<nat>, words: seq<seq<byte>>, n: nat)
    requires Between(t, paths, owner, words, n) && n < |words|
    ensures Walking(t, paths, owner, words, n, 0, 0)
  {}

  lemma SkipEmptyWord(t: Trie, paths: seq<seq<byte>>, owner: seq<nat>, words: seq<seq<byte>>, n: nat)
    requires Between(t, paths, owner, words, n) && n < |words| && words[n] == []
    ensures Between(t, paths, owner, words, n + 1)
  {
    forall v {:trigger paths[v]} | 0 <= v < |t|
      ensures Owned(t, paths, owner, v, n + 1)
    {
      assert Owned(t, paths, owner, v, n);
    }
  }

  lemma InsertedIsBuilt(t: Trie, paths: seq<seq<byte>>, owner: seq<nat>, words: seq<seq<byte>>)
    requires Between(t, paths, owner, words, |words|)
    ensures Built(t, words)
  {
    forall n | 0 <= n < |t| ensures Distinct(t[n]) { assert Node(t, paths, owner, words, n); }
    forall n, k | 0 <= n < |t| && 0 <= k < |t[n]| ensures EdgeOk(t, n, k) {
      assert Node(t, paths, owner, words, n);
      if !Leaf(t[n]) { assert Branch(t[n][k], t, paths, n); }
    }
  }

  lemma NoMoreStates(t: Trie, paths: seq<seq<byte>>, owner: seq<nat>, words: seq<seq<byte>>, n: nat)
    requires Inserting(t, paths, owner, words, n)
    ensures |t| <= |Prefixes(words) + {[]}|
  {
    forall v | 0 <= v < |t| ensures paths[v] in Prefixes(words) + {[]} {
      assert Node(t, paths, owner, words, v);
      if v > 0 { assert paths[v] == words[owner[v]][..|paths[v]|]; }
    }
    forall u, v | 0 <= u < v < |t|
      ensures paths[u] != paths[v]
    {
      assert Owned(t, paths, owner, u, n) && Owned(t, paths, owner, v, n);
    }
    Pigeonhole(paths, Prefixes(words) + {[]});
  }

  lemma NoMoreBranches(t: Trie, paths: seq<seq<byte>>, owner: seq<nat>, words: seq<seq<byte>>, w: nat)
    requires Shape(t, paths, owner, words) && w < |t| && !Leaf(t[w])
    ensures |t[w]| <= |NextChars(words, paths[w])|
  {
    assert Node(t, paths, owner, words, w);
    var chars := seq(|t[w]|, k requires 0 <= k < |t[w]| => t[w][k].c);
    forall k | 0 <= k < |chars| ensures chars[k] in NextChars(words, paths[w]) {
      assert Branch(t[w][k], t, paths, w);
      var v := t[w][k].state;
      assert Node(t, paths, owner, words, v);
      assert words[owner[v]][..|paths[v]|] == paths[v];
      assert words[owner[v]][..|paths[w]|] == paths[v][..|paths[w]|] == paths[w];
      assert words[owner[v]][|paths[w]|] == paths[v][|paths[w]|] == chars[k];
    }
    Pigeonhole(chars, NextChars(words, paths[w]));
  }

  /** The state array and each state's branch arrays have room for one more. */
  lemma RoomForChild(t: Trie, paths: seq<seq<byte>>, owner: seq<nat>, words: seq<seq<byte>>, n: nat, m: nat)
    requires Inserting(t, paths, owner, words, n) && n < |words| && m < |words[n]|
    requires Go(t, 0, words[n][..m]) >= 0 && Go(t, 0, words[n][..m]) < |t|
    requires Child(t[Go(t, 0, words[n][..m])], words[n][m]) == 0
    ensures Fits(words) ==> |t| < MAX_STATES && |t[Go(t, 0, words[n][..m])]| < PARALLEL
  {
    AddChildKeeps(t, paths, owner, words, n, m);
    NotLeaf(t, paths, owner, words, n, m);
    var w, c := Go(t, 0, words[n][..m]), words[n][m];
    NoMoreStates(AddChild(t, w, c), paths + [words[n][..m + 1]], owner + [n], words, n);
    NoMoreBranches(AddChild(t, w, c), paths + [words[n][..m + 1]], owner + [n], words, w);
  }

  // ------------------------------------------------------------- what had to fit

  lemma {:induction false} CountSeq<T>(s: seq<T>, small: set<T>)
    requires forall x :: x in small ==> x in s
    ensures |small| <= |s|
    decreases |s|
  {
    if s != [] {
      var k := |s| - 1;
      CountSeq(s[..k], small - {s[k]});
      assert small - {s[k]} == small || small == small - {s[k]} + {s[k]};
    } else {
      assert small == {};
    }
  }

  lemma {:induction false} GoPrefix(t: Trie, n: int, s: seq<byte>, m: nat)
    requires Go(t, n, s) >= 0 && m <= |s|
    ensures 0 <= Go(t, n, s[..m]) < |t|
    ensures m < |s| ==> Child(t[Go(t, n, s[..m])], s[m]) != 0
    decreases |s|
  {
    if m > 0 {
      assert s[..m][1..] == s[1..][..m - 1];
      GoPrefix(t, Child(t[n], s[0]), s[1..], m - 1);
    }
  }

  /** A prefix of a string held is the path of its state, and what may follow it is a branch there. */
  lemma PrefixPlaced(t: Trie, paths: seq<seq<byte>>, owner: seq<nat>, words: seq<seq<byte>>, i: nat, m: nat)
    requires Between(t, paths, owner, words, |words|) && i < |words| && m <= |words[i]|
    ensures var w := Go(t, 0, words[i][..m]);
      && 0 <= w < |t| && paths[w] == words[i][..m]
      && (m < |words[i]| ==> exists k :: 0 <= k < |t[w]| && t[w][k].c == words[i][m])
  {
    var s := words[i];
    if s != [] {
      assert Holds(t, words, i);
      GoPrefix(t, 0, s, m);
      if m < |s| { var k := ChildFound(t[Go(t, 0, s[..m])], s[m]); }
    }
    GoSpells(t, paths, owner, words, 0, s[..m]);
    assert [] + s[..m] == s[..m];
  }

  /** A trie that was built inside the fixed arrays shows that the strings fit them. */
  lemma BuiltFits(t: Trie, paths: seq<seq<byte>>, owner: seq<nat>, words: seq<seq<byte>>)
    requires Between(t, paths, owner, words, |words|)
    requires |t| <= MAX_STATES && forall n :: 0 <= n < |t| ==> |t[n]| <= PARALLEL
    ensures Fits(words)
  {
    hide Between, Holds;
    var all := Prefixes(words) + {[]};
    forall p | p in all
      ensures p in paths
    {
      if p != [] { PrefixIsPath(t, paths, owner, words, p); } else { RootPath(t, paths, owner, words); }
    }
    CountSeq(paths, all);
    RootPath(t, paths, owner, words);
    forall p ensures |NextChars(words, p)| <= PARALLEL { NextFits(t, paths, owner, words, p); }
  }

  lemma RootPath(t: Trie, paths: seq<seq<byte>>, owner: seq<nat>, words: seq<seq<byte>>)
    requires Between(t, paths, owner, words, |words|)
    ensures |t| == |paths| > 0 && paths[0] == []
  {}

  lemma PrefixIsPath(t: Trie, paths: seq<seq<byte>>, owner: seq<nat>, words: seq<seq<byte>>, p: seq<byte>)
    requires Between(t, paths, owner, words, |words|) && p in Prefixes(words)
    ensures p in paths
  {
    var i, m :| 0 <= i < |words| && 0 <= m <= |words[i]| && p == words[i][..m];
    PrefixPlaced(t, paths, owner, words, i, m);
  }

  lemma NextFits(t: Trie, paths: seq<seq<byte>>, owner: seq<nat>, words: seq<seq<byte>>, p: seq<byte>)
    requires Between(t, paths, owner, words, |words|) && forall n :: 0 <= n < |t| ==> |t[n]| <= PARALLEL
    ensures |NextChars(words, p)| <= PARALLEL
  {
    hide Between;
    var next := NextChars(words, p);
    if i :| 0 <= i < |words| && p < words[i] {
      assert words[i][..|p|] == p;
      PrefixPlaced(t, paths, owner, words, i, |p|);
      var w := Go(t, 0, p);
      var chars := seq(|t[w]|, k requires 0 <= k < |t[w]| => t[w][k].c);
      forall c | c in next ensures c in chars {
        var j :| 0 <= j < |words| && p < words[j] && words[j][|p|] as int == c;
        assert words[j][..|p|] == p;
        PrefixPlaced(t, paths, owner, words, j, |p|);
        var k :| 0 <= k < |t[w]| && t[w][k].c == c;
        assert chars[k] == c;
      }
      CountSeq(chars, next);
    } else {
      assert next == {};
    }
  }
}
