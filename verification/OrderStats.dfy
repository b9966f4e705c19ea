/**
  Order statistics in exact arithmetic: sorting, the median and the median absolute
  deviation as LapFuelData.cpp takes them, and what they mean by counting.
*/
module OrderStats {

  predicate Sorted(s: seq<real>) { forall i, j :: 0 <= i < j < |s| ==> s[i] <= s[j] }

  predicate AtLeast(s: seq<real>, lo: real) { forall i :: 0 <= i < |s| ==> lo <= s[i] }

  predicate AtMost(s: seq<real>, hi: real) { forall i :: 0 <= i < |s| ==> s[i] <= hi }

  function Insert(x: real, s: seq<real>): (r: seq<real>)
    ensures |r| == |s| + 1
  {
    if s == [] || x <= s[0] then [x] + s else [s[0]] + Insert(x, s[1..])
  }

  /** std::sort */
  function Sort(s: seq<real>): (r: seq<real>)
    ensures |r| == |s|
  {
    if s == [] then [] else Insert(s[0], Sort(s[1..]))
  }

  function Abs(x: real): real { if x < 0.0 then -x else x }

  /** How many of the values lie in [lo, hi]. */
  function Count(s: seq<real>, lo: real, hi: real): nat {
    if s == [] then 0 else (if lo <= s[0] <= hi then 1 else 0) + Count(s[1..], lo, hi)
  }

  /** The values in [lo, hi], in order. */
  function Kept(s: seq<real>, lo: real, hi: real): (r: seq<real>)
    ensures |r| == Count(s, lo, hi) && AtLeast(r, lo) && AtMost(r, hi)
    ensures forall i :: 0 <= i < |r| ==> r[i] in s
  {
    if s == [] then [] else if lo <= s[0] <= hi then [s[0]] + Kept(s[1..], lo, hi) else Kept(s[1..], lo, hi)
  }

  /** The middle value of a sorted list, or the average of the middle two. */
  function Middle(t: seq<real>): real
    requires t != []
  {
    if |t| % 2 == 0 then (t[|t| / 2] + t[|t| / 2 - 1]) / 2.0 else t[|t| / 2]
  }

  function Median(s: seq<real>): real
    requires s != []
  {
    Middle(Sort(s))
  }

  function Deviations(s: seq<real>, m: real): (r: seq<real>)
    ensures |r| == |s| && forall i :: 0 <= i < |s| ==> r[i] == Abs(m - s[i])
  {
    if s == [] then [] else [Abs(m - s[0])] + Deviations(s[1..], m)
  }

  function Mad(s: seq<real>): real
    requires s != []
  {
    Middle(Sort(Deviations(Sort(s), Median(s))))
  }

  // --------------------------------------------------------------------- sorting

  lemma {:induction false} InsertMultiset(x: real, s: seq<real>)
    ensures multiset(Insert(x, s)) == multiset(s) + multiset{x}
  {
    if s != [] && x > s[0] {
      InsertMultiset(x, s[1..]);
      assert s == [s[0]] + s[1..];
    }
  }

  lemma InsertAtLeast(x: real, s: seq<real>, lo: real)
    requires AtLeast(s, lo) && lo <= x
    ensures AtLeast(Insert(x, s), lo)
  {
    hide Insert;
    InsertMultiset(x, s);
    var r := Insert(x, s);
    forall i | 0 <= i < |r| ensures lo <= r[i] {
      assert r[i] in multiset(r);
      assert r[i] == x || r[i] in multiset(s);
    }
  }

  lemma {:induction false} InsertSorted(x: real, s: seq<real>)
    requires Sorted(s)
    ensures Sorted(Insert(x, s))
  {
    if s != [] && x > s[0] {
      InsertSorted(x, s[1..]);
      InsertAtLeast(x, s[1..], s[0]);
    }
  }

  /** Sorting keeps the values and orders them. */
  lemma {:induction false} SortSorts(s: seq<real>)
    ensures Sorted(Sort(s)) && multiset(Sort(s)) == multiset(s)
  {
    if s != [] {
      SortSorts(s[1..]);
      InsertSorted(s[0], Sort(s[1..]));
      InsertMultiset(s[0], Sort(s[1..]));
      assert s == [s[0]] + s[1..];
    }
  }

  lemma SortBounds(s: seq<real>, lo: real, hi: real)
    requires AtLeast(s, lo) && AtMost(s, hi)
    ensures AtLeast(Sort(s), lo) && AtMost(Sort(s), hi)
  {
    SortSorts(s);
    var t := Sort(s);
    forall i | 0 <= i < |t| ensures lo <= t[i] <= hi {
      assert t[i] in multiset(s);
    }
  }

  lemma {:induction false} CountInsert(x: real, s: seq<real>, lo: real, hi: real)
    ensures Count(Insert(x, s), lo, hi) == Count([x] + s, lo, hi)
  {
    assert ([x] + s)[1..] == s;
    if s != [] && x > s[0] {
      CountInsert(x, s[1..], lo, hi);
      assert ([s[0]] + Insert(x, s[1..]))[1..] == Insert(x, s[1..]);
      assert ([x] + s[1..])[1..] == s[1..];
    }
  }

  lemma {:induction false} CountSort(s: seq<real>, lo: real, hi: real)
    ensures Count(Sort(s), lo, hi) == Count(s, lo, hi)
  {
    if s != [] {
      CountSort(s[1..], lo, hi);
      CountInsert(s[0], Sort(s[1..]), lo, hi);
      assert ([s[0]] + Sort(s[1..]))[1..] == Sort(s[1..]);
    }
  }

  // ----------------------------------------------------------------------- ranks

  /** k values in a row that are in the interval. */
  lemma {:induction false} CountRange(s: seq<real>, lo: real, hi: real, a: nat, b: nat)
    requires a <= b <= |s| && forall i :: a <= i < b ==> lo <= s[i] <= hi
    ensures Count(s, lo, hi) >= b - a
  {
    if a < b || a > 0 {
      if a > 0 { CountRange(s[1..], lo, hi, a - 1, b - 1); } else { CountRange(s[1..], lo, hi, 0, b - 1); }
    }
  }

  lemma {:induction false} CountAtMost(s: seq<real>, lo: real, hi: real, k: nat)
    requires k <= |s| && forall i :: k <= i < |s| ==> s[i] > hi
    ensures Count(s, lo, hi) <= k
  {
    if s != [] { CountAtMost(s[1..], lo, hi, if k > 0 then k - 1 else 0); }
  }

  /** If more than k values are at most hi, so is the one of rank k. */
  lemma RankBound(t: seq<real>, lo: real, hi: real, k: nat)
    requires Sorted(t) && k < |t| && Count(t, lo, hi) > k
    ensures t[k] <= hi
  {
    if t[k] > hi { CountAtMost(t, lo, hi, k); }
  }

  /** If more than half of the values are at most hi, so is the middle. */
  lemma MiddleBound(t: seq<real>, lo: real, hi: real)
    requires Sorted(t) && t != [] && Count(t, lo, hi) > |t| / 2
    ensures Middle(t) <= hi
  {
    RankBound(t, lo, hi, |t| / 2);
  }

  /** At least half of the values lie on either side of the middle. */
  lemma MiddleSplits(t: seq<real>, lo: real, hi: real)
    requires Sorted(t) && t != [] && AtLeast(t, lo) && AtMost(t, hi)
    ensures 2 * Count(t, lo, Middle(t)) >= |t| && 2 * Count(t, Middle(t), hi) >= |t|
    ensures lo <= Middle(t) <= hi
  {
    CountRange(t, lo, Middle(t), 0, |t| - |t| / 2);
    CountRange(t, Middle(t), hi, |t| / 2, |t|);
  }

  /** The median splits the list in two halves, whatever the order it comes in. */
  lemma MedianSplits(s: seq<real>, lo: real, hi: real)
    requires s != [] && AtLeast(s, lo) && AtMost(s, hi)
    ensures 2 * Count(s, lo, Median(s)) >= |s| && 2 * Count(s, Median(s), hi) >= |s|
    ensures lo <= Median(s) <= hi
  {
    SortSorts(s);
    SortBounds(s, lo, hi);
    MiddleSplits(Sort(s), lo, hi);
    CountSort(s, lo, Median(s));
    CountSort(s, Median(s), hi);
  }

  // ------------------------------------------------------------------ deviations

  lemma {:induction false} CountDeviations(s: seq<real>, m: real, c: real)
    ensures Count(Deviations(s, m), 0.0, c) == Count(s, m - c, m + c)
  {
    if s != [] {
      CountDeviations(s[1..], m, c);
      assert Deviations(s, m)[1..] == Deviations(s[1..], m);
    }
  }

  lemma DeviationsNatural(s: seq<real>, m: real)
    ensures AtLeast(Deviations(s, m), 0.0)
  {}

  /** The sorted deviations of the sorted list count like the list itself. */
  lemma CountSortedDeviations(s: seq<real>, m: real, c: real)
    ensures Count(Sort(Deviations(Sort(s), m)), 0.0, c) == Count(s, m - c, m + c)
  {
    CountSort(Deviations(Sort(s), m), 0.0, c);
    CountDeviations(Sort(s), m, c);
    CountSort(s, m - c, m + c);
  }

  lemma {:induction false} UpperBound(s: seq<real>) returns (hi: real)
    ensures AtMost(s, hi)
  {
    if s == [] { hi := 0.0; }
    else { var h := UpperBound(s[1..]); hi := if h < s[0] then s[0] else h; }
  }

  /** At least half of the values are within one deviation of the median. */
  lemma MadCovers(s: seq<real>)
    requires s != []
    ensures Mad(s) >= 0.0 && 2 * Count(s, Median(s) - Mad(s), Median(s) + Mad(s)) >= |s|
  {
    hide Count, Sort, Deviations, Middle;
    var d := Deviations(Sort(s), Median(s));
    DeviationsNatural(Sort(s), Median(s));
    var hi := UpperBound(d);
    MedianSplits(d, 0.0, hi);
    CountSort(d, 0.0, Mad(s));
    CountSortedDeviations(s, Median(s), Mad(s));
  }

  lemma {:induction false} CountWider(s: seq<real>, lo: real, hi: real, lo': real, hi': real)
    requires lo' <= lo && hi <= hi'
    ensures Count(s, lo, hi) <= Count(s, lo', hi')
  {
    if s != [] { CountWider(s[1..], lo, hi, lo', hi'); }
  }

  lemma LowerHalf(t: seq<real>, lo: real)
    requires t != [] && Sorted(t) && AtLeast(t, lo)
    ensures Count(t, lo, 2.0 * Middle(t) - lo) > |t| / 2
  {
    var h := |t| / 2;
    assert t[h] <= 2.0 * Middle(t) - lo;
    CountRange(t, lo, 2.0 * Middle(t) - lo, 0, h + 1);
  }

  /** The deviation never reaches below the least value. */
  lemma MadBound(s: seq<real>, lo: real)
    requires s != [] && AtLeast(s, lo)
    ensures 0.0 <= Mad(s) <= Median(s) - lo
  {
    hide Count, Sort, Deviations, Middle, Sorted, AtLeast, AtMost;
    MadCovers(s);
    var t, m := Sort(s), Median(s);
    var hi := UpperBound(s);
    SortSorts(s);
    SortBounds(s, lo, hi);
    LowerHalf(t, lo);
    var d := Deviations(t, m);
    SortSorts(d);
    CountSort(s, lo, m + (m - lo));
    CountSortedDeviations(s, m, m - lo);
    MiddleBound(Sort(d), 0.0, m - lo);
  }

  // ---------------------------------------------------------------- laws of the median

  lemma FirstAndRest(s: seq<real>)
    requires s != []
    ensures multiset(s) == multiset{s[0]} + multiset(s[1..])
  {
    assert s == [s[0]] + s[1..];
  }

  lemma LeastFirst(a: seq<real>, b: seq<real>)
    requires Sorted(a) && Sorted(b) && multiset(a) == multiset(b) && a != []
    ensures b != [] && a[0] == b[0]
  {
    assert a[0] in multiset(a) && a[0] in b;
    assert b[0] in multiset(b) && b[0] in a;
  }

  /** Two orderings of the same values are the same list. */
  lemma {:induction false} SortedUnique(a: seq<real>, b: seq<real>)
    requires Sorted(a) && Sorted(b) && multiset(a) == multiset(b)
    ensures a == b
  {
    if a == [] {
      assert |multiset(b)| == 0;
    } else {
      LeastFirst(a, b);
      FirstAndRest(a);
      FirstAndRest(b);
      SameRest(multiset(a[1..]), multiset(b[1..]), a[0]);
      SortedUnique(a[1..], b[1..]);
    }
  }

  lemma SameRest(a: multiset<real>, b: multiset<real>, x: real)
    requires multiset{x} + a == multiset{x} + b
    ensures a == b
  {
    assert a == multiset{x} + a - multiset{x};
    assert b == multiset{x} + b - multiset{x};
  }

  function Negated(s: seq<real>): (r: seq<real>)
    ensures |r| == |s|
  {
    seq(|s|, i requires 0 <= i < |s| => -s[i])
  }

  function Reversed(s: seq<real>): (r: seq<real>)
    ensures |r| == |s| && forall i :: 0 <= i < |s| ==> r[i] == s[|s| - 1 - i]
    ensures multiset(r) == multiset(s)
  {
    if s == [] then []
    else
      assert s == [s[0]] + s[1..];
      Reversed(s[1..]) + [s[0]]
  }

  lemma {:induction false} NegatedCount(s: seq<real>, x: real)
    ensures multiset(Negated(s))[x] == multiset(s)[-x]
  {
    if s != [] {
      NegatedCount(s[1..], x);
      FirstAndRest(s);
      FirstAndRest(Negated(s));
      assert Negated(s)[1..] == Negated(s[1..]);
    }
  }

  lemma NegatedMultiset(a: seq<real>, b: seq<real>)
    requires multiset(a) == multiset(b)
    ensures multiset(Negated(a)) == multiset(Negated(b))
  {
    forall x ensures multiset(Negated(a))[x] == multiset(Negated(b))[x] {
      NegatedCount(a, x);
      NegatedCount(b, x);
    }
  }

  /** Turned over, a list has its median turned over: neither of two middle values is preferred. */
  lemma MedianMirrored(s: seq<real>)
    requires s != []
    ensures Median(Negated(s)) == -Median(s)
  {
    hide Sort;
    var t := Reversed(Negated(Sort(s)));
    SortSorts(s);
    SortSorts(Negated(s));
    NegatedMultiset(s, Sort(s));
    assert Sorted(t);
    SortedUnique(Sort(Negated(s)), t);
    MirroredMiddle(Sort(s));
  }

  lemma MirroredMiddle(t: seq<real>)
    requires t != []
    ensures Middle(Reversed(Negated(t))) == -Middle(t)
  {
    var r := Reversed(Negated(t));
    assert r[|t| / 2] == -t[|t| - 1 - |t| / 2];
    if |t| % 2 == 0 { assert r[|t| / 2 - 1] == -t[|t| / 2]; }
  }

  /** How many values are at least c away from m. */
  function Far(s: seq<real>, m: real, c: real): nat {
    if s == [] then 0 else (if Abs(m - s[0]) >= c then 1 else 0) + Far(s[1..], m, c)
  }

  lemma {:induction false} FarInsert(x: real, s: seq<real>, m: real, c: real)
    ensures Far(Insert(x, s), m, c) == Far([x] + s, m, c)
  {
    assert ([x] + s)[1..] == s;
    if s != [] && x > s[0] {
      FarInsert(x, s[1..], m, c);
      assert ([s[0]] + Insert(x, s[1..]))[1..] == Insert(x, s[1..]);
      assert ([x] + s[1..])[1..] == s[1..];
    }
  }

  lemma {:induction false} FarSort(s: seq<real>, m: real, c: real)
    ensures Far(Sort(s), m, c) == Far(s, m, c)
  {
    if s != [] {
      FarSort(s[1..], m, c);
      FarInsert(s[0], Sort(s[1..]), m, c);
      assert ([s[0]] + Sort(s[1..]))[1..] == Sort(s[1..]);
    }
  }

  lemma {:induction false} FarDeviations(s: seq<real>, m: real, c: real, hi: real)
    requires AtMost(Deviations(s, m), hi)
    ensures Count(Deviations(s, m), c, hi) == Far(s, m, c)
  {
    if s != [] {
      var d := Deviations(s, m);
      assert d[0] <= hi && d[1..] == Deviations(s[1..], m);
      assert forall i :: 0 <= i < |d[1..]| ==> d[1..][i] == d[i + 1];
      FarDeviations(s[1..], m, c, hi);
    }
  }

  /** At least half of the values are no nearer to the median than one deviation. */
  lemma MadReached(s: seq<real>)
    requires s != []
    ensures 2 * Far(s, Median(s), Mad(s)) >= |s|
  {
    hide Count, Sort, Deviations, Middle, Far;
    var m := Median(s);
    var d := Deviations(Sort(s), m);
    DeviationsNatural(Sort(s), m);
    var hi := UpperBound(d);
    MedianSplits(d, 0.0, hi);
    FarDeviations(Sort(s), m, Mad(s), hi);
    FarSort(s, m, Mad(s));
  }

  lemma {:induction false} KeptExactly(s: seq<real>, lo: real, hi: real, x: real)
    ensures multiset(Kept(s, lo, hi))[x] == if lo <= x <= hi then multiset(s)[x] else 0
  {
    if s != [] {
      KeptExactly(s[1..], lo, hi, x);
      assert s == [s[0]] + s[1..];
    }
  }
}
