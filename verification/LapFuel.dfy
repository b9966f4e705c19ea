/**
  The lap time and fuel estimator of irplugin (LapFuelData.cpp) in exact arithmetic: the
  history of laps, the median with outliers removed in a second pass, the estimates
  taken from it, and the file the history is kept in.
*/
module LapFuel {
  import opened OrderStats

  const DATA_COUNT_MIN := 10

  // -------------------------------------------------------------- the estimator

  datatype Stats = Stats(median: real, mad: real)

  /** The values a pass looks at. */
  function Considered(values: seq<real>, excludeOutliers: bool, prior: Stats): seq<real> {
    if excludeOutliers && prior.median > 0.0 && prior.mad > 0.0
    then Kept(values, prior.median - 3.0 * prior.mad, prior.median + 3.0 * prior.mad)
    else values
  }

  function StatsOf(values: seq<real>): Stats {
    if values == [] then Stats(0.0, 0.0) else Stats(Median(values), Mad(values))
  }

  function FirstPass(values: seq<real>): Stats { StatsOf(values) }

  function SecondPass(values: seq<real>): Stats { StatsOf(Considered(values, true, FirstPass(values))) }

  predicate Positive(s: seq<real>) { forall i :: 0 <= i < |s| ==> s[i] > 0.0 }

  lemma {:induction false} LeastPositive(s: seq<real>) returns (lo: real)
    requires Positive(s)
    ensures lo > 0.0 && AtLeast(s, lo)
  {
    if s == [] { lo := 1.0; }
    else { var l := LeastPositive(s[1..]); lo := if s[0] < l then s[0] else l; }
  }

  /** Of positive values, the deviation is less than the median. */
  lemma StatsOrdered(values: seq<real>)
    requires values != [] && Positive(values)
    ensures 0.0 <= Mad(values) < Median(values)
  {
    hide Mad, Median, AtLeast, Positive;
    var lo := LeastPositive(values);
    MadBound(values, lo);
  }

  /** Three deviations around the median always hold at least half of the values. */
  lemma KeepsHalf(values: seq<real>)
    requires values != []
    ensures 2 * |Considered(values, true, FirstPass(values))| >= |values|
  {
    hide Median, Mad, Count;
    var m, d := Median(values), Mad(values);
    MadCovers(values);
    CountWider(values, m - d, m + d, m - 3.0 * d, m + 3.0 * d);
  }

  /**
    An outlier is a value more than three deviations from the median, when both are positive: the
    second pass looks at every other value, as often as it occurs, and at no outlier.
  */
  lemma OutliersExactly(values: seq<real>, x: real)
    requires values != []
    ensures var outlier := Median(values) > 0.0 && Mad(values) > 0.0 && Abs(x - Median(values)) > 3.0 * Mad(values);
      multiset(Considered(values, true, FirstPass(values)))[x] == if outlier then 0 else multiset(values)[x]
  {
    hide Median, Mad;
    var first := FirstPass(values);
    KeptExactly(values, first.median - 3.0 * first.mad, first.median + 3.0 * first.mad, x);
  }

  lemma KeptPositive(values: seq<real>, excludeOutliers: bool, prior: Stats)
    requires Positive(values)
    ensures Positive(Considered(values, excludeOutliers, prior))
  {
    var r := Considered(values, excludeOutliers, prior);
    forall i | 0 <= i < |r| ensures r[i] > 0.0 {
      assert r[i] in values;
    }
  }

  /** Removing outliers moves the median by at most three deviations. */
  lemma SecondPassClose(values: seq<real>)
    requires values != []
    ensures Abs(SecondPass(values).median - FirstPass(values).median) <= 3.0 * FirstPass(values).mad
      || FirstPass(values).median <= 0.0
  {
    hide Median, Mad, Kept;
    var first := FirstPass(values);
    MadCovers(values);
    KeepsHalf(values);
    var kept := Considered(values, true, first);
    if first.mad > 0.0 && first.median > 0.0 {
      MedianSplits(kept, first.median - 3.0 * first.mad, first.median + 3.0 * first.mad);
    }
  }

  /**
    For positive values both passes find 0 <= MAD < median, and the second pass still
    looks at least at half of the values.
  */
  lemma TwoPassesSound(values: seq<real>)
    requires values != [] && Positive(values)
    ensures 0.0 <= FirstPass(values).mad < FirstPass(values).median
    ensures 2 * |Considered(values, true, FirstPass(values))| >= |values|
    ensures 0.0 <= SecondPass(values).mad < SecondPass(values).median
    ensures Abs(SecondPass(values).median - FirstPass(values).median) <= 3.0 * FirstPass(values).mad
  {
    hide Median, Mad, Positive, Considered;
    StatsOrdered(values);
    KeepsHalf(values);
    KeptPositive(values, true, FirstPass(values));
    StatsOrdered(Considered(values, true, FirstPass(values)));
    SecondPassClose(values);
  }

  // ----------------------------------------------------------------- the history

  datatype Lap = Lap(time: real, fuel: real)

  // The lists, m_lastFuelValue and m_dataCountMax.
  datatype History = History(times: seq<real>, fuels: seq<real>, last: real, cap: nat)

  predicate Recorded(h: History, lapTime: real, fuelLevel: real) {
    fuelLevel >= 0.0 && lapTime > 0.0 && fuelLevel < h.last
  }

  function DropOldest(s: seq<real>, cap: nat): seq<real> { if cap > 0 && |s| > cap then s[1..] else s }

  /** AddLapData */
  function AddLap(h: History, lapTime: real, fuelLevel: real): History {
    if fuelLevel < 0.0 then h.(last := -1.0)
    else if lapTime <= 0.0 || fuelLevel >= h.last then h.(last := fuelLevel)
    else
      History(DropOldest(h.times, h.cap) + [lapTime], DropOldest(h.fuels, h.cap) + [h.last - fuelLevel],
              fuelLevel, h.cap)
  }

  // One call: AddLapData, or the setting of m_dataCountMax by an estimate.
  datatype Event = Add(time: real, fuelLevel: real) | SetCap(cap: nat)

  function StepHistory(h: History, e: Event): History {
    match e
    case Add(time, level) => AddLap(h, time, level)
    case SetCap(cap) => h.(cap := cap)
  }

  function RunHistory(h: History, events: seq<Event>): History
    decreases |events|
  {
    if events == [] then h else RunHistory(StepHistory(h, events[0]), events[1..])
  }

  /** The laps a run records. */
  function Accepted(h: History, events: seq<Event>): seq<Lap>
    decreases |events|
  {
    if events == [] then []
    else
      var e, rest := events[0], Accepted(StepHistory(h, events[0]), events[1..]);
      if e.Add? && Recorded(h, e.time, e.fuelLevel) then [Lap(e.time, h.last - e.fuelLevel)] + rest else rest
  }

  // -------------------------------------------------------- on the events alone

  /** The fuel level a call of AddLapData reports; a missing one counts as -1. */
  function Level(e: Event): real
    requires e.Add?
  {
    if e.fuelLevel < 0.0 then -1.0 else e.fuelLevel
  }

  /** The level of the last call, or what was stored before if there was none. */
  function LastLevel(before: real, events: seq<Event>): real {
    if events == [] then before
    else
      var n := |events| - 1; if events[n].Add? then Level(events[n]) else LastLevel(before, events[..n])
  }

  /** A lap ends at each call that has a lap time and a level, less than at the call before. */
  function LapsOf(before: real, events: seq<Event>): seq<Lap> {
    if events == [] then []
    else
      var n := |events| - 1;
      var e, level, laps := events[n], LastLevel(before, events[..n]), LapsOf(before, events[..n]);
      if e.Add? && e.time > 0.0 && 0.0 <= e.fuelLevel < level then laps + [Lap(e.time, level - e.fuelLevel)] else laps
  }

  lemma {:induction false} RunSnoc(h: History, events: seq<Event>, e: Event)
    ensures RunHistory(h, events + [e]) == StepHistory(RunHistory(h, events), e)
    ensures Accepted(h, events + [e]) == Accepted(h, events) + Accepted(RunHistory(h, events), [e])
    decreases |events|
  {
    if events == [] {
      assert events + [e] == [e] && [e][1..] == [] && [] + Accepted(h, [e]) == Accepted(h, [e]);
    } else {
      assert (events + [e])[1..] == events[1..] + [e];
      RunSnoc(StepHistory(h, events[0]), events[1..], e);
    }
  }

  /** The level stored is that of the last call, and the laps recorded are those the calls make up. */
  lemma {:induction false} RunIsOfEvents(h: History, events: seq<Event>)
    ensures RunHistory(h, events).last == LastLevel(h.last, events)
    ensures Accepted(h, events) == LapsOf(h.last, events)
    decreases |events|
  {
    if events != [] {
      var n := |events| - 1;
      assert events == events[..n] + [events[n]];
      RunIsOfEvents(h, events[..n]);
      RunSnoc(h, events[..n], events[n]);
      var h1 := RunHistory(h, events[..n]);
      assert Accepted(h1, [events[n]]) == if events[n].Add? && Recorded(h1, events[n].time, events[n].fuelLevel)
        then [Lap(events[n].time, h1.last - events[n].fuelLevel)] + [] else [];
    }
  }

  /**
    Of two calls in a row the second records a lap exactly when it has a lap time and a level below
    the first one's.
  */
  lemma RecordedExactly(h: History, events: seq<Event>, t1: real, level1: real, t2: real, level2: real)
    ensures Recorded(RunHistory(h, events + [Add(t1, level1)]), t2, level2)
      <==> t2 > 0.0 && 0.0 <= level2 < level1
  {
    var all := events + [Add(t1, level1)];
    assert all[|all| - 1] == Add(t1, level1);
    RunIsOfEvents(h, all);
  }

  function Times(laps: seq<Lap>): seq<real> { seq(|laps|, i requires 0 <= i < |laps| => laps[i].time) }

  function Fuels(laps: seq<Lap>): seq<real> { seq(|laps|, i requires 0 <= i < |laps| => laps[i].fuel) }

  function Sum(s: seq<real>): real
  {
    if s == [] then 0.0 else Sum(s[..|s| - 1]) + s[|s| - 1]
  }

  ghost predicate Suffix<T>(s: seq<T>, all: seq<T>) { |s| <= |all| && s == all[|all| - |s|..] }

  /** The lists hold the most recent of `laps`, pair by pair. */
  ghost predicate Latest(h: History, laps: seq<Lap>) {
    |h.times| == |h.fuels| && Suffix(h.times, Times(laps)) && Suffix(h.fuels, Fuels(laps))
  }

  predicate Sane(laps: seq<Lap>) { forall i :: 0 <= i < |laps| ==> laps[i].time > 0.0 && laps[i].fuel > 0.0 }

  lemma SuffixPush<T>(s: seq<T>, all: seq<T>, x: T, drop: bool)
    requires Suffix(s, all) && (drop ==> s != [])
    ensures Suffix((if drop then s[1..] else s) + [x], all + [x])
  {}

  lemma LatestStep(h: History, laps: seq<Lap>, lapTime: real, fuelLevel: real)
    requires Latest(h, laps) && Sane(laps) && Recorded(h, lapTime, fuelLevel)
    ensures Latest(AddLap(h, lapTime, fuelLevel), laps + [Lap(lapTime, h.last - fuelLevel)])
    ensures Sane(laps + [Lap(lapTime, h.last - fuelLevel)])
  {
    var lap := Lap(lapTime, h.last - fuelLevel);
    assert Times(laps + [lap]) == Times(laps) + [lap.time] && Fuels(laps + [lap]) == Fuels(laps) + [lap.fuel];
    hide Fuels, Times;
    var drop := h.cap > 0 && |h.times| > h.cap;
    SuffixPush(h.times, Times(laps), lap.time, drop);
    SuffixPush(h.fuels, Fuels(laps), lap.fuel, drop);
  }

  /** Over any run the two lists stay equally long and hold the most recent recorded laps, all positive. */
  lemma {:induction false} RunKeepsLatest(h: History, laps: seq<Lap>, events: seq<Event>)
    requires Latest(h, laps) && Sane(laps)
    ensures Latest(RunHistory(h, events), laps + Accepted(h, events)) && Sane(laps + Accepted(h, events))
    decreases |events|
  {
    if events == [] {
      assert laps + [] == laps;
    } else {
      var e := events[0];
      var rest := Accepted(StepHistory(h, e), events[1..]);
      if e.Add? && Recorded(h, e.time, e.fuelLevel) {
        var lap := Lap(e.time, h.last - e.fuelLevel);
        LatestStep(h, laps, e.time, e.fuelLevel);
        hide Latest, Sane, AddLap;
        RunKeepsLatest(StepHistory(h, e), laps + [lap], events[1..]);
        assert laps + [lap] + rest == laps + ([lap] + rest);
      } else {
        RunKeepsLatest(StepHistory(h, e), laps, events[1..]);
      }
    }
  }

  /** A new history, whatever happens to it, holds the latest of the laps its calls make up. */
  lemma HoldsLatestLaps(events: seq<Event>)
    ensures Latest(RunHistory(History([], [], -1.0, 0), events), LapsOf(-1.0, events))
  {
    var h := History([], [], -1.0, 0);
    RunKeepsLatest(h, [], events);
    RunIsOfEvents(h, events);
    assert [] + Accepted(h, events) == Accepted(h, events);
  }

  /** The exact length after a recorded lap: the oldest is dropped only from a list already longer than the cap. */
  lemma LengthAfterAdd(h: History, lapTime: real, fuelLevel: real)
    requires Recorded(h, lapTime, fuelLevel)
    ensures |AddLap(h, lapTime, fuelLevel).times| == if h.cap > 0 && |h.times| > h.cap then |h.times| else |h.times| + 1
  {}

  /** Under one cap the list never outgrows the cap by more than one, but a longer list is not cut back either. */
  lemma {:induction false} LengthBounded(h: History, events: seq<Event>)
    requires h.cap > 0 && forall i :: 0 <= i < |events| ==> events[i].Add?
    ensures var n := |RunHistory(h, events).times|; |h.times| <= n && (n <= |h.times| || n <= h.cap + 1)
    decreases |events|
  {
    if events != [] { LengthBounded(StepHistory(h, events[0]), events[1..]); }
  }

  // The fuel level at the last rebase (a refuelling, a lap without a time, a missing level)
  // and the laps recorded since.
  datatype Ledger = Ledger(base: real, since: seq<Lap>)

  function StepLedger(h: History, l: Ledger, e: Event): Ledger {
    if e.SetCap? then l
    else if Recorded(h, e.time, e.fuelLevel) then l.(since := l.since + [Lap(e.time, h.last - e.fuelLevel)])
    else Ledger(Level(e), [])
  }

  function RunLedger(h: History, l: Ledger, events: seq<Event>): Ledger
    decreases |events|
  {
    if events == [] then l else RunLedger(StepHistory(h, events[0]), StepLedger(h, l, events[0]), events[1..])
  }

  /** Over any run, the fuel recorded since the last rebase is exactly the fuel burnt since then. */
  lemma {:induction false} FuelConserved(h: History, l: Ledger, events: seq<Event>)
    requires Sum(Fuels(l.since)) == l.base - h.last
    ensures Sum(Fuels(RunLedger(h, l, events).since)) == RunLedger(h, l, events).base - RunHistory(h, events).last
    decreases |events|
  {
    if events != [] {
      var l1 := StepLedger(h, l, events[0]);
      if events[0].Add? && Recorded(h, events[0].time, events[0].fuelLevel) {
        var lap := Lap(events[0].time, h.last - events[0].fuelLevel);
        assert Fuels(l1.since) == Fuels(l.since) + [lap.fuel];
        assert Fuels(l1.since)[..|l.since|] == Fuels(l.since);
      }
      FuelConserved(StepHistory(h, events[0]), l1, events[1..]);
    }
  }

  /** What the ledger holds are the most recent recorded laps. */
  lemma {:induction false} LedgerIsLatest(h: History, l: Ledger, laps: seq<Lap>, events: seq<Event>)
    requires Suffix(l.since, laps)
    ensures Suffix(RunLedger(h, l, events).since, laps + Accepted(h, events))
    decreases |events|
  {
    if events == [] {
      assert laps + [] == laps;
    } else {
      var e, rest := events[0], Accepted(StepHistory(h, events[0]), events[1..]);
      if e.Add? && Recorded(h, e.time, e.fuelLevel) {
        var lap := Lap(e.time, h.last - e.fuelLevel);
        LedgerIsLatest(StepHistory(h, e), StepLedger(h, l, e), laps + [lap], events[1..]);
        assert laps + [lap] + rest == laps + ([lap] + rest);
      } else {
        LedgerIsLatest(StepHistory(h, e), StepLedger(h, l, e), laps, events[1..]);
      }
    }
  }

  // ------------------------------------------------------------------- the file

  // A line of the data file: the separator, an empty line, or a number.
  datatype Line = Separator | Blank | Number(value: real)

  // What a value printed with the stream's default format (six digits) reads back as.
  type Shown = real -> real

  function Printed(s: seq<real>, shown: Shown): seq<real> { seq(|s|, i requires 0 <= i < |s| => shown(s[i])) }

  function Written(s: seq<real>, shown: Shown): seq<Line> {
    seq(|s|, i requires 0 <= i < |s| => Number(shown(s[i])))
  }

  /** SaveSessionData, once the lists are not empty. */
  function Saved(times: seq<real>, fuels: seq<real>, shown: Shown): seq<Line> {
    Written(times, shown) + [Separator] + Written(fuels, shown)
  }

  function Atof(line: Line): real { if line.Number? then line.value else 0.0 }

  /** The times a load adds: the lines before the separator. */
  function TimesIn(lines: seq<Line>): seq<real> {
    if lines == [] || lines[0].Separator? then []
    else (if lines[0].Blank? then [] else [Atof(lines[0])]) + TimesIn(lines[1..])
  }

  function Values(lines: seq<Line>): seq<real> {
    if lines == [] then [] else (if lines[0].Blank? then [] else [Atof(lines[0])]) + Values(lines[1..])
  }

  /** The fuels it adds: everything behind the separator. */
  function FuelsIn(lines: seq<Line>): seq<real> {
    if lines == [] then [] else if lines[0].Separator? then Values(lines[1..]) else FuelsIn(lines[1..])
  }

  lemma {:induction false} ValuesWritten(s: seq<real>, shown: Shown)
    ensures Values(Written(s, shown)) == Printed(s, shown)
  {
    if s != [] {
      ValuesWritten(s[1..], shown);
      assert Written(s, shown)[1..] == Written(s[1..], shown);
      assert Printed(s, shown) == [shown(s[0])] + Printed(s[1..], shown);
    }
  }

  /** Loading what was saved gives both lists as they were printed. */
  lemma {:induction false} LoadSaved(times: seq<real>, fuels: seq<real>, shown: Shown)
    ensures var lines := Saved(times, fuels, shown);
      TimesIn(lines) == Printed(times, shown) && FuelsIn(lines) == Printed(fuels, shown)
    decreases |times|
  {
    if times == [] {
      ValuesWritten(fuels, shown);
      assert Saved(times, fuels, shown)[1..] == Written(fuels, shown);
    } else {
      LoadSaved(times[1..], fuels, shown);
      assert Saved(times, fuels, shown)[1..] == Saved(times[1..], fuels, shown);
      assert Printed(times, shown) == [shown(times[0])] + Printed(times[1..], shown);
    }
  }

  /** It gives both lists back exactly when every value survives being printed. */
  lemma LoadSavedExactly(times: seq<real>, fuels: seq<real>, shown: Shown)
    ensures var lines := Saved(times, fuels, shown);
      TimesIn(lines) == times && FuelsIn(lines) == fuels
      <==> (forall x :: x in times || x in fuels ==> shown(x) == x)
  {
    LoadSaved(times, fuels, shown);
    PrintedExactly(times, shown);
    PrintedExactly(fuels, shown);
  }

  lemma PrintedExactly(s: seq<real>, shown: Shown)
    ensures Printed(s, shown) == s <==> forall x :: x in s ==> shown(x) == x
  {
    if Printed(s, shown) == s {
      forall x | x in s ensures shown(x) == x {
        var i :| 0 <= i < |s| && s[i] == x;
        assert Printed(s, shown)[i] == s[i];
      }
    }
    if forall x :: x in s ==> shown(x) == x {
      forall i | 0 <= i < |s| ensures Printed(s, shown)[i] == s[i] { assert s[i] in s; }
    }
  }

  lemma NothingToEstimate()
    ensures SecondPass([]) == Stats(0.0, 0.0)
  {}

  lemma Scaled(a: real, q: real, k: real, x: real)
    requires k > 0.0 && q * k == x
    ensures a <= q <==> a * k <= x
  {
    assert (q - a) * k == x - a * k;
  }

  /** The cap an estimate sets is the number of whole laps a tank lasts for. */
  lemma LapsInTank(maxFuel: real, lapFuel: real, n: int)
    requires lapFuel > 0.0
    ensures n == (maxFuel / lapFuel).Floor
      <==> n as real * lapFuel <= maxFuel && !((n + 1) as real * lapFuel <= maxFuel)
  {
    var q := maxFuel / lapFuel;
    Scaled(n as real, q, lapFuel, maxFuel);
    Scaled((n + 1) as real, q, lapFuel, maxFuel);
  }

  // ------------------------------------------------------------------- the class

  class LapFuelData {
    var dataLapTimeList: seq<real>
    var dataLapFuelList: seq<real>
    var lastFuelValue: real
    var dataCountMax: nat

    ghost function View(): History
      reads this
    {
      History(dataLapTimeList, dataLapFuelList, lastFuelValue, dataCountMax)
    }

    constructor ()
      ensures View() == History([], [], -1.0, 0)
    {
      dataLapTimeList, dataLapFuelList, lastFuelValue, dataCountMax := [], [], -1.0, 0;
    }

    /** Whether values were added to the lists. */
    method AddLapData(lapLastLapTime: real, fuelLevel: real) returns (added: bool)
      modifies this
      ensures View() == AddLap(old(View()), lapLastLapTime, fuelLevel)
      ensures added == Recorded(old(View()), lapLastLapTime, fuelLevel)
    {
      if fuelLevel < 0.0 {
        lastFuelValue := -1.0;
        return false;
      }
      if lapLastLapTime <= 0.0 {
        lastFuelValue := fuelLevel;
        return false;
      }
      if fuelLevel >= lastFuelValue {
        lastFuelValue := fuelLevel;
        return false;
      }
      var lastLapFuel := lastFuelValue - fuelLevel;
      lastFuelValue := fuelLevel;
      if dataCountMax > 0 {
        if |dataLapTimeList| > dataCountMax { dataLapTimeList := dataLapTimeList[1..]; }
        if |dataLapFuelList| > dataCountMax { dataLapFuelList := dataLapFuelList[1..]; }
      }
      dataLapTimeList := dataLapTimeList + [lapLastLapTime];
      dataLapFuelList := dataLapFuelList + [lastLapFuel];
      return true;
    }

    method FilterOutliers(values: seq<real>, low: real, high: real) returns (temp: seq<real>)
      ensures temp == Kept(values, low, high)
    {
      temp := [];
      var i := 0;
      while i < |values|
        invariant i <= |values| && Kept(values, low, high) == temp + Kept(values[i..], low, high)
      {
        assert values[i..][1..] == values[i + 1..];
        if values[i] >= low && values[i] <= high { temp := temp + [values[i]]; }
        i := i + 1;
      }
    }

    method MiddleOf(t: seq<real>) returns (value: real)
      requires t != []
      ensures value == Middle(t)
    {
      var numValues := |t|;
      var middleIndex := numValues / 2;
      value := t[middleIndex];
      if numValues % 2 == 0 {
        value := value + t[middleIndex - 1];
        value := value / 2.0;
      }
    }

    /** The deviations replace the values one by one. */
    method Deviate(values: seq<real>, median: real) returns (temp: seq<real>)
      ensures temp == Deviations(values, median)
    {
      temp := values;
      var index := 0;
      while index < |values|
        invariant index <= |values| == |temp|
        invariant forall i :: 0 <= i < index ==> temp[i] == Abs(median - values[i])
        invariant forall i :: index <= i < |values| ==> temp[i] == values[i]
      {
        temp := temp[index := Abs(median - temp[index])];
        index := index + 1;
      }
    }

    /** calcMedian: the median and the deviation of the values, the prior ones deciding what is an outlier. */
    method CalcMedian(values: seq<real>, excludeOutliers: bool, prior: Stats) returns (result: Stats)
      ensures result == StatsOf(Considered(values, excludeOutliers, prior))
    {
      hide Kept, Sort, Middle, Deviations;
      result := Stats(0.0, 0.0);
      if |values| > 0 {
        var temp := values;
        if excludeOutliers && prior.median > 0.0 && prior.mad > 0.0 {
          temp := FilterOutliers(values, prior.median - prior.mad * 3.0, prior.median + prior.mad * 3.0);
        }
        if |temp| > 0 {
          var sorted := Sort(temp);
          var median := MiddleOf(sorted);
          var deviations := Deviate(sorted, median);
          deviations := Sort(deviations);
          var mad := MiddleOf(deviations);
          result := Stats(median, mad);
        }
      }
    }

    method CalcMedianValues() returns (time: Stats, fuel: Stats)
      ensures time == SecondPass(dataLapTimeList) && fuel == SecondPass(dataLapFuelList)
    {
      time := CalcMedian(dataLapTimeList, false, Stats(0.0, 0.0));
      time := CalcMedian(dataLapTimeList, true, time);
      fuel := CalcMedian(dataLapFuelList, false, Stats(0.0, 0.0));
      fuel := CalcMedian(dataLapFuelList, true, fuel);
    }

    /** The estimate errs on the safe side: a lap no slower and fuel no lower than the median. */
    method CalcOptimalLapTimeFuelValues(maxFuel: real) returns (lapTime: real, lapFuel: real)
      modifies this`dataCountMax
      ensures var s := SecondPass(dataLapTimeList);
        dataLapTimeList != [] && Positive(dataLapTimeList) ==> 0.0 < lapTime == s.median - s.mad <= s.median
      ensures var s := SecondPass(dataLapFuelList);
        dataLapFuelList != [] && Positive(dataLapFuelList) ==> 0.0 < s.median <= lapFuel == s.median + s.mad
      ensures (dataLapTimeList == [] ==> lapTime == 0.0) && (dataLapFuelList == [] ==> lapFuel == 0.0)
      ensures maxFuel > 0.0 && lapFuel > 0.0 ==> dataCountMax >= DATA_COUNT_MIN
      ensures maxFuel > 0.0 && lapFuel > 0.0 && dataCountMax > DATA_COUNT_MIN
        ==> dataCountMax == (maxFuel / lapFuel).Floor
      ensures maxFuel <= 0.0 || lapFuel <= 0.0 ==> dataCountMax == old(dataCountMax)
    {
      NothingToEstimate();
      hide SecondPass, Positive, FirstPass, Considered;
      lapTime, lapFuel := 0.0, 0.0;
      var time, fuel := CalcMedianValues();
      if dataLapTimeList != [] && Positive(dataLapTimeList) { TwoPassesSound(dataLapTimeList); }
      if dataLapFuelList != [] && Positive(dataLapFuelList) { TwoPassesSound(dataLapFuelList); }
      if time.median > 0.0 {
        lapTime := time.median - (if time.mad < 0.0 then 0.0 else time.mad);
      }
      if fuel.median > 0.0 {
        lapFuel := fuel.median + (if fuel.mad < 0.0 then 0.0 else fuel.mad);
      }
      if maxFuel > 0.0 && lapFuel > 0.0 {
        var dataCount := maxFuel / lapFuel;
        if dataCount > DATA_COUNT_MIN as real {
          dataCountMax := dataCount.Floor;
        } else {
          dataCountMax := DATA_COUNT_MIN;
        }
      }
    }

    /** LoadSessionData from the lines of the file. */
    method LoadSessionData(lines: seq<Line>)
      modifies this`dataLapTimeList, this`dataLapFuelList
      ensures dataLapTimeList == old(dataLapTimeList) + TimesIn(lines)
      ensures dataLapFuelList == old(dataLapFuelList) + FuelsIn(lines)
    {
      var i := 0;
      while i < |lines|
        invariant i <= |lines| && FuelsIn(lines) == FuelsIn(lines[i..])
        invariant dataLapTimeList + TimesIn(lines[i..]) == old(dataLapTimeList) + TimesIn(lines)
        invariant dataLapFuelList == old(dataLapFuelList)
      {
        assert lines[i..][1..] == lines[i + 1..];
        i := i + 1;
        if lines[i - 1].Separator? { break; }
        if !lines[i - 1].Blank? { dataLapTimeList := dataLapTimeList + [Atof(lines[i - 1])]; }
      }
      LoadFuels(lines, i);
    }

    method LoadFuels(lines: seq<Line>, start: nat)
      requires start <= |lines|
      modifies this`dataLapFuelList
      ensures dataLapFuelList == old(dataLapFuelList) + Values(lines[start..])
    {
      var i := start;
      while i < |lines|
        invariant start <= i <= |lines|
        invariant dataLapFuelList + Values(lines[i..]) == old(dataLapFuelList) + Values(lines[start..])
      {
        assert lines[i..][1..] == lines[i + 1..];
        if !lines[i].Blank? { dataLapFuelList := dataLapFuelList + [Atof(lines[i])]; }
        i := i + 1;
      }
    }
  }
}
