/**
  The descriptor tables of libwebsockets (pollfd.c): the packed array handed to poll, the
  lookup from socket to connection, and each connection's position in the packed array,
  kept in step by insertion and swap-removal.
*/
module PollFds {

  // A poll event mask, as the set of its bits.
  datatype Flag = In | Out | Hup
  type Events = set<Flag>
  const POLLIN: Events := {In}
  const POLLOUT: Events := {Out}

  datatype PollFd = PollFd(fd: int, events: Events)

  class Wsi {
    const sock: int
    const protocol: nat
    var positionInFdsTable: int

    constructor (sock: int, protocol: nat)
      ensures this.sock == sock && this.protocol == protocol && positionInFdsTable == -1
    {
      this.sock, this.protocol, positionInFdsTable := sock, protocol, -1;
    }
  }

  // ----------------------------------------------------------- tables as values

  // fds[..fds_count], lws_lookup, and position_in_fds_table of every live connection.
  datatype Tables = Tables(fds: seq<PollFd>, lookup: seq<Wsi?>, pos: map<Wsi, int>)

  // What the tables stand for: the connection of a live socket and what it waits for.
  datatype Entry = Entry(wsi: Wsi, events: Events)

  ghost predicate Placed(t: Tables, w: Wsi)
    requires w in t.pos
  {
    0 <= w.sock < |t.lookup| && t.lookup[w.sock] == w && 0 <= t.pos[w] < |t.fds| && t.fds[t.pos[w]].fd == w.sock
  }

  ghost predicate Owned(t: Tables, i: int)
    requires 0 <= i < |t.fds|
  {
    var fd := t.fds[i].fd;
    0 <= fd < |t.lookup| && t.lookup[fd] != null && t.lookup[fd] in t.pos && t.pos[t.lookup[fd]] == i
  }

  /** The lookup and the positions are mutual inverses on the live slots. */
  ghost predicate InOrder(t: Tables) {
    && (forall w :: w in t.pos ==> Placed(t, w))
    && (forall s :: 0 <= s < |t.lookup| && t.lookup[s] != null ==> t.lookup[s] in t.pos && t.lookup[s].sock == s)
    && (forall i :: 0 <= i < |t.fds| ==> Owned(t, i))
  }

  ghost function EventsOf(t: Tables, w: Wsi): Events
    requires w in t.pos && 0 <= t.pos[w] < |t.fds|
  {
    t.fds[t.pos[w]].events
  }

  ghost predicate Live(t: Tables, s: int) { 0 <= s < |t.lookup| && t.lookup[s] != null }

  /** The simple map the tables refine. */
  ghost function Map(t: Tables): map<int, Entry>
    requires InOrder(t)
  {
    map s | 0 <= s < |t.lookup| && Live(t, s) :: EntryOf(t, s)
  }

  ghost function EntryOf(t: Tables, s: int): Entry
    requires InOrder(t) && Live(t, s)
  {
    assert Placed(t, t.lookup[s]);
    Entry(t.lookup[s], EventsOf(t, t.lookup[s]))
  }

  ghost function Insert(t: Tables, w: Wsi): Tables
    requires 0 <= w.sock < |t.lookup|
  {
    Tables(t.fds + [PollFd(w.sock, POLLIN)], t.lookup[w.sock := w], t.pos[w := |t.fds|])
  }

  lemma InsertKeeps(t: Tables, w: Wsi)
    requires InOrder(t) && 0 <= w.sock < |t.lookup| && w !in t.pos && t.lookup[w.sock] == null
    ensures InOrder(Insert(t, w)) && Map(Insert(t, w)) == Map(t)[w.sock := Entry(w, POLLIN)]
  {
    var t1 := Insert(t, w);
    forall v | v in t1.pos ensures Placed(t1, v) { if v != w { assert Placed(t, v); } }
    forall i | 0 <= i < |t1.fds| ensures Owned(t1, i) { if i < |t.fds| { assert Owned(t, i); } }
    forall s | Live(t1, s) ensures EntryOf(t1, s) == Map(t)[w.sock := Entry(w, POLLIN)][s] {
      if s != w.sock { assert Live(t, s) && Placed(t, t.lookup[s]); }
    }
    assert forall s :: Live(t1, s) <==> Live(t, s) || s == w.sock;
  }

  /** The last descriptor takes the vacant slot. */
  ghost function Remove(t: Tables, w: Wsi): Tables
    requires InOrder(t) && w in t.pos
  {
    assert Placed(t, w);
    var last, m := |t.fds| - 1, t.pos[w];
    assert Owned(t, last);
    Tables(t.fds[m := t.fds[last]][..last], t.lookup[w.sock := null], t.pos[t.lookup[t.fds[last].fd] := m] - {w})
  }

  lemma RemoveInOrder(t: Tables, w: Wsi)
    requires InOrder(t) && w in t.pos
    ensures InOrder(Remove(t, w))
  {
    assert Placed(t, w);
    var t1, last := Remove(t, w), |t.fds| - 1;
    assert Owned(t, last);
    assert Placed(t, t.lookup[t.fds[last].fd]);
    forall v | v in t1.pos ensures Placed(t1, v) {
      assert Placed(t, v);
      assert Owned(t, t.pos[v]);
    }
    forall i | 0 <= i < |t1.fds| ensures Owned(t1, i) {
      assert Owned(t, i);
      if i == t.pos[w] { assert t1.fds[i] == t.fds[last]; } else { assert t1.fds[i] == t.fds[i]; }
    }
  }

  /** Removal forgets exactly one socket: the event mask of the moved descriptor moves with it. */
  lemma RemoveKeeps(t: Tables, w: Wsi)
    requires InOrder(t) && w in t.pos
    ensures InOrder(Remove(t, w)) && Map(Remove(t, w)) == Map(t) - {w.sock}
  {
    RemoveInOrder(t, w);
    assert Placed(t, w);
    var t1, last := Remove(t, w), |t.fds| - 1;
    assert Owned(t, last);
    forall s | Live(t1, s) ensures Live(t, s) && EntryOf(t1, s) == EntryOf(t, s) { RemoveEntry(t, w, s); }
    assert forall s :: Live(t1, s) <==> Live(t, s) && s != w.sock;
  }

  /** What the removal code finds in the tables. */
  lemma RemoveSlots(t: Tables, w: Wsi)
    requires InOrder(t) && w in t.pos
    ensures 0 <= w.sock < |t.lookup| && 0 <= t.pos[w] < |t.fds| && 0 <= t.fds[|t.fds| - 1].fd < |t.lookup|
    ensures t.lookup[t.fds[|t.fds| - 1].fd] != null && t.lookup[t.fds[|t.fds| - 1].fd] in t.pos
    ensures InOrder(Remove(t, w)) && Map(Remove(t, w)) == Map(t) - {w.sock}
  {
    assert Placed(t, w) && Owned(t, |t.fds| - 1);
    RemoveKeeps(t, w);
  }

  lemma RemoveEntry(t: Tables, w: Wsi, s: int)
    requires InOrder(t) && w in t.pos && InOrder(Remove(t, w)) && Live(Remove(t, w), s)
    ensures Live(t, s) && EntryOf(Remove(t, w), s) == EntryOf(t, s)
  {
    var t1, last := Remove(t, w), |t.fds| - 1;
    assert Placed(t, w) && Owned(t, last);
    var v := t.lookup[s];
    assert Placed(t, v) && Placed(t1, v);
    assert Owned(t, t.pos[v]);
    if t.pos[v] == last { assert t1.pos[v] == t.pos[w]; } else { assert t1.pos[v] == t.pos[v]; }
  }

  function Changed(events: Events, clear: Events, raise: Events): Events { (events - clear) + raise }

  /** An event is waited for exactly if it is set now, or was before and is not cleared. */
  lemma ChangedExactly(events: Events, clear: Events, raise: Events)
    ensures forall e :: e in Changed(events, clear, raise) <==> e in raise || (e in events && e !in clear)
  {}

  ghost function Change(t: Tables, w: Wsi, events: Events): Tables
    requires w in t.pos && 0 <= t.pos[w] < |t.fds|
  {
    t.(fds := t.fds[t.pos[w] := t.fds[t.pos[w]].(events := events)])
  }

  /** Changing one event mask disturbs no other. */
  lemma ChangeKeeps(t: Tables, w: Wsi, events: Events)
    requires InOrder(t) && w in t.pos
    ensures Placed(t, w) && InOrder(Change(t, w, events))
      && Map(Change(t, w, events)) == Map(t)[w.sock := Entry(w, events)]
  {
    assert Placed(t, w);
    var t1 := Change(t, w, events);
    forall v | v in t1.pos ensures Placed(t1, v) { assert Placed(t, v); }
    forall i | 0 <= i < |t1.fds| ensures Owned(t1, i) { assert Owned(t, i); }
    forall s | Live(t1, s) ensures EntryOf(t1, s) == Map(t)[w.sock := Entry(w, events)][s] {
      assert Live(t, s) && Placed(t, t.lookup[s]);
    }
    assert forall s :: Live(t1, s) <==> Live(t, s);
  }

  /** As many descriptors as live connections. */
  lemma {:induction false} CountsMatch(t: Tables)
    requires InOrder(t)
    ensures |t.fds| == |t.pos|
    decreases |t.fds|
  {
    forall w | w in t.pos ensures t.fds != [] { assert Placed(t, w); }
    if t.fds == [] {
      assert t.pos == map[];
    } else {
      assert Owned(t, |t.fds| - 1);
      var w := t.lookup[t.fds[|t.fds| - 1].fd];
      RemoveKeeps(t, w);
      CountsMatch(Remove(t, w));
      assert Remove(t, w).pos.Keys == t.pos.Keys - {w};
    }
  }

  /** One event mask with bits cleared and set. */
  ghost function Rearmed(table: map<int, Entry>, s: int, clear: Events, raise: Events): map<int, Entry> {
    if s in table then table[s := table[s].(events := Changed(table[s].events, clear, raise))] else table
  }

  /** Every connection of the protocol waits for output too. */
  ghost function Awaiting(table: map<int, Entry>, protocol: nat): map<int, Entry> {
    map s | s in table :: Asked(table[s], protocol)
  }

  ghost function Asked(e: Entry, protocol: nat): Entry {
    if e.wsi.protocol == protocol then e.(events := Changed(e.events, {}, POLLOUT)) else e
  }

  /** The same when only the first n descriptors have been asked. */
  ghost function AskedBelow(t: Tables, n: nat, protocol: nat): map<int, Entry>
    requires InOrder(t)
  {
    map s | s in Map(t) :: if SlotOf(t, s) < n then Asked(Map(t)[s], protocol) else Map(t)[s]
  }

  ghost function SlotOf(t: Tables, s: int): int
    requires InOrder(t) && s in Map(t)
  {
    t.pos[t.lookup[s]]
  }

  lemma AskStep(t: Tables, n: nat, protocol: nat)
    requires InOrder(t) && n < |t.fds|
    ensures Owned(t, n)
    ensures var w := t.lookup[t.fds[n].fd];
      AskedBelow(t, n + 1, protocol)
        == if w.protocol == protocol then Rearmed(AskedBelow(t, n, protocol), w.sock, {}, POLLOUT)
           else AskedBelow(t, n, protocol)
  {
    assert Owned(t, n);
    var w := t.lookup[t.fds[n].fd];
    assert Placed(t, w) && Live(t, w.sock);
    forall s | s in Map(t) ensures Map(t)[s].wsi == t.lookup[s] && (SlotOf(t, s) == n <==> s == w.sock) {
      assert Placed(t, t.lookup[s]);
    }
  }

  lemma AskAll(t: Tables, protocol: nat)
    requires InOrder(t)
    ensures AskedBelow(t, 0, protocol) == Map(t) && AskedBelow(t, |t.fds|, protocol) == Awaiting(Map(t), protocol)
  {
    forall s | s in Map(t) ensures 0 <= SlotOf(t, s) < |t.fds| { assert Placed(t, t.lookup[s]); }
  }

  // ------------------------------------------------------------------ whole runs

  datatype Op =
    | Inserting(w: Wsi)
    | Removing(w: Wsi)
    | Changing(w: Wsi, clear: Events, raise: Events)
    | AskingAll(protocol: nat)

  /** What callers may do, seen on the map: insert a socket that is not live, and not remove the last one. */
  ghost predicate Legal(table: map<int, Entry>, op: Op) {
    match op
    case Inserting(w) => 0 <= w.sock && w.sock !in table
    case Removing(w) => w.sock in table && table[w.sock].wsi == w && |table| > 1
    case Changing(w, _, _) => w.sock in table && table[w.sock].wsi == w
    case AskingAll(_) => true
  }

  /**
    The operations on the simple map; an insertion is refused when maxFds sockets are live or the
    number is too high.
  */
  ghost function MapStep(table: map<int, Entry>, op: Op, maxFds: nat): map<int, Entry> {
    match op
    case Inserting(w) => if |table| >= maxFds || w.sock >= maxFds then table else table[w.sock := Entry(w, POLLIN)]
    case Removing(w) => table - {w.sock}
    case Changing(w, clear, raise) => Rearmed(table, w.sock, clear, raise)
    case AskingAll(protocol) => Awaiting(table, protocol)
  }

  /** The operations on the tables. */
  ghost function TableStep(t: Tables, op: Op): Tables
    requires InOrder(t) && Legal(Map(t), op)
  {
    LiveIsPlaced(t);
    match op
    case Inserting(w) => if |t.fds| >= |t.lookup| || w.sock >= |t.lookup| then t else Insert(t, w)
    case Removing(w) => Remove(t, w)
    case Changing(w, clear, raise) => Change(t, w, Changed(EventsOf(t, w), clear, raise))
    case AskingAll(protocol) => AskTables(t, protocol)
  }

  ghost function AskTables(t: Tables, protocol: nat): Tables
    requires InOrder(t)
  {
    t.(fds := seq(|t.fds|, i requires 0 <= i < |t.fds| => AskedFd(t, i, protocol)))
  }

  ghost function AskedFd(t: Tables, i: nat, protocol: nat): PollFd
    requires InOrder(t) && i < |t.fds|
  {
    assert Owned(t, i);
    if t.lookup[t.fds[i].fd].protocol == protocol then t.fds[i].(events := Changed(t.fds[i].events, {}, POLLOUT))
    else t.fds[i]
  }

  /** A socket of the map is a connection with a position. */
  lemma LiveIsPlaced(t: Tables)
    requires InOrder(t)
    ensures forall s :: s in Map(t) ==> Map(t)[s].wsi in t.pos && Map(t)[s].wsi.sock == s && Placed(t, Map(t)[s].wsi)
    ensures forall s :: 0 <= s < |t.lookup| && s !in Map(t) ==> t.lookup[s] == null
    ensures forall w :: w in t.pos ==> w.sock in Map(t) && Map(t)[w.sock] == Entry(w, EventsOf(t, w))
  {
    forall w | w in t.pos ensures w.sock in Map(t) && Map(t)[w.sock] == Entry(w, EventsOf(t, w)) {
      assert Placed(t, w) && Live(t, w.sock);
    }
  }

  /** As many live sockets as descriptors. */
  lemma {:induction false} MapCounts(t: Tables)
    requires InOrder(t)
    ensures |Map(t)| == |t.fds|
    decreases |t.fds|
  {
    LiveIsPlaced(t);
    if t.fds == [] {
      assert Map(t) == map[];
    } else {
      assert Owned(t, |t.fds| - 1);
      var w := t.lookup[t.fds[|t.fds| - 1].fd];
      RemoveKeeps(t, w);
      MapCounts(Remove(t, w));
      assert Map(t).Keys == Map(Remove(t, w)).Keys + {w.sock};
    }
  }

  lemma AskAllKeeps(t: Tables, protocol: nat)
    requires InOrder(t)
    ensures InOrder(AskTables(t, protocol))
      && Map(AskTables(t, protocol)) == Awaiting(Map(t), protocol)
  {
    var t1 := AskTables(t, protocol);
    forall i | 0 <= i < |t1.fds| ensures t1.fds[i].fd == t.fds[i].fd { assert Owned(t, i); }
    forall v | v in t1.pos ensures Placed(t1, v) { assert Placed(t, v); }
    forall i | 0 <= i < |t1.fds| ensures Owned(t1, i) { assert Owned(t, i); }
    forall s | Live(t1, s) ensures EntryOf(t1, s) == Asked(EntryOf(t, s), protocol) {
      assert Live(t, s) && Placed(t, t.lookup[s]) && Owned(t, t.pos[t.lookup[s]]);
    }
  }

  lemma TableStepKeeps(t: Tables, op: Op)
    requires InOrder(t) && Legal(Map(t), op)
    ensures InOrder(TableStep(t, op)) && |TableStep(t, op).lookup| == |t.lookup|
    ensures Map(TableStep(t, op)) == MapStep(Map(t), op, |t.lookup|)
  {
    LiveIsPlaced(t);
    match op {
      case Inserting(w) =>
        MapCounts(t);
        if |t.fds| < |t.lookup| && w.sock < |t.lookup| { InsertKeeps(t, w); }
      case Removing(w) => RemoveKeeps(t, w);
      case Changing(w, clear, raise) => ChangeKeeps(t, w, Changed(EventsOf(t, w), clear, raise));
      case AskingAll(protocol) => AskAllKeeps(t, protocol);
    }
  }

  ghost predicate LegalRun(table: map<int, Entry>, ops: seq<Op>, maxFds: nat)
    decreases |ops|
  {
    ops == [] || (Legal(table, ops[0]) && LegalRun(MapStep(table, ops[0], maxFds), ops[1..], maxFds))
  }

  ghost function MapRun(table: map<int, Entry>, ops: seq<Op>, maxFds: nat): map<int, Entry>
    decreases |ops|
  {
    if ops == [] then table else MapRun(MapStep(table, ops[0], maxFds), ops[1..], maxFds)
  }

  ghost function TableRun(t: Tables, ops: seq<Op>): (r: Tables)
    requires InOrder(t) && LegalRun(Map(t), ops, |t.lookup|)
    decreases |ops|
  {
    if ops == [] then t
    else
      TableStepKeeps(t, ops[0]);
      TableRun(TableStep(t, ops[0]), ops[1..])
  }

  /**
    After any run of insertions, removals and changes of event masks the lookup and the
    positions are mutual inverses, and the tables stand for the map the same run makes.
  */
  lemma {:induction false} RunRefines(t: Tables, ops: seq<Op>)
    requires InOrder(t) && LegalRun(Map(t), ops, |t.lookup|)
    ensures InOrder(TableRun(t, ops)) && Map(TableRun(t, ops)) == MapRun(Map(t), ops, |t.lookup|)
    decreases |ops|
  {
    hide InOrder, Map, Legal, MapStep, TableStep;
    if ops != [] {
      TableStepKeeps(t, ops[0]);
      RunRefines(TableStep(t, ops[0]), ops[1..]);
    }
  }

  ghost function EmptyTables(maxFds: nat): Tables { Tables([], seq(maxFds, _ => null), map[]) }

  /** From the empty tables. */
  lemma RunFromEmpty(ops: seq<Op>, maxFds: nat)
    requires LegalRun(map[], ops, maxFds)
    ensures InOrder(EmptyTables(maxFds)) && Map(EmptyTables(maxFds)) == map[]
    ensures var t := TableRun(EmptyTables(maxFds), ops);
      InOrder(t) && Map(t) == MapRun(map[], ops, maxFds) && |t.fds| == |MapRun(map[], ops, maxFds)|
  {
    var t := EmptyTables(maxFds);
    assert Map(t) == map[];
    RunRefines(t, ops);
    MapCounts(TableRun(t, ops));
  }

  // ---------------------------------------------------------------- the functions

  class Context {
    const maxFds: nat
    const fds: array<PollFd>
    const lwsLookup: array<Wsi?>
    var fdsCount: nat
    ghost var pos: map<Wsi, int>   // position_in_fds_table of the live connections

    ghost predicate Sized()
      reads this
    {
      fds.Length == maxFds && lwsLookup.Length == maxFds && fdsCount <= maxFds
    }

    ghost function View(): Tables
      requires Sized()
      reads this, fds, lwsLookup
    {
      Tables(fds[..fdsCount], lwsLookup[..], pos)
    }

    ghost predicate Linked()
      reads this, pos.Keys
    {
      forall w :: w in pos ==> w.positionInFdsTable == pos[w]
    }

    ghost predicate Valid()
      reads this, fds, lwsLookup, pos.Keys
    {
      Sized() && Linked() && InOrder(View())
    }

    constructor (maxFds: nat)
      ensures Valid() && this.maxFds == maxFds && pos == map[] && Map(View()) == map[] && fresh(fds) && fresh(lwsLookup)
    {
      this.maxFds := maxFds;
      fds := new PollFd[maxFds](_ => PollFd(-1, {}));
      lwsLookup := new Wsi?[maxFds](_ => null);
      fdsCount, pos := 0, map[];
    }

    /** insert_wsi_socket_into_fds: a new connection waits for input. */
    method InsertSocket(wsi: Wsi) returns (ret: int)
      requires Valid() && wsi.sock >= 0 && wsi !in pos && (wsi.sock < maxFds ==> lwsLookup[wsi.sock] == null)
      modifies this`fdsCount, this`pos, fds, lwsLookup, wsi`positionInFdsTable
      ensures Valid() && (ret == 0 || ret == 1)
      ensures ret == 1 <==> old(fdsCount) >= maxFds || wsi.sock >= maxFds
      ensures ret == 1 ==> View() == old(View())
      ensures ret == 0 ==>
        pos.Keys == old(pos.Keys) + {wsi} && Map(View()) == old(Map(View()))[wsi.sock := Entry(wsi, POLLIN)]
    {
      if fdsCount >= maxFds { return 1; }
      if wsi.sock >= maxFds { return 1; }
      ghost var t := View();
      InsertKeeps(t, wsi);
      hide InOrder, Map;
      lwsLookup[wsi.sock] := wsi;
      wsi.positionInFdsTable := fdsCount;
      fds[fdsCount] := PollFd(wsi.sock, POLLIN);
      fdsCount := fdsCount + 1;
      pos := pos[wsi := fdsCount - 1];
      assert View() == Insert(t, wsi);
      return 0;
    }

    /** remove_wsi_socket_from_fds while other descriptors remain. */
    method RemoveSocket(wsi: Wsi) returns (ret: int)
      requires Valid() && wsi in pos && fdsCount > 1
      modifies this`fdsCount, this`pos, fds, lwsLookup, pos.Keys`positionInFdsTable
      ensures Valid() && ret == 0 && wsi.positionInFdsTable == -1
      ensures pos.Keys == old(pos.Keys) - {wsi} && Map(View()) == old(Map(View())) - {wsi.sock}
    {
      ghost var t := View();
      RemoveSlots(t, wsi);
      hide InOrder, Map, Placed, Owned, Linked;
      fdsCount := fdsCount - 1;
      if wsi.sock > maxFds { return 1; }
      var m := wsi.positionInFdsTable;
      MoveLast(m);
      Resettle(lwsLookup[fds[fdsCount].fd], m);
      lwsLookup[wsi.sock] := null;
      Unsettle(wsi);
      assert View() == Remove(t, wsi);
      return 0;
    }

    method Resettle(end: Wsi, m: nat)
      requires Linked() && end in pos
      modifies end`positionInFdsTable, this`pos
      ensures Linked() && pos == old(pos)[end := m]
    {
      end.positionInFdsTable := m;
      pos := pos[end := m];
    }

    /** A removed connection has no position any more. */
    method Unsettle(wsi: Wsi)
      requires Linked()
      modifies wsi`positionInFdsTable, this`pos
      ensures Linked() && pos == old(pos) - {wsi} && wsi.positionInFdsTable == -1
    {
      wsi.positionInFdsTable := -1;
      pos := pos - {wsi};
    }

    /** The end guy takes up the vacant slot. */
    method MoveLast(m: nat)
      requires Sized() && m <= fdsCount < maxFds
      modifies fds
      ensures fds[..fdsCount] == old(fds[..fdsCount + 1])[m := old(fds[fdsCount])][..fdsCount]
        && fds[fdsCount] == old(fds[fdsCount])
    {
      fds[m] := fds[fdsCount];
    }

    /** lws_change_pollfd on a live connection. */
    method ChangePollfd(wsi: Wsi, clear: Events, raise: Events)
      requires Valid() && wsi in pos
      modifies fds
      ensures Valid() && forall i :: 0 <= i < fdsCount ==> fds[i].fd == old(fds[i].fd)
      ensures Map(View()) == Rearmed(old(Map(View())), wsi.sock, clear, raise)
    {
      ghost var t := View();
      assert Placed(t, wsi);
      assert wsi.sock in Map(t) && Map(t)[wsi.sock] == EntryOf(t, wsi.sock);
      ghost var events := Changed(fds[wsi.positionInFdsTable].events, clear, raise);
      ChangeKeeps(t, wsi, events);
      hide InOrder, Map, Changed;
      var fd := fds[wsi.positionInFdsTable];
      fds[wsi.positionInFdsTable] := fd.(events := Changed(fd.events, clear, raise));
      assert View() == Change(t, wsi, events);
    }

    ghost predicate SameSlots(t: Tables)
      requires Sized()
      reads this, fds, lwsLookup
    {
      && pos == t.pos && lwsLookup[..] == t.lookup && |t.fds| == fdsCount
      && forall i :: 0 <= i < fdsCount ==> fds[i].fd == t.fds[i].fd
    }

    method AskSlot(n: nat, protocol: nat, ghost t: Tables)
      requires Valid() && InOrder(t) && SameSlots(t) && n < fdsCount && Map(View()) == AskedBelow(t, n, protocol)
      modifies fds
      ensures Valid() && SameSlots(t) && Map(View()) == AskedBelow(t, n + 1, protocol)
    {
      AskStep(t, n, protocol);
      hide InOrder, Map, AskedBelow, Rearmed, Linked;
      var wsi := lwsLookup[fds[n].fd];
      if wsi.protocol == protocol { ChangePollfd(wsi, {}, POLLOUT); }
    }

    /** libwebsocket_callback_on_writable_all_protocol: asks every connection of the protocol, and no other. */
    method CallbackOnWritableAllProtocol(protocol: nat)
      requires Valid()
      modifies fds
      ensures Valid() && Map(View()) == Awaiting(old(Map(View())), protocol)
    {
      ghost var t := View();
      AskAll(t, protocol);
      hide InOrder, Map, AskedBelow, Awaiting, Linked;
      var n := 0;
      while n < fdsCount
        invariant n <= fdsCount && Valid() && SameSlots(t) && Map(View()) == AskedBelow(t, n, protocol)
      {
        AskSlot(n, protocol, t);
        n := n + 1;
      }
    }
  }
}
