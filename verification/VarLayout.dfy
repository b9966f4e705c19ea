/**
  The iRacing SDK memory server (irsdk_memserver.cpp): variables are registered into
  adjacent slots of the sample buffer until the header is finalised, and a poll copies
  every variable that has a source into its slot of the buffer in turn.
*/
module VarLayout {
  import opened Bytes
  import opened TripleBuffer

  const IRSDK_MAX_VARS := 4096
  const IRSDK_MAX_STRING := 32
  const BUF_LENGTH := 24576
  const BUF_COUNT := 3

  // irsdk_varHeader: size stands for the type's bytes times the count.
  datatype VarHeader = VarHeader(name: string, size: nat, offset: nat)

  // localVarHeader[..numVars] and bufLen
  datatype Layout = Layout(vars: seq<VarHeader>, bufLen: nat)

  /** The bytes the first n variables take. */
  function Total(vars: seq<VarHeader>, n: nat): nat
    requires n <= |vars|
  {
    if n == 0 then 0 else Total(vars, n - 1) + vars[n - 1].size
  }

  predicate Placed(l: Layout, i: nat)
    requires i < |l.vars|
  {
    l.vars[i].offset == Total(l.vars, i)
  }

  /** Names are unique and the slots tile [0, bufLen), which stays below the buffer length. */
  ghost predicate Tiles(l: Layout) {
    && |l.vars| <= IRSDK_MAX_VARS && l.bufLen < BUF_LENGTH && l.bufLen == Total(l.vars, |l.vars|)
    && (forall i :: 0 <= i < |l.vars| ==> Placed(l, i))
    && (forall i, j :: 0 <= i < j < |l.vars| ==> l.vars[i].name != l.vars[j].name)
  }

  function IndexOf(vars: seq<VarHeader>, name: string): (i: int)
    ensures -1 <= i < |vars| && (i >= 0 ==> vars[i].name == name)
    ensures i == -1 ==> forall j :: 0 <= j < |vars| ==> vars[j].name != name
  {
    if vars == [] then -1
    else if vars[0].name == name then 0
    else var i := IndexOf(vars[1..], name); if i < 0 then -1 else i + 1
  }

  predicate Fits(l: Layout, size: nat) { |l.vars| < IRSDK_MAX_VARS && l.bufLen + size < BUF_LENGTH }

  /** regVar */
  function Register(l: Layout, finalized: bool, name: string, size: nat): Layout {
    if IndexOf(l.vars, name) < 0 && !finalized && Fits(l, size)
    then Layout(l.vars + [VarHeader(name, size, l.bufLen)], l.bufLen + size)
    else l
  }

  /** Registration keeps the tiling and moves nothing, and after the header is final changes nothing. */
  lemma RegisterKeeps(l: Layout, finalized: bool, name: string, size: nat)
    requires Tiles(l)
    ensures Tiles(Register(l, finalized, name, size)) && l.vars <= Register(l, finalized, name, size).vars
    ensures finalized ==> Register(l, finalized, name, size) == l
    ensures IndexOf(l.vars, name) >= 0 ==> Register(l, finalized, name, size) == l
    ensures IndexOf(l.vars, name) < 0 && !finalized && Fits(l, size) ==>
      var l1 := Register(l, finalized, name, size);
      |l1.vars| == |l.vars| + 1 && l1.vars[|l.vars|] == VarHeader(name, size, l.bufLen) && l1.bufLen == l.bufLen + size
    ensures IndexOf(Register(l, finalized, name, size).vars, name) >= 0
      <==> IndexOf(l.vars, name) >= 0 || (!finalized && Fits(l, size))
  {
    var l1 := Register(l, finalized, name, size);
    if l1 != l {
      forall i | 0 <= i < |l1.vars| ensures Placed(l1, i) {
        TotalPrefix(l.vars, l1.vars, i);
        assert i < |l.vars| ==> Placed(l, i);
      }
      TotalPrefix(l.vars, l1.vars, |l.vars|);
      assert l1.vars[|l.vars|].name == name;
    }
  }

  lemma {:induction false} TotalPrefix(vars: seq<VarHeader>, more: seq<VarHeader>, n: nat)
    requires n <= |vars| && vars <= more
    ensures Total(more, n) == Total(vars, n)
  {
    if n > 0 { TotalPrefix(vars, more, n - 1); }
  }

  datatype Registration = Registration(name: string, size: nat, finalized: bool)

  function RegisterAll(l: Layout, regs: seq<Registration>): Layout
    decreases |regs|
  {
    if regs == [] then l else RegisterAll(Register(l, regs[0].finalized, regs[0].name, regs[0].size), regs[1..])
  }

  /** After any sequence of registrations names are unique and slots tile the buffer; nothing registered ever moves. */
  lemma {:induction false} RegistrationsTile(l: Layout, regs: seq<Registration>)
    requires Tiles(l)
    ensures Tiles(RegisterAll(l, regs)) && l.vars <= RegisterAll(l, regs).vars
    decreases |regs|
  {
    if regs != [] {
      RegisterKeeps(l, regs[0].finalized, regs[0].name, regs[0].size);
      RegistrationsTile(Register(l, regs[0].finalized, regs[0].name, regs[0].size), regs[1..]);
    }
  }

  lemma {:induction false} TotalGrows(vars: seq<VarHeader>, i: nat, j: nat)
    requires i <= j <= |vars|
    ensures Total(vars, i) <= Total(vars, j)
  {
    if i < j { TotalGrows(vars, i, j - 1); }
  }

  /** Slots lie in order and do not overlap. */
  lemma SlotsOrdered(l: Layout, i: nat, j: nat)
    requires Tiles(l) && i < j <= |l.vars|
    ensures l.vars[i].offset + l.vars[i].size <= Total(l.vars, j) <= l.bufLen
    ensures j < |l.vars| ==> l.vars[i].offset + l.vars[i].size <= l.vars[j].offset
  {
    assert Placed(l, i) && (j < |l.vars| ==> Placed(l, j));
    TotalGrows(l.vars, i + 1, j);
    TotalGrows(l.vars, j, |l.vars|);
  }

  /** Every byte below bufLen belongs to a slot. */
  lemma {:induction false} SlotOf(l: Layout, k: nat, n: nat) returns (i: nat)
    requires Tiles(l) && n <= |l.vars| && k < Total(l.vars, n)
    ensures i < n && l.vars[i].offset <= k < l.vars[i].offset + l.vars[i].size
  {
    assert Placed(l, n - 1);
    if k >= Total(l.vars, n - 1) { i := n - 1; } else { i := SlotOf(l, k, n - 1); }
  }

  // ---------------------------------------------------------------------- polling

  datatype Source = NoSource | Bytes(value: seq<byte>)

  /** writeVar, given the bytes the source converts to. */
  function Write(mem: seq<byte>, at: nat, value: seq<byte>): (r: seq<byte>)
    requires at + |value| <= |mem|
    ensures |r| == |mem| && r[at..at + |value|] == value
    ensures forall k :: 0 <= k < |mem| && !(at <= k < at + |value|) ==> r[k] == mem[k]
  {
    mem[..at] + value + mem[at + |value|..]
  }

  /** Each source has as many bytes as its slot. */
  ghost predicate Sourced(l: Layout, sources: seq<Source>) {
    && |sources| == |l.vars|
    && forall i :: 0 <= i < |sources| && sources[i].Bytes? ==> |sources[i].value| == l.vars[i].size
  }

  /** The memory after the first n variables are written to the buffer at base. */
  function Poll(mem: seq<byte>, base: nat, l: Layout, sources: seq<Source>, n: nat): (r: seq<byte>)
    requires Tiles(l) && Sourced(l, sources) && n <= |l.vars| && base + BUF_LENGTH <= |mem|
    ensures |r| == |mem|
  {
    if n == 0 then mem
    else
      var m := Poll(mem, base, l, sources, n - 1);
      SlotsOrdered(l, n - 1, n);
      if sources[n - 1].Bytes? then Write(m, base + l.vars[n - 1].offset, sources[n - 1].value) else m
  }

  lemma {:induction false} PollOutside(mem: seq<byte>, base: nat, l: Layout, sources: seq<Source>, n: nat, k: nat)
    requires Tiles(l) && Sourced(l, sources) && n <= |l.vars| && base + BUF_LENGTH <= |mem|
    requires k < |mem| && !(base <= k < base + Total(l.vars, n))
    ensures Poll(mem, base, l, sources, n)[k] == mem[k]
  {
    if n > 0 {
      SlotsOrdered(l, n - 1, n);
      PollOutside(mem, base, l, sources, n - 1, k);
    }
  }

  /** One poll makes every slot with a source hold that source's value and leaves every other slot as it was. */
  lemma {:induction false} PollFills(mem: seq<byte>, base: nat, l: Layout, sources: seq<Source>, n: nat, i: nat)
    requires Tiles(l) && Sourced(l, sources) && i < n <= |l.vars| && base + BUF_LENGTH <= |mem|
    ensures l.vars[i].offset + l.vars[i].size <= BUF_LENGTH
    ensures var o, z := base + l.vars[i].offset, l.vars[i].size;
      Poll(mem, base, l, sources, n)[o..o + z] == if sources[i].Bytes? then sources[i].value else mem[o..o + z]
  {
    SlotsOrdered(l, i, n);
    assert Placed(l, i);
    hide Tiles, Sourced;
    var o, z := base + l.vars[i].offset, l.vars[i].size;
    var m := Poll(mem, base, l, sources, n - 1);
    if i == n - 1 {
      if sources[i].NoSource? {
        forall k | o <= k < o + z ensures m[k] == mem[k] { PollOutside(mem, base, l, sources, n - 1, k); }
        assert m[o..o + z] == mem[o..o + z];
      }
    } else {
      PollFills(mem, base, l, sources, n - 1, i);
      PollAbove(mem, base, l, sources, n, i);
    }
  }

  /** Writing a later slot leaves slot i alone. */
  lemma PollAbove(mem: seq<byte>, base: nat, l: Layout, sources: seq<Source>, n: nat, i: nat)
    requires Tiles(l) && Sourced(l, sources) && i < n - 1 < |l.vars| && base + BUF_LENGTH <= |mem|
    ensures l.vars[i].offset + l.vars[i].size <= BUF_LENGTH
    ensures var o, z := base + l.vars[i].offset, l.vars[i].size;
      Poll(mem, base, l, sources, n)[o..o + z] == Poll(mem, base, l, sources, n - 1)[o..o + z]
  {
    SlotsOrdered(l, i, n - 1);
    SlotsOrdered(l, n - 1, n);
    hide Tiles, Sourced;
  }

  // ------------------------------------------------- a poll as steps of the exchange

  /** The bytes of a value stored one by one. */
  function Stores(at: nat, value: seq<byte>): seq<Action>
    decreases |value|
  {
    if value == [] then [] else [Store(at, value[0])] + Stores(at + 1, value[1..])
  }

  /** One state with `row` as the buffer being filled, whatever has been noted about it. */
  ghost predicate Filled(s: State, t: State, row: seq<byte>)
    requires Shaped(s)
  {
    t == s.(bufs := s.bufs[s.w.curBuf := row], written := t.written) && |t.written| == |s.written|
  }

  /** writeVar is a run of byte stores. */
  lemma {:induction false} StoresRun(s: State, at: nat, value: seq<byte>) returns (t: State)
    requires Shaped(s) && !s.w.stamped && at + |value| <= |s.bufs[s.w.curBuf]|
    ensures Run(s, Stores(at, value), t) && Filled(s, t, Write(s.bufs[s.w.curBuf], at, value))
    decreases |value|
  {
    var row := s.bufs[s.w.curBuf];
    if value == [] {
      t := s;
      assert Write(row, at, value) == row && s.bufs[s.w.curBuf := row] == s.bufs;
    } else {
      var s1 := Next(s, Store(at, value[0]));
      t := StoresRun(s1, at + 1, value[1..]);
      var row1 := row[at := value[0]];
      assert s1.bufs[s.w.curBuf] == row1;
      assert Write(row1, at + 1, value[1..]) == Write(row, at, value);
      assert s1.bufs[s.w.curBuf := Write(row, at, value)] == s.bufs[s.w.curBuf := Write(row, at, value)];
      hide Write, Stores;
      StoresFirst(at, value);
    }
  }

  lemma StoresFirst(at: nat, value: seq<byte>)
    requires value != []
    ensures Stores(at, value) != [] && Stores(at, value)[0] == Store(at, value[0])
    ensures Stores(at, value)[1..] == Stores(at + 1, value[1..])
  {}

  /** The stores of a whole poll. */
  function PollStores(l: Layout, sources: seq<Source>, n: nat): seq<Action>
    requires n <= |l.vars| == |sources|
  {
    if n == 0 then []
    else
      PollStores(l, sources, n - 1)
      + (if sources[n - 1].Bytes? then Stores(l.vars[n - 1].offset, sources[n - 1].value) else [])
  }

  /**
    pollSampleVars reaches the shared memory as stores to the current buffer, so every interleaving
    result covers it.
  */
  lemma {:induction false} PollRuns(s: State, l: Layout, sources: seq<Source>, n: nat) returns (t: State)
    requires Shaped(s) && !s.w.stamped && |s.bufs[s.w.curBuf]| == BUF_LENGTH
    requires Tiles(l) && Sourced(l, sources) && n <= |l.vars|
    ensures Run(s, PollStores(l, sources, n), t) && Filled(s, t, Poll(s.bufs[s.w.curBuf], 0, l, sources, n))
  {
    var row := s.bufs[s.w.curBuf];
    if n == 0 {
      t := s;
      assert s.bufs[s.w.curBuf := row] == s.bufs;
    } else {
      var u := PollRuns(s, l, sources, n - 1);
      if sources[n - 1].Bytes? {
        SlotsOrdered(l, n - 1, n);
        t := StoresRun(u, l.vars[n - 1].offset, sources[n - 1].value);
        RunJoin(s, PollStores(l, sources, n - 1), u, Stores(l.vars[n - 1].offset, sources[n - 1].value), t);
        var next := Poll(row, 0, l, sources, n);
        assert u.bufs[s.w.curBuf := next] == s.bufs[s.w.curBuf := next];
      } else {
        t := u;
        assert PollStores(l, sources, n) == PollStores(l, sources, n - 1);
      }
    }
  }

  // -------------------------------------------------------------------- the server

  class MemServer {
    var isInitialized: bool
    var isHeaderFinalized: bool
    var localVarHeader: seq<VarHeader>
    var bufLen: nat
    var varPtr: seq<nat>          // where each variable's source is, 0 for none
    var curBuf: nat
    var count: nat
    const sharedMem: array<byte>  // the three sample buffers
    const tickCount: array<int>

    ghost function View(): Layout
      reads this
    {
      Layout(localVarHeader, bufLen)
    }

    ghost predicate Valid()
      reads this
    {
      && Tiles(View()) && |varPtr| == |localVarHeader| && curBuf == count % BUF_COUNT
      && sharedMem.Length == BUF_COUNT * BUF_LENGTH && tickCount.Length == BUF_COUNT
    }

    constructor ()
      ensures Valid() && isInitialized && !isHeaderFinalized && View() == Layout([], 0) && count == 0
      ensures fresh(sharedMem) && fresh(tickCount)
    {
      isInitialized, isHeaderFinalized := true, false;
      localVarHeader, bufLen, varPtr, curBuf, count := [], 0, [], 0, 0;
      sharedMem := new byte[BUF_COUNT * BUF_LENGTH](_ => 0);
      tickCount := new int[BUF_COUNT](_ => -1);
    }

    /** varNameToIndex */
    method VarNameToIndex(name: string) returns (index: int)
      ensures index == if isInitialized then IndexOf(localVarHeader, name) else -1
    {
      if isInitialized {
        var i := 0;
        while i < |localVarHeader|
          invariant i <= |localVarHeader|
          invariant IndexOf(localVarHeader, name)
            == (var r := IndexOf(localVarHeader[i..], name); if r < 0 then -1 else r + i)
        {
          assert localVarHeader[i..][1..] == localVarHeader[i + 1..];
          if localVarHeader[i].name == name { return i; }
          i := i + 1;
        }
      }
      return -1;
    }

    /**
      regVar: a known name only gets a new source; a new one gets the next slot while the header is
      open and there is room.
    */
    method RegVar(name: string, ptr: nat, size: nat) returns (index: int)
      requires Valid() && 0 < |name| < IRSDK_MAX_STRING
      modifies this`localVarHeader, this`bufLen, this`varPtr
      ensures Valid() && View()
        == if isInitialized then Register(old(View()), isHeaderFinalized, name, size) else old(View())
      ensures index == if isInitialized then IndexOf(localVarHeader, name) else -1
      ensures index >= 0 ==> varPtr[index] == ptr
      ensures forall i :: 0 <= i < |old(varPtr)| && i != index ==> varPtr[i] == old(varPtr[i])
    {
      hide Tiles;
      if !isInitialized { return -1; }
      RegisterKeeps(View(), isHeaderFinalized, name, size);
      index := VarNameToIndex(name);
      if index >= 0 {
        varPtr := varPtr[index := ptr];
        return;
      }
      if !isHeaderFinalized && |localVarHeader| < IRSDK_MAX_VARS && size + bufLen < BUF_LENGTH {
        IndexOfNew(localVarHeader, VarHeader(name, size, bufLen));
        index := |localVarHeader|;
        localVarHeader := localVarHeader + [VarHeader(name, size, bufLen)];
        bufLen := size + bufLen;
        varPtr := varPtr + [ptr];
      }
    }

    /** finalizeHeader */
    method FinalizeHeader() returns (done: bool)
      modifies this`isHeaderFinalized
      ensures done == (isInitialized && !old(isHeaderFinalized))
        && isHeaderFinalized == (old(isHeaderFinalized) || isInitialized)
    {
      if isInitialized && !isHeaderFinalized {
        isHeaderFinalized := true;
        return true;
      }
      return false;
    }

    /** writeVar to the slot of one variable in the current buffer */
    method WriteVar(index: nat, value: seq<byte>)
      requires Valid() && index < |localVarHeader| && |value| == localVarHeader[index].size
      modifies sharedMem
      ensures curBuf * BUF_LENGTH + localVarHeader[index].offset + |value| <= sharedMem.Length
      ensures sharedMem[..] == Write(old(sharedMem[..]), curBuf * BUF_LENGTH + localVarHeader[index].offset, value)
    {
      SlotsOrdered(View(), index, index + 1);
      hide Tiles;
      var at := curBuf * BUF_LENGTH + localVarHeader[index].offset;
      forall k | 0 <= k < |value| { sharedMem[at + k] := value[k]; }
      assert sharedMem[..] == Write(old(sharedMem[..]), at, value);
    }

    /** setVar */
    method SetVar(index: int, source: Source) returns (done: bool)
      requires Valid() && (source.Bytes? && 0 <= index < |localVarHeader|
        ==> |source.value| == localVarHeader[index].size)
      modifies sharedMem
      ensures done == (isInitialized && source.Bytes? && 0 <= index < |localVarHeader|)
      ensures !done ==> sharedMem[..] == old(sharedMem[..])
      ensures done ==> curBuf * BUF_LENGTH + localVarHeader[index].offset + |source.value| <= sharedMem.Length
      ensures done ==>
        sharedMem[..] == Write(old(sharedMem[..]), curBuf * BUF_LENGTH + localVarHeader[index].offset, source.value)
    {
      if isInitialized && source.Bytes? {
        if index >= 0 && index < |localVarHeader| {
          WriteVar(index, source.value);
          return true;
        }
      }
      return false;
    }

    /** resetSampleVars clears the current buffer and no other. */
    method ResetSampleVars() returns (done: bool)
      requires Valid()
      modifies sharedMem
      ensures done == isInitialized
      ensures forall k :: 0 <= k < sharedMem.Length ==>
        sharedMem[k] == if done && curBuf * BUF_LENGTH <= k < (curBuf + 1) * BUF_LENGTH then 0 else old(sharedMem[k])
    {
      if !isInitialized { return false; }
      var base := curBuf * BUF_LENGTH;
      forall k | base <= k < base + BUF_LENGTH { sharedMem[k] := 0; }
      return true;
    }

    /** Its loop over the variables. */
    method WriteSamples(sources: seq<Source>)
      requires Valid() && Sourced(View(), sources)
      requires forall i :: 0 <= i < |varPtr| ==> (sources[i].NoSource? <==> varPtr[i] == 0)
      modifies sharedMem
      ensures sharedMem[..] == Poll(old(sharedMem[..]), curBuf * BUF_LENGTH, View(), sources, |localVarHeader|)
    {
      hide Tiles;
      var index := 0;
      ghost var mem, base := sharedMem[..], curBuf * BUF_LENGTH;
      while index < |localVarHeader|
        invariant index <= |localVarHeader| && sharedMem[..] == Poll(mem, base, View(), sources, index)
      {
        if varPtr[index] != 0 { WriteVar(index, sources[index].value); }
        index := index + 1;
      }
    }

    /** pollSampleVars: sources says what the registered pointers point to right now. */
    method PollSampleVars(sources: seq<Source>) returns (done: bool)
      requires Valid() && Sourced(View(), sources)
      requires forall i :: 0 <= i < |varPtr| ==> (sources[i].NoSource? <==> varPtr[i] == 0)
      modifies this`curBuf, this`count, sharedMem, tickCount
      ensures Valid() && done == isInitialized
      ensures !done ==>
        sharedMem[..] == old(sharedMem[..]) && tickCount[..] == old(tickCount[..]) && count == old(count)
      ensures done ==>
        sharedMem[..] == Poll(old(sharedMem[..]), old(curBuf) * BUF_LENGTH, View(), sources, |localVarHeader|)
      ensures done ==> tickCount[..] == old(tickCount[..])[old(curBuf) := old(count)] && count == old(count) + 1
    {
      if !isInitialized { return false; }
      WriteSamples(sources);
      hide Tiles, Poll;
      tickCount[curBuf] := count;
      curBuf := (curBuf + 1) % BUF_COUNT;
      count := count + 1;
      return true;
    }
  }

  lemma {:induction false} IndexOfNew(vars: seq<VarHeader>, v: VarHeader)
    requires IndexOf(vars, v.name) == -1
    ensures IndexOf(vars + [v], v.name) == |vars|
  {
    if vars != [] {
      assert (vars + [v])[1..] == vars[1..] + [v];
      IndexOfNew(vars[1..], v);
    }
  }
}
