/**
  Delivery of an HTTP request body in libwebsockets (the HTTP_BODY state of
  libwebsocket_read in handshake.c): bytes gather in a buffer of the protocol's receive
  size and go to the callback in pieces, followed by one completion call.  The state is
  entered from the read that ends the headers, whose length still counts them.
*/
module HttpBody {
  import opened Bytes

  const MAX_SOCKET_IO_BUF := 102400

  function Capacity(rxBufferSize: nat): (cap: nat)
    ensures cap > 0 && (rxBufferSize > 0 ==> cap == rxBufferSize)
  {
    if rxBufferSize == 0 then MAX_SOCKET_IO_BUF else rxBufferSize
  }

  // HTTP_BODY and HTTP_BODY_COMPLETION callbacks
  datatype Event = Piece(data: seq<byte>) | Completion

  // content_length, content_length_seen, post_buffer[..body_index], and the callbacks so far.
  datatype Body = Body(length: int, seen: nat, buffer: seq<byte>, events: seq<Event>)

  // Whether the connection goes on; refuse is the number of the callback that returns non-zero.
  datatype Result = Result(s: Body, ok: bool)

  function Accepts(s: Body, refuse: int): bool { |s.events| - 1 != refuse }

  function Call(s: Body, e: Event): Body { s.(events := s.events + [e], buffer := []) }

  /** One byte of the body. */
  function TakeByte(s: Body, c: byte, cap: nat, refuse: int): Result {
    var s1 := s.(buffer := s.buffer + [c], seen := s.seen + 1);
    if |s1.buffer| != cap && s1.seen != s1.length then Result(s1, true)
    else
      var s2 := Call(s1, Piece(s1.buffer));
      if !Accepts(s2, refuse) then Result(s2, false)
      else if s2.seen == s2.length then var s3 := Call(s2, Completion); Result(s3, Accepts(s3, refuse))
      else Result(s2, true)
  }

  /** The spill behind the loop. */
  function Spill(s: Body, refuse: int): Result {
    if s.buffer != [] then var s1 := Call(s, Piece(s.buffer)); Result(s1, Accepts(s1, refuse)) else Result(s, true)
  }

  function Loop(s: Body, buf: seq<byte>, cap: nat, refuse: int): Result
    decreases |buf|
  {
    if buf == [] || s.seen >= s.length then Result(s, true)
    else var r := TakeByte(s, buf[0], cap, refuse); if r.ok then Loop(r.s, buf[1..], cap, refuse) else r
  }

  /** libwebsocket_read of a chunk while the body is being received. */
  function Read(s: Body, buf: seq<byte>, cap: nat, refuse: int): Result {
    var r := Loop(s, buf, cap, refuse);
    if r.ok then Spill(r.s, refuse) else r
  }

  // ------------------------------------------------------------------ what is delivered

  function Data(events: seq<Event>): seq<byte> {
    if events == [] then [] else (if events[0].Piece? then events[0].data else []) + Data(events[1..])
  }

  function Completions(events: seq<Event>): nat {
    if events == [] then 0 else (if events[0].Completion? then 1 else 0) + Completions(events[1..])
  }

  predicate PiecesFit(events: seq<Event>, cap: nat) {
    forall i :: 0 <= i < |events| && events[i].Piece? ==> 0 < |events[i].data| <= cap
  }

  lemma DataFirst(a: seq<Event>)
    requires a != []
    ensures Data(a) == (if a[0].Piece? then a[0].data else []) + Data(a[1..])
    ensures Completions(a) == (if a[0].Completion? then 1 else 0) + Completions(a[1..])
  {}

  lemma {:induction false} EventsAppend(a: seq<Event>, e: Event)
    ensures Data(a + [e]) == Data(a) + (if e.Piece? then e.data else [])
    ensures Completions(a + [e]) == Completions(a) + (if e.Completion? then 1 else 0)
  {
    if a == [] {
      assert a + [e] == [e] && [e][1..] == [];
    } else {
      EventsAppend(a[1..], e);
      assert (a + [e])[0] == a[0] && (a + [e])[1..] == a[1..] + [e];
      hide Data, Completions;
      DataFirst(a);
      DataFirst(a + [e]);
    }
  }

  /** The part of what arrived that belongs to the body. */
  function Wanted(received: seq<byte>, length: int): seq<byte> {
    if length <= 0 then [] else if |received| <= length then received else received[..length]
  }

  /** What has been delivered and what is gathered make up the body so far; completion comes with its last byte. */
  ghost predicate Delivers(s: Body, received: seq<byte>, cap: nat) {
    && Data(s.events) + s.buffer == Wanted(received, s.length) && s.seen == |Wanted(received, s.length)|
    && PiecesFit(s.events, cap) && |s.buffer| < cap
    && Completions(s.events) == (if s.length > 0 && s.seen == s.length then 1 else 0)
    && (s.seen >= s.length ==> s.buffer == [])
    && (s.length > 0 && s.seen == s.length ==> s.events != [] && s.events[|s.events| - 1] == Completion)
  }

  lemma CallDelivers(s: Body, cap: nat)
    requires 0 < |s.buffer| <= cap && PiecesFit(s.events, cap)
    ensures var t := Call(s, Piece(s.buffer));
      Data(t.events) == Data(s.events) + s.buffer && Completions(t.events) == Completions(s.events)
        && PiecesFit(t.events, cap)
  {
    EventsAppend(s.events, Piece(s.buffer));
  }

  lemma TakeByteDelivers(s: Body, received: seq<byte>, c: byte, cap: nat)
    requires cap > 0 && Delivers(s, received, cap) && s.seen < s.length
    ensures TakeByte(s, c, cap, -1).ok && Delivers(TakeByte(s, c, cap, -1).s, received + [c], cap)
  {
    var s1 := s.(buffer := s.buffer + [c], seen := s.seen + 1);
    assert Wanted(received, s.length) == received && Wanted(received + [c], s.length) == received + [c];
    assert Data(s.events) + s1.buffer == received + [c];
    if |s1.buffer| == cap || s1.seen == s1.length {
      CallDelivers(s1, cap);
      var s2 := Call(s1, Piece(s1.buffer));
      if s2.seen == s2.length { EventsAppend(s2.events, Completion); }
    }
  }

  /** Bytes behind the end of the body are dropped. */
  lemma Surplus(s: Body, received: seq<byte>, buf: seq<byte>, cap: nat)
    requires Delivers(s, received, cap) && s.seen >= s.length
    ensures Delivers(s, received + buf, cap)
  {
    if s.length > 0 { assert (received + buf)[..s.length] == received[..s.length]; }
  }

  lemma {:induction false} LoopDelivers(s: Body, received: seq<byte>, buf: seq<byte>, cap: nat)
    requires cap > 0 && Delivers(s, received, cap)
    ensures Loop(s, buf, cap, -1).ok && Delivers(Loop(s, buf, cap, -1).s, received + buf, cap)
    decreases |buf|
  {
    hide Delivers, TakeByte;
    if buf == [] {
      assert received + buf == received;
    } else if s.seen >= s.length {
      Surplus(s, received, buf, cap);
    } else {
      TakeByteDelivers(s, received, buf[0], cap);
      LoopDelivers(TakeByte(s, buf[0], cap, -1).s, received + [buf[0]], buf[1..], cap);
      assert received + [buf[0]] + buf[1..] == received + buf;
    }
  }

  lemma ReadDelivers(s: Body, received: seq<byte>, buf: seq<byte>, cap: nat)
    requires cap > 0 && Delivers(s, received, cap)
    ensures var r := Read(s, buf, cap, -1); r.ok && Delivers(r.s, received + buf, cap) && r.s.buffer == []
  {
    LoopDelivers(s, received, buf, cap);
    var s1 := Loop(s, buf, cap, -1).s;
    if s1.buffer != [] { CallDelivers(s1, cap); }
  }

  // -------------------------------------------------------------- callbacks that refuse

  /** r is the undisturbed u up to callback number k, or u itself if that one does not come. */
  ghost predicate Refused(s: Body, u: Result, r: Result, k: nat) {
    && s.events <= u.s.events && u.ok
    && if k < |s.events| || k >= |u.s.events| then r == u else !r.ok && r.s.events == u.s.events[..k + 1]
  }

  lemma TakeByteRefused(s: Body, c: byte, cap: nat, k: nat)
    ensures Refused(s, TakeByte(s, c, cap, -1), TakeByte(s, c, cap, k), k)
  {
    var u, r := TakeByte(s, c, cap, -1), TakeByte(s, c, cap, k);
    assert u.s.events[..|u.s.events|] == u.s.events;
    if |u.s.events| == |s.events| + 2 { assert u.s.events[..|s.events| + 1] == s.events + [u.s.events[|s.events|]]; }
  }

  lemma {:induction false} LoopRefused(s: Body, buf: seq<byte>, cap: nat, k: nat)
    ensures Refused(s, Loop(s, buf, cap, -1), Loop(s, buf, cap, k), k)
    decreases |buf|
  {
    if buf != [] && s.seen < s.length {
      TakeByteRefused(s, buf[0], cap, k);
      hide TakeByte;
      var u := TakeByte(s, buf[0], cap, -1).s;
      LoopRefused(u, buf[1..], cap, k);
      var v := Loop(u, buf[1..], cap, -1).s;
      if |s.events| <= k < |u.events| { assert v.events[..k + 1] == u.events[..k + 1]; }
    }
  }

  /**
    A callback that refuses ends the read: what was called before is as in the undisturbed read,
    the refusing call is the last one, and the connection is to be closed.
  */
  lemma ReadRefused(s: Body, buf: seq<byte>, cap: nat, k: nat)
    ensures Refused(s, Read(s, buf, cap, -1), Read(s, buf, cap, k), k)
  {
    LoopRefused(s, buf, cap, k);
    hide Loop;
    var l, u := Loop(s, buf, cap, -1).s, Read(s, buf, cap, -1).s;
    assert u.events[..|u.events|] == u.events;
    if k < |l.events| { assert u.events[..k + 1] == l.events[..k + 1]; }
  }

  function ReadAll(s: Body, chunks: seq<seq<byte>>, cap: nat): Body
    decreases |chunks|
  {
    if chunks == [] then s else ReadAll(Read(s, chunks[0], cap, -1).s, chunks[1..], cap)
  }

  function Join(chunks: seq<seq<byte>>): seq<byte>
    decreases |chunks|
  {
    if chunks == [] then [] else chunks[0] + Join(chunks[1..])
  }

  /**
    However the body is cut, the pieces add up to its first content_length bytes, none is
    larger than the buffer, and completion is called once, with the last byte.
  */
  lemma {:induction false} ReadAllDelivers(s: Body, received: seq<byte>, chunks: seq<seq<byte>>, cap: nat)
    requires cap > 0 && Delivers(s, received, cap) && s.buffer == []
    ensures Delivers(ReadAll(s, chunks, cap), received + Join(chunks), cap) && ReadAll(s, chunks, cap).buffer == []
    decreases |chunks|
  {
    hide Delivers, Read;
    if chunks == [] {
      assert received + [] == received;
    } else {
      ReadDelivers(s, received, chunks[0], cap);
      ReadAllDelivers(Read(s, chunks[0], cap, -1).s, received + chunks[0], chunks[1..], cap);
      assert received + chunks[0] + Join(chunks[1..]) == received + (chunks[0] + Join(chunks[1..]));
    }
  }

  /** Whatever chunks the loop is given from a fresh body state: what the callbacks have seen. */
  lemma ChunksDelivered(length: int, chunks: seq<seq<byte>>, cap: nat)
    requires cap > 0
    ensures var s := ReadAll(Body(length, 0, [], []), chunks, cap);
      Data(s.events) == Wanted(Join(chunks), length) && PiecesFit(s.events, cap)
    ensures Completions(ReadAll(Body(length, 0, [], []), chunks, cap).events)
      == if 0 < length <= |Join(chunks)| then 1 else 0
  {
    var s := Body(length, 0, [], []);
    assert Wanted([], length) == [];
    assert Delivers(s, [], cap);
    ReadAllDelivers(s, [], chunks, cap);
    assert [] + Join(chunks) == Join(chunks);
    LengthKept(s, chunks, cap);
    var t := ReadAll(s, chunks, cap);
    assert Data(t.events) + [] == Data(t.events);
  }

  lemma {:induction false} LoopKeepsLength(s: Body, buf: seq<byte>, cap: nat)
    ensures Loop(s, buf, cap, -1).s.length == s.length
    decreases |buf|
  {
    if buf != [] && s.seen < s.length {
      var r := TakeByte(s, buf[0], cap, -1);
      if r.ok { LoopKeepsLength(r.s, buf[1..], cap); }
    }
  }

  lemma {:induction false} LengthKept(s: Body, chunks: seq<seq<byte>>, cap: nat)
    ensures ReadAll(s, chunks, cap).length == s.length
    decreases |chunks|
  {
    if chunks != [] {
      LoopKeepsLength(s, chunks[0], cap);
      LengthKept(Read(s, chunks[0], cap, -1).s, chunks[1..], cap);
    }
  }

  // ----------------------------------------------------- the read that ends the headers

  function Nuls(n: nat): seq<byte> { seq(n, _ => 0) }

  /**
    lws_handshake_server takes the header bytes off the front of the buffer but not off the
    caller's length: the loop runs over the rest w of what was received and then over as many
    bytes behind it as there were header bytes.
  */
  function HeaderRead(s: Body, w: seq<byte>, behind: seq<byte>, cap: nat, refuse: int): Result {
    Read(s, w + behind, cap, refuse)
  }

  /** A whole request: the read that ends the headers, then reads of body bytes alone. */
  function Request(length: int, w: seq<byte>, behind: seq<byte>, chunks: seq<seq<byte>>, cap: nat): Body {
    ReadAll(HeaderRead(Body(length, 0, [], []), w, behind, cap, -1).s, chunks, cap)
  }

  /** What a request delivers: the bytes behind the first read are taken for body. */
  lemma RequestDelivers(length: int, w: seq<byte>, behind: seq<byte>, chunks: seq<seq<byte>>, cap: nat)
    requires cap > 0
    ensures var s := Request(length, w, behind, chunks, cap);
      && Data(s.events) == Wanted(w + behind + Join(chunks), length) && PiecesFit(s.events, cap)
      && Completions(s.events) == if 0 < length <= |w| + |behind| + |Join(chunks)| then 1 else 0
  {
    var all := [w + behind] + chunks;
    assert all[0] == w + behind && all[1..] == chunks;
    ChunksDelivered(length, all, cap);
    assert ReadAll(Body(length, 0, [], []), all, cap) == Request(length, w, behind, chunks, cap);
  }

  /** Shifted by zeros, a text is unchanged exactly if it is all zeros. */
  lemma {:induction false} ShiftedSame(j: seq<byte>, h: nat, k: nat)
    requires 0 < h && k <= |j|
    ensures (Nuls(h) + j)[..k] == j[..k] <==> forall i :: 0 <= i < k ==> j[i] == 0
  {
    if (Nuls(h) + j)[..k] == j[..k] {
      forall i | 0 <= i < k ensures j[i] == 0 { ShiftedZero(j, h, k, i); }
    }
  }

  lemma {:induction false} ShiftedZero(j: seq<byte>, h: nat, k: nat, i: nat)
    requires 0 < h && i < k <= |j| && (Nuls(h) + j)[..k] == j[..k]
    ensures j[i] == 0
    decreases i
  {
    assert j[i] == j[..k][i] == (Nuls(h) + j)[..k][i] == (Nuls(h) + j)[i];
    if i >= h { ShiftedZero(j, h, k, i - h); }
  }

  /** The rest of the body, behind the read that ended the headers, has arrived and is all NULs. */
  predicate RestIsNuls(w: seq<byte>, rest: seq<byte>, length: int) {
    |w| <= length <= |w| + |rest| && forall i :: 0 <= i < length - |w| ==> rest[i] == 0
  }

  /**
    The service buffer is cleared before each read, so NULs lie behind what was received.  The
    callbacks are given the first content_length bytes of the body exactly when these all
    arrived with the end of the headers, or those that did not are NULs themselves.
  */
  lemma BodyDeliveredExactly(length: int, w: seq<byte>, h: nat, chunks: seq<seq<byte>>, cap: nat)
    requires cap > 0 && h > 0
    ensures Data(Request(length, w, Nuls(h), chunks, cap).events) == Wanted(w + Join(chunks), length)
      <==> length <= |w| || RestIsNuls(w, Join(chunks), length)
  {
    RequestDelivers(length, w, Nuls(h), chunks, cap);
    var j, k := Join(chunks), length - |w|;
    var got, want := Wanted(w + Nuls(h) + j, length), Wanted(w + j, length);
    if length <= |w| {
      if length > 0 { assert (w + Nuls(h) + j)[..length] == w[..length] == (w + j)[..length]; }
    } else if |j| < k {
      assert want == w + j && |got| > |want|;
    } else {
      assert got == w + (Nuls(h) + j)[..k] by { assert w + Nuls(h) + j == w + (Nuls(h) + j); }
      assert want == w + j[..k];
      assert got == want <==> (Nuls(h) + j)[..k] == j[..k] by {
        assert got[|w|..] == (Nuls(h) + j)[..k] && want[|w|..] == j[..k];
      }
      ShiftedSame(j, h, k);
    }
  }

  /** Completion is called already by the read that ends the headers when the body is no longer than what it counts. */
  lemma CompletionEarly(length: int, w: seq<byte>, h: nat, cap: nat)
    requires cap > 0
    ensures Completions(Request(length, w, Nuls(h), [], cap).events) == 1 <==> 0 < length <= |w| + h
    ensures Data(Request(length, w, Nuls(h), [], cap).events) == Wanted(w + Nuls(h), length)
  {
    RequestDelivers(length, w, Nuls(h), [], cap);
    assert w + Nuls(h) + [] == w + Nuls(h);
  }

  /**
    Headers that end a read of h bytes without a byte of body: a short body is delivered as NULs at
    once, and completed.
  */
  lemma NulsDelivered(length: nat, h: nat, chunks: seq<seq<byte>>, cap: nat)
    requires 0 < length <= h && length <= cap
    ensures Request(length, [], Nuls(h), [], cap).events == [Piece(Nuls(length)), Completion]
    ensures Request(length, [], Nuls(h), chunks, cap).events == [Piece(Nuls(length)), Completion]
  {
    var s := Body(length, 0, [], []);
    GathersNuls(s, length, h, cap);
    assert [] + Nuls(h) == Nuls(h);
    var t := HeaderRead(s, [], Nuls(h), cap, -1).s;
    assert t.events == [Piece(Nuls(length)), Completion];
    Finished(t, chunks, cap);
  }

  lemma {:induction false} GathersNuls(s: Body, length: nat, h: nat, cap: nat)
    requires s.length == length && s.seen < length <= s.seen + h && length <= cap
    requires s.buffer == Nuls(s.seen) && s.events == []
    ensures Loop(s, Nuls(h), cap, -1) == Result(Body(length, length, [], [Piece(Nuls(length)), Completion]), true)
    decreases h
  {
    var r := TakeByte(s, 0, cap, -1);
    assert Nuls(h)[0] == 0 && Nuls(h)[1..] == Nuls(h - 1);
    assert s.buffer + [0] == Nuls(s.seen + 1);
    if s.seen + 1 < length {
      GathersNuls(r.s, length, h - 1, cap);
    } else {
      assert [] + [Piece(Nuls(length))] + [Completion] == [Piece(Nuls(length)), Completion];
    }
  }

  /** Once the body is complete, nothing more is delivered. */
  lemma {:induction false} Finished(s: Body, chunks: seq<seq<byte>>, cap: nat)
    requires s.seen >= s.length && s.buffer == []
    ensures ReadAll(s, chunks, cap) == s
    decreases |chunks|
  {
    if chunks != [] { Finished(s, chunks[1..], cap); }
  }

  // -------------------------------------------------------------------- the fields

  class HttpRequest {
    const rxBufferSize: nat
    const contentLength: int
    var contentLengthSeen: nat
    var bodyIndex: nat
    const postBuffer: array<byte>
    ghost var events: seq<Event>

    ghost predicate Valid()
      reads this
    {
      postBuffer.Length == Capacity(rxBufferSize) && bodyIndex < postBuffer.Length
    }

    ghost function View(): Body
      requires Valid()
      reads this, postBuffer
    {
      Body(contentLength, contentLengthSeen, postBuffer[..bodyIndex], events)
    }

    /** The body part of lws_handshake_server */
    constructor (rxBufferSize: nat, contentLength: int)
      ensures Valid() && View() == Body(contentLength, 0, [], []) && this.rxBufferSize == rxBufferSize
    {
      this.rxBufferSize, this.contentLength := rxBufferSize, contentLength;
      contentLengthSeen, bodyIndex, events := 0, 0, [];
      postBuffer := new byte[if rxBufferSize == 0 then MAX_SOCKET_IO_BUF else rxBufferSize];
    }

    /** A callback that returns non-zero if it is number refuse. */
    method Callback(ghost e: Event, refuse: int, calls: nat) returns (n: int)
      requires calls == |events|
      modifies this`events
      ensures events == old(events) + [e] && (n == 0 <==> calls != refuse)
    {
      events := events + [e];
      n := if calls == refuse then 1 else 0;
    }

    /** The HTTP_BODY state of libwebsocket_read from buf[from] on; -1 asks for the connection to be closed. */
    method ReadBody(buf: array<byte>, from: nat, len: nat, refuse: int, callsBefore: nat) returns (ret: int, calls: nat)
      requires Valid() && from + len <= buf.Length && buf != postBuffer && callsBefore == |events|
      modifies this`contentLengthSeen, this`bodyIndex, this`events, postBuffer
      ensures Valid() && calls == |events|
        && Result(View(), ret == 0) == Read(old(View()), buf[from..from + len], Capacity(rxBufferSize), refuse)
    {
      calls := callsBefore;
      var at := 0;
      ghost var input, cap := buf[from..from + len], Capacity(rxBufferSize);
      ret := 0;
      while at < len && contentLengthSeen < contentLength
        invariant at <= len && Valid() && calls == |events| && buf[from..from + len] == input
        invariant Loop(View(), input[at..], cap, refuse) == Loop(old(View()), input, cap, refuse)
      {
        assert input[at..][0] == buf[from + at] && input[at..][1..] == input[at + 1..];
        ret, calls := TakeOne(buf[from + at], refuse, calls);
        if ret != 0 { return; }
        at := at + 1;
      }
      if bodyIndex != 0 {
        var n := Callback(Piece(postBuffer[..bodyIndex]), refuse, calls);
        calls := calls + 1;
        bodyIndex := 0;
        if n != 0 { ret := -1; }
      }
    }

    /**
      The read that ends the headers: the service buffer is cleared and filled with what the
      socket has, the parser takes h bytes of it, and the loop runs for the length received.
    */
    method EndHeaders(serviceBuffer: array<byte>, received: seq<byte>, h: nat, refuse: int)
      returns (ret: int, calls: nat)
      requires Valid() && events == [] && h <= |received| && |received| + h <= serviceBuffer.Length
      requires serviceBuffer != postBuffer
      modifies this`contentLengthSeen, this`bodyIndex, this`events, postBuffer, serviceBuffer
      ensures Valid() && calls == |events|
        && Result(View(), ret == 0) == HeaderRead(old(View()), received[h..], Nuls(h), Capacity(rxBufferSize), refuse)
    {
      hide Read;
      forall i | 0 <= i < serviceBuffer.Length { serviceBuffer[i] := 0; }
      forall i | 0 <= i < |received| { serviceBuffer[i] := received[i]; }
      assert serviceBuffer[h..h + |received|] == received[h..] + Nuls(h);
      ret, calls := ReadBody(serviceBuffer, h, |received|, refuse, 0);
    }

    method TakeOne(c: byte, refuse: int, callsBefore: nat) returns (ret: int, calls: nat)
      requires Valid() && callsBefore == |events|
      modifies this`contentLengthSeen, this`bodyIndex, this`events, postBuffer
      ensures Valid() && calls == |events|
        && Result(View(), ret == 0) == TakeByte(old(View()), c, Capacity(rxBufferSize), refuse)
    {
      calls, ret := callsBefore, 0;
      ghost var gathered := postBuffer[..bodyIndex];
      postBuffer[bodyIndex] := c;
      bodyIndex := bodyIndex + 1;
      assert postBuffer[..bodyIndex] == gathered + [c];
      contentLengthSeen := contentLengthSeen + 1;
      var n := if rxBufferSize == 0 then MAX_SOCKET_IO_BUF else rxBufferSize;
      if bodyIndex != n && contentLengthSeen != contentLength { return; }
      var m := Callback(Piece(postBuffer[..bodyIndex]), refuse, calls);
      calls := calls + 1;
      bodyIndex := 0;
      if m != 0 { return -1, calls; }
      if contentLengthSeen == contentLength {
        m := Callback(Completion, refuse, calls);
        calls := calls + 1;
        bodyIndex := 0;
        if m != 0 { return -1, calls; }
      }
    }
  }
}
