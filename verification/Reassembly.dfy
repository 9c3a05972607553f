/** What reassembly guarantees for a whole connection that carries one framed message, for every way
    the frame is cut into chunks and every way the chunks are spread over read events. */
module Reassembly {
  import opened Wrappers
  import opened TcpFlows

  const BUFLEN: nat := 1200

  function Concat(chunks: seq<seq<byte>>): seq<byte> {
    if chunks == [] then [] else chunks[0] + Concat(chunks[1..])
  }

  /** An event that leaves the connection open. Its first read may already block. */
  predicate Delivers(e: Event) {
    && |e.chunks| <= NUM_READ_TRY
    && (|e.chunks| < NUM_READ_TRY ==> e.end.Blocked?)
    && forall c | c in e.chunks :: 0 < |c| <= BUFLEN
  }

  /** Up to fifty reads of up to 1200 bytes each. */
  lemma DeliversExactly(e: Event)
    requires e.end.Blocked?
    ensures Delivers(e) <==> |e.chunks| <= 50 && forall i | 0 <= i < |e.chunks| :: 1 <= |e.chunks[i]| <= 1200
  {
    if Delivers(e) {
      forall i | 0 <= i < |e.chunks| ensures 1 <= |e.chunks[i]| <= 1200 {
        assert e.chunks[i] in e.chunks;
      }
    }
  }

  function Len(e: Event): nat {
    |Concat(e.chunks)|
  }

  /** Bytes delivered by the first `j` events. */
  function Count(es: seq<Event>, j: nat): nat
    requires j <= |es|
  {
    if j == 0 then 0 else Count(es, j - 1) + Len(es[j - 1])
  }

  /** Event `j` brings the piece of the frame that follows what the events before it brought. */
  predicate BringsPiece(payload: seq<byte>, es: seq<Event>, j: nat)
    requires |payload| + 4 <= MAX_UINT32 && j < |es|
  {
    && Delivers(es[j])
    && Count(es, j + 1) <= |payload| + 4
    && Concat(es[j].chunks) == Frame(payload)[Count(es, j)..Count(es, j + 1)]
  }

  /** The events bring the frame, or the beginning of it. */
  predicate Brings(payload: seq<byte>, es: seq<Event>)
    requires |payload| + 4 <= MAX_UINT32
  {
    forall j: nat | j < |es| :: BringsPiece(payload, es, j)
  }

  /** Event `j` brings the very first chunk, and that chunk is no shorter than the length prefix. */
  predicate LongIfFirst(es: seq<Event>, j: nat)
    requires j < |es|
  {
    Count(es, j) == 0 && es[j].chunks != [] ==> |es[j].chunks[0]| >= 4
  }

  predicate LongFirstChunk(es: seq<Event>) {
    forall j: nat | j < |es| :: LongIfFirst(es, j)
  }

  predicate Carries(payload: seq<byte>, es: seq<Event>)
    requires |payload| + 4 <= MAX_UINT32
  {
    Brings(payload, es) && LongFirstChunk(es)
  }

  /** The whole frame has been delivered. */
  predicate Delivered(payload: seq<byte>, es: seq<Event>)
    requires |payload| + 4 <= MAX_UINT32
  {
    Brings(payload, es) && Count(es, |es|) == |payload| + 4
  }

  predicate Complete(payload: seq<byte>, es: seq<Event>)
    requires |payload| + 4 <= MAX_UINT32
  {
    Delivered(payload, es) && LongFirstChunk(es)
  }

  /** The flow after the first `j` events; `None` when a copy would leave the payload buffer. A flow that
      was deleted gets no more events. */
  function AfterEvents(es: seq<Event>, r: Receiver, j: nat): Option<Flow>
    requires j <= |es|
  {
    if j == 0 then Some(FRESH)
    else
      var g := AfterEvents(es, r, j - 1);
      if g.Some? && g.value.deleted then g
      else if g.Some? && FitsAll(g.value, es[j - 1].chunks) then Some(AfterEvent(g.value, es[j - 1], r))
      else None
  }

  lemma NextFlow(es: seq<Event>, r: Receiver, j: nat, f: Flow)
    requires 0 < j <= |es| && AfterEvents(es, r, j - 1) == Some(f)
    ensures f.deleted ==> AfterEvents(es, r, j) == Some(f)
    ensures !f.deleted && FitsAll(f, es[j - 1].chunks) ==> AfterEvents(es, r, j) == Some(AfterEvent(f, es[j - 1], r))
    ensures !f.deleted && !FitsAll(f, es[j - 1].chunks) ==> AfterEvents(es, r, j) == None
  {}

  predicate BreaksBefore(es: seq<Event>, j: nat)
    requires j <= |es|
  {
    exists i | 0 <= i < j :: Breaks(es[i])
  }

  predicate UntypedParse(f: Flow, r: Receiver) {
    exists b | b in f.parsed :: !r.hasType(b)
  }

  /** Whatever a connection carries: its flow is deleted if and only if the connection has broken, or some
      buffer that was parsed had no request type. */
  lemma {:induction false} DeletedExactly(es: seq<Event>, r: Receiver, j: nat)
    requires j <= |es| && AfterEvents(es, r, j).Some?
    ensures AfterEvents(es, r, j).value.deleted <==>
            BreaksBefore(es, j) || UntypedParse(AfterEvents(es, r, j).value, r)
  {
    if j > 0 {
      DeletedExactly(es, r, j - 1);
      var f, e := AfterEvents(es, r, j - 1).value, es[j - 1];
      NextFlow(es, r, j, f);
      assert BreaksBefore(es, j) <==> BreaksBefore(es, j - 1) || Breaks(e);
      if !f.deleted {
        DeletedByEvent(f, e, r);
      }
    }
  }

  lemma DeletedByEvent(f: Flow, e: Event, r: Receiver)
    requires FitsAll(f, e.chunks) && !f.deleted && !UntypedParse(f, r)
    ensures AfterEvent(f, e, r).deleted <==> Breaks(e) || UntypedParse(AfterEvent(f, e, r), r)
  {
    EventEnds(f, e, r);
    var g := AfterEvent(f, e, r);
    if |g.parsed| == |f.parsed| + 1 {
      assert g.parsed == f.parsed + [g.parsed[|f.parsed|]];
    }
  }

  /** The payload buffer after `c` bytes of the frame: what has arrived, then zeros. */
  function Snapshot(payload: seq<byte>, c: nat): seq<byte> {
    if 4 <= c <= |payload| + 4 then payload[..c - 4] + Zeros(|payload| - (c - 4)) else []
  }

  function Snapshots(payload: seq<byte>, stops: seq<nat>): seq<seq<byte>> {
    seq(|stops|, i requires 0 <= i < |stops| => Snapshot(payload, stops[i]))
  }

  /** The flow after `c` bytes of the frame, when the parser was run after the counts in `stops`. */
  function Receiving(payload: seq<byte>, c: nat, stops: seq<nat>): Flow
    requires c == 0 || 4 <= c
  {
    if c == 0 then FRESH.(parsed := Snapshots(payload, stops))
    else Flow(Some(Snapshot(payload, c)), |payload|, c, c - 4, Snapshots(payload, stops), false)
  }

  lemma SliceInTwo(frame: seq<byte>, c: nat, a: seq<byte>, b: seq<byte>)
    requires c + |a + b| <= |frame| && a + b == frame[c..c + |a + b|]
    ensures a == frame[c..c + |a|] && b == frame[c + |a|..c + |a| + |b|]
  {
    assert a == (a + b)[..|a|] && b == (a + b)[|a|..];
  }

  /** The first of the chunks that make up a piece of the frame, and the rest of them. */
  lemma ChunkByChunk(payload: seq<byte>, c: nat, chunks: seq<seq<byte>>)
    requires |payload| + 4 <= MAX_UINT32 && chunks != [] && c + |Concat(chunks)| <= |payload| + 4
    requires Concat(chunks) == Frame(payload)[c..c + |Concat(chunks)|]
    ensures var head, tail := chunks[0], Concat(chunks[1..]);
            && |Concat(chunks)| == |head| + |tail|
            && head == Frame(payload)[c..c + |head|]
            && tail == Frame(payload)[c + |head|..c + |head| + |tail|]
  {
    SliceInTwo(Frame(payload), c, chunks[0], Concat(chunks[1..]));
  }

  lemma FrameSlice(payload: seq<byte>, a: nat, b: nat)
    requires |payload| + 4 <= MAX_UINT32 && 4 <= a <= b <= |payload| + 4
    ensures Frame(payload)[a..b] == payload[a - 4..b - 4]
  {}

  lemma FirstChunk(payload: seq<byte>, stops: seq<nat>, chunk: seq<byte>)
    requires |payload| + 4 <= MAX_UINT32
    requires 4 <= |chunk| <= |payload| + 4 && chunk == Frame(payload)[..|chunk|]
    ensures Fits(Receiving(payload, 0, stops), chunk)
    ensures Absorb(Receiving(payload, 0, stops), chunk) == Receiving(payload, |chunk|, stops)
  {
    var rest := chunk[4..] + Zeros(4);
    assert chunk + Zeros(4) == LE32(|payload|) + rest;
    LengthRoundTrip(|payload|, rest);
    assert chunk[4..] == Frame(payload)[4..|chunk|];
    FrameSlice(payload, 4, |chunk|);
    if |chunk| == 4 {
      assert Snapshot(payload, 4) == Zeros(|payload|);
    }
  }

  lemma LaterChunk(payload: seq<byte>, c: nat, stops: seq<nat>, chunk: seq<byte>)
    requires |payload| + 4 <= MAX_UINT32 && 4 <= c
    requires c + |chunk| <= |payload| + 4 && chunk == Frame(payload)[c..c + |chunk|]
    ensures Fits(Receiving(payload, c, stops), chunk)
    ensures Absorb(Receiving(payload, c, stops), chunk) == Receiving(payload, c + |chunk|, stops)
  {
    FrameSlice(payload, c, c + |chunk|);
    var d := Snapshot(payload, c);
    assert d[..c - 4] + chunk + d[c - 4 + |chunk|..] == Snapshot(payload, c + |chunk|);
  }

  lemma {:induction false} AbsorbChunks(payload: seq<byte>, c: nat, stops: seq<nat>, chunks: seq<seq<byte>>)
    requires |payload| + 4 <= MAX_UINT32 && (c == 0 || 4 <= c)
    requires c == 0 && chunks != [] ==> |chunks[0]| >= 4
    requires c + |Concat(chunks)| <= |payload| + 4
    requires Concat(chunks) == Frame(payload)[c..c + |Concat(chunks)|]
    ensures FitsAll(Receiving(payload, c, stops), chunks)
    ensures AbsorbAll(Receiving(payload, c, stops), chunks) == Receiving(payload, c + |Concat(chunks)|, stops)
    decreases chunks
  {
    if chunks != [] {
      var head := chunks[0];
      ChunkByChunk(payload, c, chunks);
      if c == 0 {
        FirstChunk(payload, stops, head);
      } else {
        LaterChunk(payload, c, stops, head);
      }
      AbsorbChunks(payload, c + |head|, stops, chunks[1..]);
    }
  }

  /** The completion test after `c` bytes of the frame. Before the first byte the payload length is 0. */
  predicate Passes(payload: seq<byte>, c: nat, r: Receiver) {
    if c == 0 then r.counted == 0 else |payload| + r.counted <= c
  }

  function StopAt(payload: seq<byte>, c: nat, r: Receiver): seq<nat> {
    if Passes(payload, c, r) then [c] else []
  }

  /** The byte counts after which the test passes, among the first `j` events. */
  function Stops(payload: seq<byte>, es: seq<Event>, r: Receiver, j: nat): seq<nat>
    requires j <= |es|
  {
    if j == 0 then [] else Stops(payload, es, r, j - 1) + StopAt(payload, Count(es, j), r)
  }

  lemma EventLength(e: Event)
    requires Delivers(e)
    ensures e.chunks == [] <==> Len(e) == 0
    ensures e.chunks != [] ==> 0 < |e.chunks[0]| <= Len(e)
  {
    if e.chunks != [] {
      assert e.chunks[0] in e.chunks;
    }
  }

  lemma {:induction false} CountGrows(es: seq<Event>, i: nat, j: nat)
    requires i <= j <= |es|
    ensures Count(es, i) <= Count(es, j)
  {
    if i < j {
      CountGrows(es, i, j - 1);
    }
  }

  lemma SnapshotsAppend(payload: seq<byte>, stops: seq<nat>, c: nat)
    ensures Snapshots(payload, stops + [c]) == Snapshots(payload, stops) + [Snapshot(payload, c)]
  {}

  // ---- Parses that delete the flow

  predicate AllTyped(buffers: seq<seq<byte>>, r: Receiver) {
    forall i | 0 <= i < |buffers| :: r.hasType(buffers[i])
  }

  /** Of the buffers the test lets through, those up to the first without a request type: the parser runs on
      these and no more. */
  function UpToUntyped(buffers: seq<seq<byte>>, r: Receiver): seq<seq<byte>> {
    if buffers == [] then []
    else
      var init := buffers[..|buffers| - 1];
      if AllTyped(init, r) then buffers else UpToUntyped(init, r)
  }

  lemma UpToUntypedMore(buffers: seq<seq<byte>>, b: seq<byte>, r: Receiver)
    ensures UpToUntyped(buffers + [b], r) == if AllTyped(buffers, r) then buffers + [b] else UpToUntyped(buffers, r)
    ensures AllTyped(buffers + [b], r) <==> AllTyped(buffers, r) && r.hasType(b)
    ensures AllTyped(buffers, r) ==> UpToUntyped(buffers, r) == buffers
  {
    var more := buffers + [b];
    assert more[..|buffers|] == buffers && more[|buffers|] == b;
    if AllTyped(more, r) {
      forall i | 0 <= i < |buffers| ensures r.hasType(buffers[i]) {
        assert more[i] == buffers[i];
      }
    }
    if AllTyped(buffers, r) && buffers != [] {
      assert AllTyped(buffers[..|buffers| - 1], r);
    }
  }

  lemma {:induction false} UpToUntypedComesFrom(buffers: seq<seq<byte>>, r: Receiver, b: seq<byte>)
    requires b in UpToUntyped(buffers, r)
    ensures b in buffers
  {
    var init := buffers[..|buffers| - 1];
    if !AllTyped(init, r) {
      UpToUntypedComesFrom(init, r, b);
    }
  }

  /** One parse out of several means that its buffer had no request type. */
  lemma {:induction false} OneOfSeveral(buffers: seq<seq<byte>>, r: Receiver)
    requires |buffers| > 1
    ensures |UpToUntyped(buffers, r)| > 1 || (|UpToUntyped(buffers, r)| == 1 && !r.hasType(UpToUntyped(buffers, r)[0]))
  {
    var init := buffers[..|buffers| - 1];
    if !AllTyped(init, r) {
      if |init| > 1 {
        OneOfSeveral(init, r);
      } else {
        assert AllTyped(init[..0], r);
      }
    }
  }

  /** The flow after the test has let the buffers of `snaps` through: on as `g`, or deleted. */
  predicate ParsedUpTo(f: Flow, g: Flow, snaps: seq<seq<byte>>, r: Receiver) {
    f.parsed == UpToUntyped(snaps, r) && (if AllTyped(snaps, r) then f == g else f.deleted)
  }

  /** The test after the reads of an event, on a flow that has gone on as `g`. */
  lemma ParsedOneMore(g: Flow, g': Flow, c: nat, payload: seq<byte>, stops: seq<nat>, e: Event, r: Receiver)
    requires Delivers(e) && AllTyped(Snapshots(payload, stops), r) && !g.deleted
    requires g.parsed == Snapshots(payload, stops) && Buffer(g) == Snapshot(payload, c)
    requires g.lenTillNow >= g.payloadLen + r.counted <==> Passes(payload, c, r)
    requires g' == g.(parsed := Snapshots(payload, stops + StopAt(payload, c, r)))
    ensures ParsedUpTo(AfterReads(g, e, r), g', Snapshots(payload, stops + StopAt(payload, c, r)), r)
  {
    var snaps := Snapshots(payload, stops);
    UpToUntypedMore(snaps, Snapshot(payload, c), r);
    if Passes(payload, c, r) {
      SnapshotsAppend(payload, stops, c);
    } else {
      assert stops + [] == stops;
    }
  }

  /** A flow that has been deleted stays as it is when the test passes again. */
  lemma DeletedStays(f: Flow, g: Flow, g': Flow, c: nat, payload: seq<byte>, stops: seq<nat>, r: Receiver)
    requires ParsedUpTo(f, g, Snapshots(payload, stops), r) && !AllTyped(Snapshots(payload, stops), r)
    ensures ParsedUpTo(f, g', Snapshots(payload, stops + StopAt(payload, c, r)), r)
  {
    var snaps := Snapshots(payload, stops);
    UpToUntypedMore(snaps, Snapshot(payload, c), r);
    if Passes(payload, c, r) {
      SnapshotsAppend(payload, stops, c);
    } else {
      assert stops + [] == stops;
    }
  }

  // ---- The flow of a frame whose first chunk holds the length

  lemma ReceivingTest(payload: seq<byte>, c: nat, stops: seq<nat>, stops': seq<nat>, r: Receiver)
    requires c == 0 || 4 <= c <= |payload| + 4
    ensures var g := Receiving(payload, c, stops);
            && !g.deleted && g.parsed == Snapshots(payload, stops) && Buffer(g) == Snapshot(payload, c)
            && (g.lenTillNow >= g.payloadLen + r.counted <==> Passes(payload, c, r))
            && Receiving(payload, c, stops') == g.(parsed := Snapshots(payload, stops'))
  {}

  lemma OneEvent(
    payload: seq<byte>, c: nat, stops: seq<nat>, e: Event, r: Receiver, c': nat, stops': seq<nat>)
    requires |payload| + 4 <= MAX_UINT32 && (c == 0 || 4 <= c) && Delivers(e)
    requires c == 0 && e.chunks != [] ==> |e.chunks[0]| >= 4
    requires c' == c + Len(e) <= |payload| + 4 && Concat(e.chunks) == Frame(payload)[c..c']
    requires AllTyped(Snapshots(payload, stops), r) && stops' == stops + StopAt(payload, c', r)
    ensures c' == 0 || 4 <= c'
    ensures FitsAll(Receiving(payload, c, stops), e.chunks)
    ensures ParsedUpTo(AfterEvent(Receiving(payload, c, stops), e, r), Receiving(payload, c', stops'),
                       Snapshots(payload, stops'), r)
  {
    EventLength(e);
    AbsorbChunks(payload, c, stops, e.chunks);
    ReceivingTest(payload, c', stops, stops', r);
    ParsedOneMore(Receiving(payload, c', stops), Receiving(payload, c', stops'), c', payload, stops, e, r);
  }

  /** What the flow is after `j` events: one that goes on receiving, or one deleted by a parse. */
  predicate FlowIs(payload: seq<byte>, es: seq<Event>, r: Receiver, j: nat)
    requires j <= |es| && (Count(es, j) == 0 || 4 <= Count(es, j))
  {
    var stops := Stops(payload, es, r, j);
    && AfterEvents(es, r, j).Some?
    && ParsedUpTo(AfterEvents(es, r, j).value, Receiving(payload, Count(es, j), stops), Snapshots(payload, stops), r)
  }

  lemma FlowIsFrom(payload: seq<byte>, es: seq<Event>, r: Receiver, j: nat, f: Flow, c: nat, stops: seq<nat>)
    requires j <= |es| && c == Count(es, j) && stops == Stops(payload, es, r, j) && (c == 0 || 4 <= c)
    requires AfterEvents(es, r, j) == Some(f)
    requires ParsedUpTo(f, Receiving(payload, c, stops), Snapshots(payload, stops), r)
    ensures FlowIs(payload, es, r, j)
  {}

  lemma StillReceiving(payload: seq<byte>, es: seq<Event>, r: Receiver, j: nat, c: nat, stops: seq<nat>)
    requires |payload| + 4 <= MAX_UINT32 && 0 < j <= |es| && BringsPiece(payload, es, j - 1) && LongIfFirst(es, j - 1)
    requires c == Count(es, j - 1) && stops == Stops(payload, es, r, j - 1) && (c == 0 || 4 <= c)
    requires AllTyped(Snapshots(payload, stops), r)
    requires AfterEvents(es, r, j - 1) == Some(Receiving(payload, c, stops))
    ensures Count(es, j) == 0 || 4 <= Count(es, j)
    ensures FlowIs(payload, es, r, j)
  {
    var f, e, c', stops' := Receiving(payload, c, stops), es[j - 1], Count(es, j), Stops(payload, es, r, j);
    EventLength(e);
    OneEvent(payload, c, stops, e, r, c', stops');
    NextFlow(es, r, j, f);
    FlowIsFrom(payload, es, r, j, AfterEvent(f, e, r), c', stops');
  }

  lemma AlreadyDeleted(payload: seq<byte>, es: seq<Event>, r: Receiver, j: nat, f: Flow)
    requires 0 < j <= |es| && (Count(es, j - 1) == 0 || 4 <= Count(es, j - 1))
    requires Count(es, j) == 0 || 4 <= Count(es, j)
    requires FlowIs(payload, es, r, j - 1) && AfterEvents(es, r, j - 1) == Some(f)
    requires !AllTyped(Snapshots(payload, Stops(payload, es, r, j - 1)), r)
    ensures FlowIs(payload, es, r, j)
  {
    var stops, stops' := Stops(payload, es, r, j - 1), Stops(payload, es, r, j);
    NextFlow(es, r, j, f);
    DeletedStays(f, Receiving(payload, Count(es, j - 1), stops), Receiving(payload, Count(es, j), stops'),
                 Count(es, j), payload, stops, r);
  }

  lemma OneMoreEvent(payload: seq<byte>, es: seq<Event>, r: Receiver, j: nat)
    requires |payload| + 4 <= MAX_UINT32 && 0 < j <= |es| && BringsPiece(payload, es, j - 1) && LongIfFirst(es, j - 1)
    requires Count(es, j - 1) == 0 || 4 <= Count(es, j - 1)
    requires FlowIs(payload, es, r, j - 1)
    ensures Count(es, j) == 0 || 4 <= Count(es, j)
    ensures FlowIs(payload, es, r, j)
  {
    var f := AfterEvents(es, r, j - 1).value;
    EventLength(es[j - 1]);
    if AllTyped(Snapshots(payload, Stops(payload, es, r, j - 1)), r) {
      StillReceiving(payload, es, r, j, Count(es, j - 1), Stops(payload, es, r, j - 1));
    } else {
      AlreadyDeleted(payload, es, r, j, f);
    }
  }

  /** The flow after any number of events, in closed form. */
  lemma {:induction false} FlowAfter(payload: seq<byte>, es: seq<Event>, r: Receiver, j: nat)
    requires |payload| + 4 <= MAX_UINT32 && Carries(payload, es) && j <= |es|
    ensures Count(es, j) == 0 || 4 <= Count(es, j)
    ensures FlowIs(payload, es, r, j)
  {
    if j == 0 {
      assert Snapshots(payload, []) == [];
    } else {
      FlowAfter(payload, es, r, j - 1);
      assert BringsPiece(payload, es, j - 1) && LongIfFirst(es, j - 1);
      OneMoreEvent(payload, es, r, j);
    }
  }

  // ---- What the written test lets through

  /** A buffer that holds the payload up to its last four bytes or further, and zeros after that. */
  ghost predicate LacksAtMostFour(payload: seq<byte>, b: seq<byte>) {
    exists k :: 0 <= k <= |payload| <= k + 4 && b == payload[..k] + Zeros(|payload| - k)
  }

  lemma SnapshotLacks(payload: seq<byte>, c: nat)
    requires 4 <= c && |payload| <= c <= |payload| + 4
    ensures LacksAtMostFour(payload, Snapshot(payload, c))
  {
    var k := c - 4;
    assert Snapshot(payload, c) == payload[..k] + Zeros(|payload| - k);
  }

  lemma {:induction false} StopsPass(payload: seq<byte>, es: seq<Event>, r: Receiver, j: nat, i: nat)
    requires j <= |es| && i < |Stops(payload, es, r, j)|
    ensures exists m :: 0 < m <= j && Count(es, m) == Stops(payload, es, r, j)[i] && Passes(payload, Count(es, m), r)
  {
    var before := Stops(payload, es, r, j - 1);
    if i < |before| {
      StopsPass(payload, es, r, j - 1, i);
    } else {
      assert Count(es, j) == Stops(payload, es, r, j)[i];
    }
  }

  /** As long as the flow lives, `currLen` is four less than `lenTillNow` once the first byte is there. Every
      buffer the parser is run on is a prefix of the payload that lacks at most four bytes, or empty and
      from before the first byte. */
  lemma AlmostComplete(payload: seq<byte>, es: seq<Event>, hasType: seq<byte> -> bool, j: nat)
    requires |payload| + 4 <= MAX_UINT32 && Carries(payload, es) && 0 < j <= |es|
    ensures AfterEvents(es, Receiver(0, hasType), j).Some?
    ensures var f := AfterEvents(es, Receiver(0, hasType), j).value;
            && (!f.deleted && Count(es, j) > 0 ==> f.currLen + 4 == f.lenTillNow == Count(es, j))
            && forall b | b in f.parsed :: LacksAtMostFour(payload, b) || (b == [] && es[0].chunks == [])
  {
    var r := Receiver(0, hasType);
    FlowAfter(payload, es, r, j);
    var f, stops := AfterEvents(es, r, j).value, Stops(payload, es, r, j);
    forall b | b in f.parsed ensures LacksAtMostFour(payload, b) || (b == [] && es[0].chunks == []) {
      UpToUntypedComesFrom(Snapshots(payload, stops), r, b);
      var i :| 0 <= i < |stops| && Snapshot(payload, stops[i]) == b;
      StopsPass(payload, es, r, j, i);
      var m :| 0 < m <= j && Count(es, m) == stops[i] && Passes(payload, Count(es, m), r);
      BufferAt(payload, es, r, m);
    }
  }

  lemma BufferAt(payload: seq<byte>, es: seq<Event>, r: Receiver, m: nat)
    requires |payload| + 4 <= MAX_UINT32 && Carries(payload, es) && 0 < m <= |es| && r.counted == 0
    requires Passes(payload, Count(es, m), r)
    ensures var b := Snapshot(payload, Count(es, m));
            LacksAtMostFour(payload, b) || (b == [] && es[0].chunks == [])
  {
    FlowAfter(payload, es, r, m);
    assert BringsPiece(payload, es, m - 1) && BringsPiece(payload, es, 0);
    if Count(es, m) == 0 {
      CountGrows(es, 1, m);
      assert Count(es, 1) == Len(es[0]);
      EventLength(es[0]);
    } else {
      SnapshotLacks(payload, Count(es, m));
    }
  }

  // ---- Parsed once

  /** The test fails after the first `j` events. */
  predicate FailsAfter(payload: seq<byte>, es: seq<Event>, r: Receiver, j: nat)
    requires j <= |es|
  {
    !Passes(payload, Count(es, j), r)
  }

  /** The test fails after every event but the last. */
  predicate NoEarlyPass(payload: seq<byte>, es: seq<Event>, r: Receiver) {
    forall j | 0 < j < |es| :: FailsAfter(payload, es, r, j)
  }

  lemma {:induction false} NoStops(payload: seq<byte>, es: seq<Event>, r: Receiver, j: nat)
    requires j <= |es|
    ensures Stops(payload, es, r, j) == [] <==> forall i | 0 < i <= j :: FailsAfter(payload, es, r, i)
  {
    if j > 0 {
      NoStops(payload, es, r, j - 1);
      var before, at := Stops(payload, es, r, j - 1), StopAt(payload, Count(es, j), r);
      assert |before + at| == |before| + |at|;
      assert Stops(payload, es, r, j) == [] <==> before == [] && FailsAfter(payload, es, r, j);
    }
  }

  /** Once the whole frame is there the last stop is its end, and it is the only one when the test failed
      before. */
  lemma LastStop(payload: seq<byte>, es: seq<Event>, r: Receiver)
    requires es != [] && Count(es, |es|) == |payload| + 4 && r.counted <= 4
    ensures var stops := Stops(payload, es, r, |es|);
            && stops == Stops(payload, es, r, |es| - 1) + [|payload| + 4]
            && (|stops| == 1 <==> NoEarlyPass(payload, es, r))
  {
    NoStops(payload, es, r, |es| - 1);
    var before := Stops(payload, es, r, |es| - 1);
    assert |before + [|payload| + 4]| == |before| + 1;
  }

  /** Of the buffers let through up to the end of the frame only the payload is parsed, exactly when there was
      no other. */
  lemma OneSnapshot(payload: seq<byte>, stops: seq<nat>, r: Receiver)
    requires stops != [] && stops[|stops| - 1] == |payload| + 4 && r.hasType(payload)
    ensures UpToUntyped(Snapshots(payload, stops), r) == [payload] <==> |stops| == 1
  {
    var snaps := Snapshots(payload, stops);
    assert Snapshot(payload, |payload| + 4) == payload;
    assert |snaps| == |stops| && snaps[|snaps| - 1] == payload;
    if |stops| == 1 {
      assert snaps == [payload] && AllTyped(snaps[..0], r);
    } else {
      OneOfSeveral(snaps, r);
    }
  }

  /** A frame that has arrived completely was parsed exactly once, on exactly the payload, if and only
      if the completion test failed after every event but the last. */
  lemma ParsedOnceExactly(payload: seq<byte>, es: seq<Event>, r: Receiver)
    requires |payload| + 4 <= MAX_UINT32 && Complete(payload, es) && r.counted <= 4 && r.hasType(payload)
    ensures AfterEvents(es, r, |es|).Some?
    ensures AfterEvents(es, r, |es|).value.parsed == [payload] <==> NoEarlyPass(payload, es, r)
  {
    FlowAfter(payload, es, r, |es|);
    LastStop(payload, es, r);
    OneSnapshot(payload, Stops(payload, es, r, |es|), r);
  }

  /** With the header allowed for, chunking does not matter: every split of the frame is parsed once, on
      exactly the payload, unless events follow that bring nothing. */
  lemma ExactTestIsChunkingIndependent(payload: seq<byte>, es: seq<Event>, hasType: seq<byte> -> bool)
    requires |payload| + 4 <= MAX_UINT32 && Complete(payload, es) && hasType(payload)
    ensures AfterEvents(es, Receiver(4, hasType), |es|).Some?
    ensures AfterEvents(es, Receiver(4, hasType), |es|).value.parsed == [payload] <==> es[|es| - 1].chunks != []
  {
    ParsedOnceExactly(payload, es, Receiver(4, hasType));
    LastEventCompletes(payload, es, Receiver(4, hasType));
  }

  lemma LastEventCompletes(payload: seq<byte>, es: seq<Event>, r: Receiver)
    requires |payload| + 4 <= MAX_UINT32 && Complete(payload, es) && r.counted == 4
    ensures NoEarlyPass(payload, es, r) <==> es[|es| - 1].chunks != []
  {
    var n := |es|;
    assert BringsPiece(payload, es, n - 1);
    EventLength(es[n - 1]);
    if es[n - 1].chunks != [] {
      forall j | 0 < j < n ensures FailsAfter(payload, es, r, j) {
        CountGrows(es, j, n - 1);
      }
    } else {
      assert Count(es, n - 1) == |payload| + 4 && !FailsAfter(payload, es, r, n - 1);
    }
  }

  /** The written test on a frame whose last byte comes in an event of its own: the last buffer let through
      before is the payload with a zero for its last byte. The payload itself is parsed after it when a
      request type was found in all buffers before, and not at all otherwise. */
  lemma WrittenTestParsesTwice(payload: seq<byte>, es: seq<Event>, hasType: seq<byte> -> bool)
    requires 0 < |payload| && |payload| + 4 <= MAX_UINT32 && Complete(payload, es)
    requires 1 < |es| && Count(es, |es| - 1) == |payload| + 3
    ensures AfterEvents(es, Receiver(0, hasType), |es|).Some?
    ensures var early := Snapshots(payload, Stops(payload, es, Receiver(0, hasType), |es| - 1));
            && early != [] && early[|early| - 1] == payload[..|payload| - 1] + [0]
            && AfterEvents(es, Receiver(0, hasType), |es|).value.parsed ==
               if AllTyped(early, Receiver(0, hasType)) then early + [payload]
               else UpToUntyped(early, Receiver(0, hasType))
  {
    var r, n := Receiver(0, hasType), |es|;
    FlowAfter(payload, es, r, n);
    LastStop(payload, es, r);
    var stops := Stops(payload, es, r, n - 1);
    assert stops == Stops(payload, es, r, n - 2) + [|payload| + 3];
    LastTwoSnapshots(payload);
    SnapshotsAppend(payload, Stops(payload, es, r, n - 2), |payload| + 3);
    SnapshotsAppend(payload, stops, |payload| + 4);
    UpToUntypedMore(Snapshots(payload, stops), payload, r);
  }

  lemma LastTwoSnapshots(payload: seq<byte>)
    requires 0 < |payload|
    ensures Snapshot(payload, |payload| + 3) == payload[..|payload| - 1] + [0]
    ensures Snapshot(payload, |payload| + 4) == payload
  {}

  lemma OneChunk(chunk: seq<byte>)
    ensures Concat([chunk]) == chunk
  {
    assert [chunk][1..] == [];
    assert chunk + [] == chunk;
  }

  /** The message GET "k2", the same with a zero for its last byte, and a delivery that cuts it there. */
  const GET_K2: seq<byte> := [8, 1, 18, 2, 107, 50]
  const GET_K: seq<byte> := [8, 1, 18, 2, 107, 0]
  const LAST_BYTE_LATE: seq<Event> := [Event([[6, 0, 0, 0, 8, 1, 18, 2, 107]], Blocked), Event([[50]], Blocked)]

  lemma LastByteLateIsComplete()
    ensures Complete(GET_K2, LAST_BYTE_LATE)
    ensures Count(LAST_BYTE_LATE, 1) == 9 && Count(LAST_BYTE_LATE, 2) == 10
  {
    var es := LAST_BYTE_LATE;
    OneChunk([6, 0, 0, 0, 8, 1, 18, 2, 107]);
    OneChunk([50]);
    assert Count(es, 0) == 0 && Count(es, 1) == 9 && Count(es, 2) == 10;
    assert Frame(GET_K2) == [6, 0, 0, 0, 8, 1, 18, 2, 107, 50];
    assert Frame(GET_K2)[0..9] == [6, 0, 0, 0, 8, 1, 18, 2, 107] && Frame(GET_K2)[9..10] == [50];
    assert BringsPiece(GET_K2, es, 0) && BringsPiece(GET_K2, es, 1);
    assert LongIfFirst(es, 0) && LongIfFirst(es, 1);
  }

  /** A real request cut before its last byte: first a GET of another key is parsed, and then the GET that was
      sent, since the other has a request type as well. */
  lemma GetParsedTwice(hasType: seq<byte> -> bool)
    ensures AfterEvents(LAST_BYTE_LATE, Receiver(0, hasType), 2).Some?
    ensures AfterEvents(LAST_BYTE_LATE, Receiver(0, hasType), 2).value.parsed ==
            if hasType(GET_K) then [GET_K, GET_K2] else [GET_K]
  {
    var es, r := LAST_BYTE_LATE, Receiver(0, hasType);
    LastByteLateIsComplete();
    WrittenTestParsesTwice(GET_K2, es, hasType);
    assert Stops(GET_K2, es, r, 0) == [] && Stops(GET_K2, es, r, 1) == [9];
    var early := Snapshots(GET_K2, [9]);
    assert GET_K2[..5] + [0] == GET_K && early == [GET_K];
    UpToUntypedMore([], GET_K, r);
    assert [] + [GET_K] == [GET_K];
  }
}
