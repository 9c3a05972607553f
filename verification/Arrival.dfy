/** Frames that arrive in any chunks at all: first chunks that are shorter than the length prefix, empty
    payloads, and the exact condition for a request to be parsed once. */
module Arrival {
  import opened Reassembly
  import opened TcpFlows
  import opened Wrappers

  /** A first event of one to three bytes makes the written test run the parser on an empty buffer. */
  lemma ShortFirstChunkParsesNothing(chunk: seq<byte>, hasType: seq<byte> -> bool)
    requires 0 < |chunk| < 4
    ensures FitsAll(FRESH, [chunk])
    ensures AfterEvent(FRESH, Event([chunk], Blocked), Receiver(0, hasType)).parsed == [[]]
  {
    assert [chunk][1..] == [];
    assert AbsorbAll(FRESH, [chunk]) == Absorb(FRESH, chunk);
  }

  // ---- Late headers

  /** The buffer got its length from bytes that start `prev` bytes late, and its contents start `prev` bytes
      into the payload. */
  predicate Shifted(payload: seq<byte>, d: seq<byte>, cur: nat, prev: nat, c: nat)
    requires |payload| + 4 <= MAX_UINT32
  {
    && 0 < prev < 4 && prev + 4 <= c <= |payload| + 4 && cur == c - 4 - prev <= |d|
    && |d| == FromLE32(Frame(payload)[prev..prev + 4])
    && d == payload[prev..c - 4] + Zeros(|d| - cur)
  }

  ghost predicate WrongBuffer(payload: seq<byte>, d: seq<byte>, cur: nat, c: nat)
    requires |payload| + 4 <= MAX_UINT32
  {
    |d| < |payload| || exists prev: nat :: Shifted(payload, d, cur, prev, c)
  }

  /** A flow after `c` bytes whose first chunk was too short. */
  ghost predicate Misaligned(payload: seq<byte>, f: Flow, c: nat)
    requires |payload| + 4 <= MAX_UINT32
  {
    && f.lenTillNow == c && payload !in f.parsed
    && match f.data
       case None => c < 4
       case Some(d) => 4 <= c && WrongBuffer(payload, d, f.currLen, c)
  }

  /** What is left of the length without its first bytes is smaller than the length. */
  lemma LateLengthIsSmaller(n: nat, prev: nat, tail: seq<byte>)
    requires 0 < n <= MAX_UINT32 && 0 < prev < 4
    requires |tail| >= prev && forall i | 0 <= i < prev :: tail[i] == 0
    ensures FromLE32(LE32(n)[prev..] + tail) < n
  {
    var b := LE32(n);
    LengthRoundTrip(n, []);
    assert b + [] == b;
  }

  lemma {:induction false} ShiftedPayloadIsZero(payload: seq<byte>, cur: nat, prev: nat, c: nat, i: nat)
    requires |payload| + 4 <= MAX_UINT32 && i < |payload| && Shifted(payload, payload, cur, prev, c)
    ensures payload[i] == 0
    decreases |payload| - i
  {
    var tail := payload[prev..c - 4];
    if i < cur {
      assert payload[i] == tail[i] == payload[i + prev];
      ShiftedPayloadIsZero(payload, cur, prev, c, i + prev);
    } else {
      assert payload[i] == (tail + Zeros(|payload| - cur))[i] == 0;
    }
  }

  lemma WrongBufferIsNotPayload(payload: seq<byte>, d: seq<byte>, cur: nat, c: nat)
    requires 0 < |payload| && |payload| + 4 <= MAX_UINT32 && WrongBuffer(payload, d, cur, c)
    ensures d != payload
  {
    if d == payload {
      var prev: nat :| Shifted(payload, d, cur, prev, c);
      forall i: nat | i < |payload| ensures payload[i] == 0 {
        ShiftedPayloadIsZero(payload, cur, prev, c, i);
      }
      var tail := payload[..prev];
      assert Frame(payload)[prev..prev + 4] == LE32(|payload|)[prev..] + tail;
      LateLengthIsSmaller(|payload|, prev, tail);
      assert false;
    }
  }

  /** Length and contents of the buffer made when the fourth byte comes in a later chunk. */
  lemma LateHeader(payload: seq<byte>, f: Flow, c: nat, chunk: seq<byte>)
    requires 0 < |payload| && |payload| + 4 <= MAX_UINT32 && Misaligned(payload, f, c) && f.data == None && 0 < c
    requires 4 <= c + |chunk| <= |payload| + 4 && chunk == Frame(payload)[c..c + |chunk|] && Fits(f, chunk)
    ensures Misaligned(payload, Absorb(f, chunk), c + |chunk|)
  {
    var n := Header(chunk);
    if c + |chunk| == 4 {
      assert chunk == LE32(|payload|)[c..];
      LateLengthIsSmaller(|payload|, c, Zeros(4));
      assert |Zeros(n)| < |payload|;
    } else {
      assert chunk[..4] == Frame(payload)[c..c + 4];
      assert FromLE32(chunk + Zeros(4)) == FromLE32(chunk[..4]);
      assert chunk[4..] == Frame(payload)[c + 4..c + |chunk|];
      FrameSlice(payload, c + 4, c + |chunk|);
      assert Shifted(payload, chunk[4..] + Zeros(n - (|chunk| - 4)), |chunk| - 4, c, c + |chunk|);
    }
  }

  lemma ShiftedMore(payload: seq<byte>, d: seq<byte>, cur: nat, prev: nat, c: nat, chunk: seq<byte>)
    requires |payload| + 4 <= MAX_UINT32 && Shifted(payload, d, cur, prev, c)
    requires c + |chunk| <= |payload| + 4 && chunk == Frame(payload)[c..c + |chunk|] && cur + |chunk| <= |d|
    ensures Shifted(payload, d[..cur] + chunk + d[cur + |chunk|..], cur + |chunk|, prev, c + |chunk|)
  {
    FrameSlice(payload, c, c + |chunk|);
    var head, c' := payload[prev..c - 4], c + |chunk|;
    assert d[..cur] == head && head + chunk == payload[prev..c' - 4];
    assert d[cur + |chunk|..] == Zeros(|d| - cur - |chunk|);
  }

  lemma MisalignedChunk(payload: seq<byte>, f: Flow, c: nat, chunk: seq<byte>)
    requires 0 < |payload| && |payload| + 4 <= MAX_UINT32 && Misaligned(payload, f, c) && Fits(f, chunk)
    requires c == 0 ==> |chunk| < 4
    requires c + |chunk| <= |payload| + 4 && chunk == Frame(payload)[c..c + |chunk|]
    ensures Misaligned(payload, Absorb(f, chunk), c + |chunk|)
  {
    if f.data.Some? {
      var d := f.data.value;
      if |d| >= |payload| {
        var prev: nat :| Shifted(payload, d, f.currLen, prev, c);
        ShiftedMore(payload, d, f.currLen, prev, c, chunk);
      }
    } else if c + |chunk| >= 4 {
      LateHeader(payload, f, c, chunk);
    }
  }

  lemma {:induction false} MisalignedChunks(payload: seq<byte>, f: Flow, c: nat, chunks: seq<seq<byte>>)
    requires 0 < |payload| && |payload| + 4 <= MAX_UINT32 && Misaligned(payload, f, c) && FitsAll(f, chunks)
    requires c == 0 && chunks != [] ==> 0 < |chunks[0]| < 4
    requires c + |Concat(chunks)| <= |payload| + 4
    requires Concat(chunks) == Frame(payload)[c..c + |Concat(chunks)|]
    ensures Misaligned(payload, AbsorbAll(f, chunks), c + |Concat(chunks)|)
    decreases chunks
  {
    if chunks != [] {
      ChunkByChunk(payload, c, chunks);
      MisalignedChunk(payload, f, c, chunks[0]);
      MisalignedChunks(payload, Absorb(f, chunks[0]), c + |chunks[0]|, chunks[1..]);
    }
  }

  /** A misaligned flow, or one deleted before the payload was parsed. */
  ghost predicate NoPayloadYet(payload: seq<byte>, f: Flow, c: nat)
    requires |payload| + 4 <= MAX_UINT32
  {
    payload !in f.parsed && (f.deleted || Misaligned(payload, f, c))
  }

  lemma MisalignedReads(payload: seq<byte>, g: Flow, c: nat, e: Event, r: Receiver)
    requires 0 < |payload| && |payload| + 4 <= MAX_UINT32 && Misaligned(payload, g, c)
    ensures NoPayloadYet(payload, AfterReads(g, e, r), c)
  {
    if g.data.Some? {
      WrongBufferIsNotPayload(payload, g.data.value, g.currLen, c);
    }
  }

  lemma SomethingBefore(es: seq<Event>, i: nat, j: nat)
    requires i < j <= |es| && Delivers(es[i]) && es[i].chunks != []
    ensures 0 < Count(es, j)
  {
    EventLength(es[i]);
    CountGrows(es, i + 1, j);
  }

  /** Only one event brings the very first chunk. */
  lemma OneFirstEvent(es: seq<Event>, i: nat, j: nat)
    requires i < |es| && j < |es| && Delivers(es[i]) && Delivers(es[j])
    requires Count(es, i) == Count(es, j) == 0 && es[i].chunks != [] && es[j].chunks != []
    ensures i == j
  {
    if i < j {
      SomethingBefore(es, i, j);
    }
    if j < i {
      SomethingBefore(es, j, i);
    }
  }

  lemma ShortIfFirst(payload: seq<byte>, es: seq<Event>, j: nat)
    requires |payload| + 4 <= MAX_UINT32 && Brings(payload, es) && !LongFirstChunk(es) && j < |es|
    requires Count(es, j) == 0 && es[j].chunks != []
    ensures 0 < |es[j].chunks[0]| < 4
  {
    var i: nat :| i < |es| && !LongIfFirst(es, i);
    assert BringsPiece(payload, es, i) && BringsPiece(payload, es, j);
    OneFirstEvent(es, i, j);
    EventLength(es[j]);
  }

  /** With a first chunk that is too short no buffer the parser is run on is the payload. */
  lemma {:induction false} NeverParsesPayload(payload: seq<byte>, es: seq<Event>, r: Receiver, j: nat)
    requires 0 < |payload| && |payload| + 4 <= MAX_UINT32 && Brings(payload, es) && !LongFirstChunk(es)
    requires j <= |es| && AfterEvents(es, r, j).Some?
    ensures NoPayloadYet(payload, AfterEvents(es, r, j).value, Count(es, j))
  {
    if j > 0 {
      NeverParsesPayload(payload, es, r, j - 1);
      var f, e, c := AfterEvents(es, r, j - 1).value, es[j - 1], Count(es, j - 1);
      NextFlow(es, r, j, f);
      if !f.deleted {
        assert BringsPiece(payload, es, j - 1);
        if c == 0 && e.chunks != [] {
          ShortIfFirst(payload, es, j - 1);
        }
        MisalignedChunks(payload, f, c, e.chunks);
        MisalignedReads(payload, AbsorbAll(f, e.chunks), Count(es, j), e, r);
      }
    }
  }

  // ---- Empty payloads

  /** A flow after `c` bytes of a frame without a payload. */
  function Hollow(c: nat, parsed: seq<seq<byte>>): Flow {
    FRESH.(lenTillNow := c, data := if c == 4 then Some([]) else None, parsed := parsed)
  }

  lemma ZeroHeader(chunk: seq<byte>)
    requires forall i | 0 <= i < |chunk| :: chunk[i] == 0
    ensures Header(chunk) == 0
  {
    var b := chunk + Zeros(4);
    assert b[0] == b[1] == b[2] == b[3] == 0;
  }

  lemma ZeroPiece(c: nat, chunk: seq<byte>)
    requires c + |chunk| <= 4 && chunk == Frame([])[c..c + |chunk|]
    ensures Header(chunk) == 0
  {
    assert Frame([]) == [0, 0, 0, 0];
    ZeroHeader(chunk);
  }

  lemma {:induction false} HollowChunks(c: nat, parsed: seq<seq<byte>>, chunks: seq<seq<byte>>)
    requires c + |Concat(chunks)| <= 4 && Concat(chunks) == Frame([])[c..c + |Concat(chunks)|]
    requires forall x | x in chunks :: 0 < |x|
    ensures FitsAll(Hollow(c, parsed), chunks)
    ensures AbsorbAll(Hollow(c, parsed), chunks) == Hollow(c + |Concat(chunks)|, parsed)
    decreases chunks
  {
    if chunks != [] {
      var chunk := chunks[0];
      assert chunk in chunks && forall x | x in chunks[1..] :: x in chunks;
      ChunkByChunk([], c, chunks);
      ZeroPiece(c, chunk);
      HollowChunk(c, parsed, chunk);
      HollowChunks(c + |chunk|, parsed, chunks[1..]);
    }
  }

  lemma HollowChunk(c: nat, parsed: seq<seq<byte>>, chunk: seq<byte>)
    requires 0 < |chunk| && c + |chunk| <= 4 && Header(chunk) == 0
    ensures Fits(Hollow(c, parsed), chunk) && Absorb(Hollow(c, parsed), chunk) == Hollow(c + |chunk|, parsed)
  {
    assert Zeros(0) == [];
  }

  /** The flow of an empty payload after `j` events: one that goes on, or one deleted by a parse. */
  predicate HollowAfter(es: seq<Event>, r: Receiver, j: nat)
    requires j <= |es|
  {
    var snaps := Snapshots([], Stops([], es, r, j));
    AfterEvents(es, r, j).Some? && ParsedUpTo(AfterEvents(es, r, j).value, Hollow(Count(es, j), snaps), snaps, r)
  }

  lemma HollowEvent(c: nat, stops: seq<nat>, e: Event, r: Receiver, c': nat, stops': seq<nat>)
    requires Delivers(e) && c' == c + Len(e) <= 4 && Concat(e.chunks) == Frame([])[c..c']
    requires AllTyped(Snapshots([], stops), r) && stops' == stops + StopAt([], c', r)
    ensures FitsAll(Hollow(c, Snapshots([], stops)), e.chunks)
    ensures ParsedUpTo(AfterEvent(Hollow(c, Snapshots([], stops)), e, r), Hollow(c', Snapshots([], stops')),
                       Snapshots([], stops'), r)
  {
    HollowChunks(c, Snapshots([], stops), e.chunks);
    assert Snapshot([], c') == [];
    ParsedOneMore(Hollow(c', Snapshots([], stops)), Hollow(c', Snapshots([], stops')), c', [], stops, e, r);
  }

  lemma HollowOnce(es: seq<Event>, r: Receiver, j: nat, f: Flow, c: nat, stops: seq<nat>)
    requires 0 < j <= |es| && BringsPiece([], es, j - 1) && AfterEvents(es, r, j - 1) == Some(f)
    requires c == Count(es, j - 1) && stops == Stops([], es, r, j - 1)
    requires ParsedUpTo(f, Hollow(c, Snapshots([], stops)), Snapshots([], stops), r)
    ensures HollowAfter(es, r, j)
  {
    var c', stops' := Count(es, j), Stops([], es, r, j);
    NextFlow(es, r, j, f);
    if AllTyped(Snapshots([], stops), r) {
      HollowEvent(c, stops, es[j - 1], r, c', stops');
    } else {
      DeletedStays(f, Hollow(c, Snapshots([], stops)), Hollow(c', Snapshots([], stops')), c', [], stops, r);
    }
  }

  lemma HollowAtFirst(es: seq<Event>, r: Receiver)
    ensures HollowAfter(es, r, 0)
  {
    assert Stops([], es, r, 0) == [] && Snapshots([], []) == [];
    assert AfterEvents(es, r, 0) == Some(FRESH) && Hollow(0, []) == FRESH;
  }

  lemma {:induction false} HollowEvents(es: seq<Event>, r: Receiver, j: nat)
    requires j <= |es| && forall i: nat | i < |es| :: BringsPiece([], es, i)
    ensures HollowAfter(es, r, j)
  {
    if j == 0 {
      HollowAtFirst(es, r);
    } else {
      HollowEvents(es, r, j - 1);
      HollowOnce(es, r, j, AfterEvents(es, r, j - 1).value, Count(es, j - 1), Stops([], es, r, j - 1));
    }
  }

  // ---- The exact condition

  lemma EmptyReceivedOnceExactly(es: seq<Event>, r: Receiver)
    requires Delivered([], es) && r.counted <= 4 && r.hasType([])
    ensures AfterEvents(es, r, |es|).Some?
    ensures AfterEvents(es, r, |es|).value.parsed == [[]] <==> NoEarlyPass([], es, r)
  {
    HollowEvents(es, r, |es|);
    LastStop([], es, r);
    OneSnapshot([], Stops([], es, r, |es|), r);
  }

  /** A frame that has arrived, in any chunks and events at all, is handled without leaving a buffer and parsed
      exactly once, on exactly the payload, if and only if the very first chunk held the length prefix (or
      the payload is empty) and the completion test failed after every event but the last. */
  lemma ReceivedOnceExactly(payload: seq<byte>, es: seq<Event>, r: Receiver)
    requires |payload| + 4 <= MAX_UINT32 && Delivered(payload, es) && r.counted <= 4 && r.hasType(payload)
    ensures (AfterEvents(es, r, |es|).Some? && AfterEvents(es, r, |es|).value.parsed == [payload]) <==>
            (LongFirstChunk(es) || payload == []) && NoEarlyPass(payload, es, r)
  {
    if LongFirstChunk(es) {
      ParsedOnceExactly(payload, es, r);
    } else if payload == [] {
      EmptyReceivedOnceExactly(es, r);
    } else if AfterEvents(es, r, |es|).Some? {
      NeverParsesPayload(payload, es, r, |es|);
      assert payload in [payload];
    }
  }
}
