/** One client connection at the server: reassembly of a length-prefixed message from whatever chunks
    the reads deliver, and the loop that writes a response with short writes and retries. */
module TcpFlows {
  import opened Wrappers

  type byte = x: int | 0 <= x < 256

  const NUM_READ_TRY: nat := 50
  const MAX_UINT32: nat := 0xFFFF_FFFF

  // ---- Framing

  function LowByte(n: nat): byte {
    n % 256
  }

  function LE32(n: nat): (b: seq<byte>)
    requires n <= MAX_UINT32
    ensures |b| == 4
  {
    [LowByte(n), LowByte(n / 256), LowByte(n / 65536), LowByte(n / 16777216)]
  }

  function FromLE32(b: seq<byte>): nat
    requires |b| >= 4
  {
    b[0] as int + 256 * (b[1] as int) + 65536 * (b[2] as int) + 16777216 * (b[3] as int)
  }

  /** What the client sends: the payload length, then the payload. */
  function Frame(payload: seq<byte>): seq<byte>
    requires |payload| <= MAX_UINT32
  {
    LE32(|payload|) + payload
  }

  lemma LengthRoundTrip(n: nat, rest: seq<byte>)
    requires n < 0x1_0000_0000
    ensures FromLE32(LE32(n) + rest) == n
  {
    var a, b, c := n / 256, n / 65536, n / 16777216;
    assert a / 256 == b && b / 256 == c;
    assert n == 256 * a + n % 256 && a == 256 * b + a % 256 && b == 256 * c + b % 256;
  }

  /** The client's buffer handling: the length is copied in front of the serialised payload. */
  method BuildFrame(payload: array<byte>) returns (sendBuffer: array<byte>)
    requires payload.Length + 4 <= MAX_UINT32
    ensures fresh(sendBuffer) && sendBuffer[..] == Frame(payload[..])
  {
    var header := LE32(payload.Length);
    sendBuffer := new byte[payload.Length + 4](_ => 0);
    for i := 0 to 4
      invariant sendBuffer[..i] == header[..i]
    {
      sendBuffer[i] := header[i];
    }
    for i := 0 to payload.Length
      invariant sendBuffer[..4] == header && sendBuffer[4..4 + i] == payload[..i]
    {
      sendBuffer[4 + i] := payload[i];
    }
    assert sendBuffer[..] == sendBuffer[..4] + sendBuffer[4..];
  }

  // ---- Reassembly

  function Zeros(n: nat): seq<byte> {
    seq(n, _ => 0)
  }

  /** The value of a flow. `parsed` lists the buffers the parser was run on. */
  datatype Flow = Flow(
    data: Option<seq<byte>>, payloadLen: nat, lenTillNow: nat, currLen: nat,
    parsed: seq<seq<byte>>, deleted: bool)

  const FRESH: Flow := Flow(None, 0, 0, 0, [], false)

  /** How the reads of one event end: no more data for now, end of stream, or an error. */
  datatype End = Blocked | Closed | Failed

  /** The chunks that the reads of one event deliver, at most fifty, and how the reads end. */
  datatype Event = Event(chunks: seq<seq<byte>>, end: End)

  /** The length read from the start of a zero-filled read buffer holding the chunk. */
  function Header(chunk: seq<byte>): nat {
    FromLE32(chunk + Zeros(4))
  }

  /** The copies the code makes for this chunk stay inside the payload buffer. */
  predicate Fits(f: Flow, chunk: seq<byte>) {
    && f.lenTillNow + |chunk| <= MAX_UINT32
    && if f.data.Some? then f.currLen + |chunk| <= |f.data.value|
       else f.lenTillNow + |chunk| > 4 ==> 4 <= |chunk| <= 4 + Header(chunk)
  }

  /** The count of bytes is a word of 32 bits. */
  lemma CountFitsAWord(f: Flow, chunk: seq<byte>)
    ensures Fits(f, chunk) ==> f.lenTillNow + |chunk| < 0x1_0000_0000
    ensures f == FRESH && 0 < |chunk| < 4 ==> Fits(f, chunk)
  {}

  /** One successful read. */
  function Absorb(f: Flow, chunk: seq<byte>): Flow
    requires Fits(f, chunk)
  {
    var total := f.lenTillNow + |chunk|;
    match f.data
    case Some(d) =>
      f.(lenTillNow := total, currLen := f.currLen + |chunk|,
         data := Some(d[..f.currLen] + chunk + d[f.currLen + |chunk|..]))
    case None =>
      if total < 4 then f.(lenTillNow := total)
      else
        var n := Header(chunk);
        if total == 4 then f.(lenTillNow := total, payloadLen := n, data := Some(Zeros(n)))
        else f.(lenTillNow := total, payloadLen := n, currLen := |chunk| - 4,
                data := Some(chunk[4..] + Zeros(n - (|chunk| - 4))))
  }

  predicate FitsAll(f: Flow, chunks: seq<seq<byte>>)
    decreases chunks
  {
    chunks == [] || (Fits(f, chunks[0]) && FitsAll(Absorb(f, chunks[0]), chunks[1..]))
  }

  function AbsorbAll(f: Flow, chunks: seq<seq<byte>>): Flow
    requires FitsAll(f, chunks)
    decreases chunks
  {
    if chunks == [] then f else AbsorbAll(Absorb(f, chunks[0]), chunks[1..])
  }

  function Buffer(f: Flow): seq<byte> {
    if f.data.Some? then f.data.value else []
  }

  /** What decides about a parse. `counted` is how many header bytes the completion test allows for: the code
      has 0, comparing a count that includes the header with the bare payload length; 4 would be exact.
      `hasType` is whether the message parser finds a request type in a buffer. */
  datatype Receiver = Receiver(counted: nat, hasType: seq<byte> -> bool)

  /** Runs the parser, which deletes the flow when it finds no request type. */
  function Parse(g: Flow, r: Receiver): Flow {
    g.(parsed := g.parsed + [Buffer(g)], deleted := g.deleted || !r.hasType(Buffer(g)))
  }

  /** What follows the reads of an event. */
  function AfterReads(g: Flow, e: Event, r: Receiver): Flow {
    if |e.chunks| < NUM_READ_TRY && !e.end.Blocked? then g.(deleted := true)
    else if g.lenTillNow >= g.payloadLen + r.counted then Parse(g, r)
    else g
  }

  /** One read event. */
  function AfterEvent(f: Flow, e: Event, r: Receiver): Flow
    requires FitsAll(f, e.chunks)
  {
    AfterReads(AbsorbAll(f, e.chunks), e, r)
  }

  /** A read that finds the end of the stream or an error, among the fifty of the event. */
  predicate Breaks(e: Event) {
    |e.chunks| < 50 && (e.end == Closed || e.end == Failed)
  }

  /** The reads themselves neither parse nor delete. */
  lemma {:induction false} ReadsOnlyCollect(f: Flow, chunks: seq<seq<byte>>)
    requires FitsAll(f, chunks)
    ensures AbsorbAll(f, chunks).parsed == f.parsed && AbsorbAll(f, chunks).deleted == f.deleted
    decreases chunks
  {
    if chunks != [] {
      ReadsOnlyCollect(Absorb(f, chunks[0]), chunks[1..]);
    }
  }

  /** A broken connection deletes the flow, and nothing is parsed, however much has arrived. Otherwise the
      event parses at most once, and deletes a living flow exactly when that parse finds no type. */
  lemma EventEnds(f: Flow, e: Event, r: Receiver)
    requires FitsAll(f, e.chunks)
    ensures Breaks(e) ==> AfterEvent(f, e, r).deleted && AfterEvent(f, e, r).parsed == f.parsed
    ensures !Breaks(e) ==>
              var g := AfterEvent(f, e, r);
              if AbsorbAll(f, e.chunks).lenTillNow >= AbsorbAll(f, e.chunks).payloadLen + r.counted
              then |g.parsed| == |f.parsed| + 1 && g.parsed[..|f.parsed|] == f.parsed
                   && (g.deleted <==> f.deleted || !r.hasType(g.parsed[|f.parsed|]))
              else g.parsed == f.parsed && g.deleted == f.deleted
  {
    ReadsOnlyCollect(f, e.chunks);
  }

  lemma {:induction false} AbsorbOneMore(f: Flow, chunks: seq<seq<byte>>, i: nat)
    requires i < |chunks| && FitsAll(f, chunks[..i])
    ensures FitsAll(f, chunks[..i + 1]) <==> Fits(AbsorbAll(f, chunks[..i]), chunks[i])
    ensures FitsAll(f, chunks) ==> FitsAll(f, chunks[..i + 1])
    ensures FitsAll(f, chunks[..i + 1]) ==>
              AbsorbAll(f, chunks[..i + 1]) == Absorb(AbsorbAll(f, chunks[..i]), chunks[i])
    decreases i
  {
    if i == 0 {
      assert chunks[..1][1..] == [];
    } else {
      assert chunks[..i][1..] == chunks[1..][..i - 1] && chunks[..i + 1][1..] == chunks[1..][..i];
      AbsorbOneMore(Absorb(f, chunks[0]), chunks[1..], i - 1);
    }
  }

  class TcpFlow {
    var data: array?<byte>
    var payloadLen: nat
    var lenTillNow: nat
    var currLen: nat
    var deleted: bool
    ghost var parsed: seq<seq<byte>>

    ghost function Value(): Flow
      reads this, data
    {
      Flow(if data == null then None else Some(data[..]), payloadLen, lenTillNow, currLen, parsed, deleted)
    }

    constructor ()
      ensures Value() == FRESH
    {
      data, payloadLen, lenTillNow, currLen, deleted, parsed := null, 0, 0, 0, false, [];
    }

    method CopyIn(target: array<byte>, at: nat, source: seq<byte>)
      requires at + |source| <= target.Length
      modifies target
      ensures target[..] == old(target[..at]) + source + old(target[at + |source|..])
    {
      for i := 0 to |source|
        invariant target[..at] == old(target[..at]) && target[at..at + i] == source[..i]
        invariant target[at + |source|..] == old(target[at + |source|..])
      {
        target[at + i] := source[i];
      }
      assert target[..] == target[..at] + target[at..at + |source|] + target[at + |source|..];
    }

    /** The branch for a read of at least one byte. `ok` is whether the byte count does not wrap and every
        copy stays inside its buffer. */
    method OnChunk(buffer: seq<byte>) returns (ok: bool)
      modifies this, data
      ensures ok <==> Fits(old(Value()), buffer)
      ensures ok ==> Value() == Absorb(old(Value()), buffer)
      ensures data == old(data) || fresh(data)
    {
      var len := |buffer|;
      if lenTillNow + len > MAX_UINT32 {
        return false;
      }
      lenTillNow := lenTillNow + len;
      if data != null {
        if currLen + len > data.Length {
          return false;
        }
        CopyIn(data, currLen, buffer);
        currLen := currLen + len;
      } else if lenTillNow >= 4 {
        payloadLen := Header(buffer);
        data := new byte[payloadLen](_ => 0);
        assert data[..] == Zeros(payloadLen);
        if lenTillNow > 4 {
          if len < 4 || len - 4 > data.Length {
            return false;
          }
          var rest := buffer[4..];
          assert data[..0] == [] && data[0 + |rest|..] == Zeros(payloadLen - |rest|);
          CopyIn(data, 0, rest);
          assert data[..] == rest + Zeros(payloadLen - |rest|);
          currLen := len - 4;
        }
      }
      return true;
    }

    /** Parses the buffer and deletes the flow when it has no request type. */
    method Deserialise(hasType: seq<byte> -> bool)
      modifies this
      ensures Value() == Parse(old(Value()), Receiver(0, hasType)) && data == old(data)
    {
      var buffer := [];
      if data != null {
        buffer := data[..];
      }
      parsed := parsed + [buffer];
      if !hasType(buffer) {
        deleted := true;
      }
    }

    /** A read event: up to fifty reads, then the completion test. */
    method OnReadable(e: Event, hasType: seq<byte> -> bool) returns (ok: bool)
      requires |e.chunks| <= 50
      modifies this, data
      ensures ok <==> FitsAll(old(Value()), e.chunks)
      ensures ok ==> Value() == AfterEvent(old(Value()), e, Receiver(0, hasType))
    {
      assert e.chunks[..0] == [];
      var i := 0;
      while i < NUM_READ_TRY
        invariant 0 <= i <= NUM_READ_TRY && i <= |e.chunks|
        invariant FitsAll(old(Value()), e.chunks[..i]) && Value() == AbsorbAll(old(Value()), e.chunks[..i])
        invariant data == old(data) || fresh(data)
      {
        if i >= |e.chunks| {
          if !e.end.Blocked? {
            deleted := true;
            assert e.chunks[..i] == e.chunks;
            return true;
          }
          break;
        }
        AbsorbOneMore(old(Value()), e.chunks, i);
        ok := OnChunk(e.chunks[i]);
        if !ok {
          return;
        }
        i := i + 1;
      }
      assert e.chunks[..i] == e.chunks;
      if lenTillNow >= payloadLen {
        Deserialise(hasType);
      }
      return true;
    }
  }
}
