/** The loop that writes a response to a non-blocking socket: short writes advance, retryable errors
    repeat, any other error gives up. */
module SocketWrites {
  import opened TcpFlows

  /** What one call of `write` does: accept up to `n` bytes, fail with a retryable error, or fail. */
  datatype WriteResult = Accepts(n: nat) | Again | Broken

  function Min(a: nat, b: nat): nat {
    if a <= b then a else b
  }

  /** Bytes the socket would accept before the first hard error, if there were enough to write. */
  function Offered(script: seq<WriteResult>): nat {
    if script == [] then 0
    else match script[0]
      case Accepts(n) => n + Offered(script[1..])
      case Again => Offered(script[1..])
      case Broken => 0
  }

  /** How a write loop can end: with the count it returns, with -1, or not within the script. */
  datatype Outcome = Returned(bytes: nat) | GaveUp | StillWriting

  lemma {:induction false} OfferedPrefix(script: seq<WriteResult>, i: nat)
    requires i < |script| && Broken !in script[..i]
    ensures Offered(script[..i + 1]) == Offered(script[..i]) + (if script[i].Accepts? then script[i].n else 0)
    ensures Offered(script[..i]) <= Offered(script)
    ensures script[i].Broken? ==> Offered(script) == Offered(script[..i])
    decreases i
  {
    if i > 0 {
      assert script[..i][1..] == script[1..][..i - 1] && script[..i + 1][1..] == script[1..][..i];
      assert script[0] in script[..i];
      assert forall x | x in script[1..][..i - 1] :: x in script[..i][1..];
      OfferedPrefix(script[1..], i - 1);
    }
  }

  /** Returns the length exactly when the socket accepts that much before any hard error; then the bytes
      written are the buffer, in order. Otherwise what was written is a proper prefix of it. */
  method SocketWriteData(buf: seq<byte>, script: seq<WriteResult>) returns (r: Outcome, written: seq<byte>)
    requires |buf| <= 0x7FFF_FFFF
    ensures written <= buf
    ensures r.Returned? <==> |buf| <= Offered(script)
    ensures r.Returned? ==> r.bytes == |buf| && written == buf
    ensures !r.Returned? ==> |written| == Offered(script) < |buf|
    ensures r.GaveUp? <==> Offered(script) < |buf| && Broken in script
    ensures Broken !in script && |buf| <= Productive(script) ==> r.Returned?
  {
    if Broken !in script {
      ProductiveCallsSuffice(script);
    }
    var remaining, at, bytes, i := |buf|, 0, 0, 0;
    written := [];
    while remaining > 0 && i < |script|
      invariant 0 <= i <= |script| && 0 <= remaining && Broken !in script[..i]
      invariant at == bytes == |written| && at + remaining == |buf| && written == buf[..at]
      invariant at == Min(|buf|, Offered(script[..i])) && (remaining > 0 ==> at == Offered(script[..i]))
      invariant Offered(script[..i]) <= Offered(script)
      decreases |script| - i
    {
      OfferedPrefix(script, i);
      assert script[..i + 1] == script[..i] + [script[i]];
      match script[i]
      case Broken =>
        assert script[i] in script;
        return GaveUp, written;
      case Again =>
        i := i + 1;
      case Accepts(k) =>
        var n := Min(k, remaining);
        written := written + buf[at..at + n];
        remaining, at, bytes := remaining - n, at + n, bytes + n;
        i := i + 1;
      OfferedMonotone(script, i);
    }
    if remaining > 0 {
      assert script[..i] == script;
      return StillWriting, written;
    }
    return Returned(bytes), written;
  }

  lemma {:induction false} OfferedMonotone(script: seq<WriteResult>, i: nat)
    requires i <= |script|
    ensures Offered(script[..i]) <= Offered(script)
    decreases i
  {
    if i > 0 {
      assert script[..i][1..] == script[1..][..i - 1];
      OfferedMonotone(script[1..], i - 1);
    }
  }

  /** Calls that accept at least one byte. */
  function Productive(script: seq<WriteResult>): nat {
    if script == [] then 0
    else (if script[0].Accepts? && script[0].n > 0 then 1 else 0) + Productive(script[1..])
  }

  /** Retries do not matter: without a hard error, as many productive calls as there are bytes are
      enough for the loop to return. */
  lemma {:induction false} ProductiveCallsSuffice(script: seq<WriteResult>)
    requires Broken !in script
    ensures Productive(script) <= Offered(script)
  {
    if script != [] {
      assert script[0] in script;
      assert forall x | x in script[1..] :: x in script;
      ProductiveCallsSuffice(script[1..]);
    }
  }
}
