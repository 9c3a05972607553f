/** The client's division of work among threads, and the merging, sorting and batched writing of what
    the threads bring back. */
module ClientResults {
  import opened Wrappers
  import opened Division

  function Flatten<T>(xs: seq<seq<T>>): seq<T> {
    if xs == [] then [] else Flatten(xs[..|xs| - 1]) + xs[|xs| - 1]
  }

  lemma FlattenAppend<T>(xs: seq<seq<T>>, x: seq<T>)
    ensures Flatten(xs + [x]) == Flatten(xs) + x
  {
    assert (xs + [x])[..|xs|] == xs;
  }

  // ---- Partition

  lemma OneChunkLess(left: nat, size: nat)
    requires 0 < left
    ensures left * size == (left - 1) * size + size && (left == 1 ==> left * size == size)
    ensures 0 <= (left - 1) * size
  {}

  /** Equal chunks for all threads but the last, which takes what is left. */
  method Partition<T>(input: seq<T>, numThread: nat) returns (chunks: seq<seq<T>>)
    requires 0 < numThread
    ensures |chunks| == numThread && Flatten(chunks) == input
    ensures forall i | 0 <= i < numThread - 1 :: |chunks[i]| == |input| / numThread
    ensures |chunks[numThread - 1]| == |input| / numThread + |input| % numThread
  {
    ghost var q, rest := Split(|input|, numThread);
    var chunkSize := |input| / numThread;
    chunks := Cut(input, numThread, chunkSize, rest);
  }

  /** The loop over the threads, for a given chunk size; `rest` is what does not divide evenly. */
  method Cut<T>(input: seq<T>, numThread: nat, chunkSize: nat, ghost rest: nat) returns (chunks: seq<seq<T>>)
    requires 0 < numThread && |input| == numThread * chunkSize + rest
    ensures |chunks| == numThread && Flatten(chunks) == input
    ensures forall i | 0 <= i < numThread - 1 :: |chunks[i]| == chunkSize
    ensures |chunks[numThread - 1]| == chunkSize + rest
  {
    var startSize := 0;
    chunks := [];
    ghost var due := numThread * chunkSize;
    for i := 1 to numThread + 1
      invariant |chunks| == i - 1 && due == (numThread - (i - 1)) * chunkSize
      invariant i <= numThread ==> 0 <= startSize == |input| - due - rest
      invariant Flatten(chunks) == if i <= numThread then input[..startSize] else input
      invariant forall j | 0 <= j < |chunks| && j < numThread - 1 :: |chunks[j]| == chunkSize
      invariant i > numThread ==> |chunks[numThread - 1]| == chunkSize + rest
    {
      OneChunkLess(numThread - (i - 1), chunkSize);
      var chunk;
      if i == numThread {
        chunk := input[startSize..];
        assert input[..startSize] + chunk == input;
      } else {
        chunk := input[startSize..startSize + chunkSize];
        assert input[..startSize] + chunk == input[..startSize + chunkSize];
      }
      FlattenAppend(chunks, chunk);
      chunks := chunks + [chunk];
      due := due - chunkSize;
      startSize := startSize + chunkSize;
    }
  }

  // ---- Results

  datatype RequestType = GET | SET | STAT
  datatype Stat = Stat(numGetReq: Option<int>, numSuccGetReq: Option<int>, numFailGetReq: Option<int>)
  datatype Payload = Payload(
    requestType: Option<RequestType>, key: Option<string>, value: Option<string>,
    stats: Option<Stat>, reason: Option<string>)
  datatype ResultData = ResultData(payload: Payload, timestamp: nat)

  const MAX_LINE_WRITE: nat := 1024

  function Digit(d: nat): char
    requires d < 10
  {
    "0123456789"[d]
  }

  function ToString(n: int): string
    decreases n < 0, if n < 0 then -n else n
  {
    if n < 0 then "-" + ToString(-n)
    else if n < 10 then [Digit(n)]
    else ToString(n / 10) + [Digit(n % 10)]
  }

  function TypeName(t: RequestType): string {
    match t case GET => "GET" case SET => "SET" case STAT => "STAT"
  }

  function Column(text: Option<string>): string {
    if text.Some? then "," + text.value else ""
  }

  function NumberColumn(n: Option<int>): string {
    if n.Some? then "," + ToString(n.value) else ""
  }

  /** The line of one result; nothing for a result without a request type. */
  function Line(r: ResultData): string {
    var p := r.payload;
    if p.requestType == None then ""
    else
      ToString(r.timestamp) + "," + TypeName(p.requestType.value) + Column(p.key)
      + (if p.value.Some? then Column(p.value)
         else if p.requestType.value == GET then Column(p.reason) else "")
      + (if p.stats.Some? then NumberColumn(p.stats.value.numGetReq)
                               + NumberColumn(p.stats.value.numSuccGetReq)
                               + NumberColumn(p.stats.value.numFailGetReq)
         else "")
      + "\n"
  }

  /** The unbatched text of a list of results. */
  function Text(rs: seq<ResultData>): string {
    if rs == [] then "" else Text(rs[..|rs| - 1]) + Line(rs[|rs| - 1])
  }

  function Printed(rs: seq<ResultData>): nat {
    if rs == [] then 0
    else Printed(rs[..|rs| - 1]) + (if rs[|rs| - 1].payload.requestType.Some? then 1 else 0)
  }

  predicate SortedByTimestamp(rs: seq<ResultData>) {
    forall i, j | 0 <= i < j < |rs| :: rs[i].timestamp <= rs[j].timestamp
  }

  predicate SameResults(rs: seq<ResultData>, ts: seq<ResultData>) {
    multiset(rs) == multiset(ts)
  }

  lemma InsertKeepsSorted(a: seq<ResultData>, b: seq<ResultData>, r: ResultData)
    requires SortedByTimestamp(a) && SortedByTimestamp(b)
    requires forall i | 0 <= i < |a| :: a[i].timestamp <= r.timestamp
    requires forall i | 0 <= i < |b| :: r.timestamp < b[i].timestamp
    ensures SortedByTimestamp(a + [r] + b)
  {}

  lemma InsertKeepsAll(a: seq<ResultData>, b: seq<ResultData>, r: ResultData)
    ensures multiset(a + [r] + b) == multiset(a + b) + multiset{r}
  {
    assert multiset(a + [r] + b) == multiset(a) + multiset{r} + multiset(b);
  }

  /** Some sorted permutation; ties may come out in any order. */
  method Sort(rs: seq<ResultData>) returns (sorted: seq<ResultData>)
    ensures SameResults(sorted, rs) && SortedByTimestamp(sorted)
  {
    sorted := [];
    for i := 0 to |rs|
      invariant SameResults(sorted, rs[..i]) && SortedByTimestamp(sorted)
    {
      assert rs[..i + 1] == rs[..i] + [rs[i]];
      sorted := InsertSorted(sorted, rs[i]);
    }
    assert rs[..|rs|] == rs;
  }

  method InsertSorted(rs: seq<ResultData>, r: ResultData) returns (ts: seq<ResultData>)
    requires SortedByTimestamp(rs)
    ensures SortedByTimestamp(ts) && multiset(ts) == multiset(rs) + multiset{r}
  {
    var j := |rs|;
    while j > 0 && r.timestamp < rs[j - 1].timestamp
      invariant 0 <= j <= |rs|
      invariant forall k | j <= k < |rs| :: r.timestamp < rs[k].timestamp
    {
      j := j - 1;
    }
    var a, b := rs[..j], rs[j..];
    InsertKeepsAll(a, b, r);
    InsertKeepsSorted(a, b, r);
    assert rs == a + b;
    ts := a + [r] + b;
  }

  lemma TextAppend(rs: seq<ResultData>, i: nat)
    requires i < |rs|
    ensures Text(rs[..i + 1]) == Text(rs[..i]) + Line(rs[i])
    ensures Printed(rs[..i + 1]) == Printed(rs[..i]) + (if rs[i].payload.requestType.Some? then 1 else 0)
  {
    assert rs[..i + 1][..i] == rs[..i];
  }

  method Merge(pool: seq<seq<ResultData>>) returns (results: seq<ResultData>)
    ensures results == Flatten(pool)
  {
    results := [];
    for i := 0 to |pool|
      invariant results == Flatten(pool[..i])
    {
      FlattenAppend(pool[..i], pool[i]);
      assert pool[..i + 1] == pool[..i] + [pool[i]];
      results := results + pool[i];
    }
    assert pool[..|pool|] == pool;
  }

  lemma BatchCount(full: nat, count: nat, printed: nat)
    requires printed == 1024 * full + count && count < 1024
    ensures (printed + 1023) / 1024 == full + (if count > 0 then 1 else 0)
  {}

  /** Writes the lines of sorted results in batches of 1024. */
  method WriteBatches(sorted: seq<ResultData>) returns (writes: seq<string>)
    ensures Flatten(writes) == Text(sorted)
    ensures |writes| == (Printed(sorted) + 1023) / 1024
  {
    writes := [];
    var data, count := "", 0;
    ghost var flushed: string := "";
    assert sorted[..0] == [];
    for i := 0 to |sorted|
      invariant 0 <= count < MAX_LINE_WRITE && (data == [] <==> count == 0)
      invariant flushed == Flatten(writes) && flushed + data == Text(sorted[..i])
      invariant MAX_LINE_WRITE * |writes| + count == Printed(sorted[..i])
    {
      TextAppend(sorted, i);
      var line := Line(sorted[i]);
      if sorted[i].payload.requestType.Some? {
        Reassociate(flushed, data, line);
        data, count := data + line, count + 1;
        if count == MAX_LINE_WRITE {
          FlattenAppend(writes, data);
          writes, flushed := writes + [data], flushed + data;
          count := 0;
          data := "";
          Reassociate(flushed, "", "");
        }
      } else {
        Reassociate(flushed, data, "");
      }
    }
    assert sorted[..|sorted|] == sorted;
    Reassociate(flushed, data, "");
    BatchCount(|writes|, count, Printed(sorted));
    if data != [] {
      FlattenAppend(writes, data);
      writes := writes + [data];
    }
  }

  lemma Reassociate(a: string, b: string, c: string)
    ensures a + b + c == a + (b + c) && a + b + "" == a + b && a + "" == a
  {}

  /** Merges the threads' results, sorts them, and writes their lines in batches. `writes` are the
      successive writes to the file; concatenated they are the unbatched text of a sorted permutation
      of everything the threads produced, and there are no more of them than batches of 1024 lines. */
  method SaveResults(pool: seq<seq<ResultData>>) returns (writes: seq<string>, sorted: seq<ResultData>)
    ensures SameResults(sorted, Flatten(pool)) && SortedByTimestamp(sorted)
    ensures Flatten(writes) == Text(sorted)
    ensures |writes| == (Printed(sorted) + 1023) / 1024
  {
    var results := Merge(pool);
    if |results| == 0 {
      return [], [];
    }
    sorted := Sort(results);
    writes := WriteBatches(sorted);
  }

  predicate DistinctTimestamps(rs: seq<ResultData>) {
    forall i, j | 0 <= i < j < |rs| :: rs[i].timestamp != rs[j].timestamp
  }

  lemma FirstOfSorted(rs: seq<ResultData>, ts: seq<ResultData>)
    requires rs != [] && ts != [] && SameResults(rs, ts)
    requires SortedByTimestamp(rs) && SortedByTimestamp(ts) && DistinctTimestamps(rs)
    ensures rs[0] == ts[0]
  {
    assert ts[0] in multiset(rs) && rs[0] in multiset(ts);
    var i :| 0 <= i < |rs| && rs[i] == ts[0];
    var j :| 0 <= j < |ts| && ts[j] == rs[0];
    assert rs[0].timestamp <= rs[i].timestamp && ts[0].timestamp <= ts[j].timestamp;
  }

  lemma WithoutFirst(rs: seq<ResultData>)
    requires rs != []
    ensures rs == [rs[0]] + rs[1..] && multiset(rs[1..]) == multiset(rs) - multiset{rs[0]}
  {
    assert rs == [rs[0]] + rs[1..];
  }

  lemma SameLength(rs: seq<ResultData>, ts: seq<ResultData>)
    requires SameResults(rs, ts)
    ensures |rs| == |ts|
  {
    assert |multiset(rs)| == |rs| && |multiset(ts)| == |ts|;
  }

  /** When no two results share a timestamp the text does not depend on how the sort breaks ties, nor on
      which thread produced which result. */
  lemma {:induction false} SortedOrderIsUnique(rs: seq<ResultData>, ts: seq<ResultData>)
    requires SameResults(rs, ts)
    requires SortedByTimestamp(rs) && SortedByTimestamp(ts) && DistinctTimestamps(rs)
    ensures rs == ts
  {
    SameLength(rs, ts);
    if rs != [] {
      FirstOfSorted(rs, ts);
      WithoutFirst(rs);
      WithoutFirst(ts);
      SortedOrderIsUnique(rs[1..], ts[1..]);
    }
  }
}
