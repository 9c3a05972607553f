/** Choosing a worker: the two load-balancing policies, and how evenly they spread descriptors. */
module WorkerManagement {
  import opened Wrappers
  import opened Division
  import opened HandOff
  import opened ServiceThreads

  const INT_MAX: nat := 0x7FFF_FFFF

  datatype Policy = RoundRobin | LessLoaded | Unknown

  /** The first position of the smallest element. */
  predicate IsFirstMinimum(sizes: seq<nat>, i: nat) {
    && i < |sizes|
    && (forall j | 0 <= j < |sizes| :: sizes[i] <= sizes[j])
    && (forall j | 0 <= j < i :: sizes[i] < sizes[j])
  }

  function Sizes(workers: seq<ServiceWorker>): (sizes: seq<nat>)
    reads workers
    ensures |sizes| == |workers| && forall i | 0 <= i < |workers| :: sizes[i] == |workers[i].queue|
  {
    seq(|workers|, i requires 0 <= i < |workers| reads workers => |workers[i].queue|)
  }

  class WorkerManager {
    const threadCount: nat
    const policy: Policy
    var index: nat
    var workers: seq<ServiceWorker>

    ghost predicate Valid()
      reads this, workers
    {
      && 0 < threadCount <= INT_MAX && index < threadCount && |workers| == threadCount
      && (forall i | 0 <= i < |workers| :: workers[i].Valid())
      && forall i, j | 0 <= i < j < |workers| :: workers[i] != workers[j]
    }

    /** Starts the workers. */
    constructor (threadCount: nat, policy: Policy)
      requires 0 < threadCount <= INT_MAX
      ensures Valid() && index == 0 && this.threadCount == threadCount && this.policy == policy
      ensures forall i | 0 <= i < |workers| :: fresh(workers[i]) && workers[i].Value(Loop) == NEW_WORKER
    {
      this.threadCount, this.policy, index := threadCount, policy, 0;
      var ws: seq<ServiceWorker> := [];
      for i := 0 to threadCount
        invariant |ws| == i
        invariant forall j | 0 <= j < i :: fresh(ws[j]) && ws[j].Valid() && ws[j].Value(Loop) == NEW_WORKER
        invariant forall j, k | 0 <= j < k < i :: ws[j] != ws[k]
      {
        var worker := new ServiceWorker();
        ws := ws + [worker];
      }
      workers := ws;
    }

    /** The first worker with the shortest queue. */
    method LeastLoaded() returns (least: nat)
      requires 0 < |workers| && forall i | 0 <= i < |workers| :: |workers[i].queue| <= INT_MAX
      ensures IsFirstMinimum(Sizes(workers), least)
    {
      ghost var sizes := Sizes(workers);
      var min := INT_MAX;
      least := 0;
      for i := 0 to |workers|
        invariant forall j | 0 <= j < i :: min <= sizes[j]
        invariant if least == 0 && min == INT_MAX then forall j | 0 <= j < i :: sizes[j] == INT_MAX
                  else least < i && sizes[least] == min
        invariant forall j | 0 <= j < least :: min < sizes[j]
      {
        var queueSize := workers[i].GetCurrentFdQueueSize();
        if queueSize < min {
          min := queueSize;
          least := i;
        }
      }
    }

    /** The index of the worker to use. */
    method GetWorkerIndex() returns (retIndex: nat)
      requires Valid() && forall i | 0 <= i < |workers| :: |workers[i].queue| <= INT_MAX
      modifies this`index
      ensures Valid()
      ensures policy.RoundRobin? ==> retIndex == index == NextIndex(old(index), threadCount)
      ensures policy.LessLoaded? ==> IsFirstMinimum(Sizes(workers), retIndex) && index == old(index)
      ensures policy.Unknown? ==> retIndex == 0x7FFF_FFFF && index == old(index)
    {
      retIndex := 0;
      if policy.RoundRobin? {
        index := index + 1;
        retIndex := index % threadCount;
        index := retIndex;
      } else if policy.LessLoaded? {
        var least := LeastLoaded();
        retIndex := least;
      } else {
        retIndex := INT_MAX;
      }
    }

    /** Hands a descriptor to the worker that the policy chooses, and touches no other; when the policy
        yields no valid index the descriptor goes nowhere. `written` is whether the wake-up write works. */
    method LoadBalanceFd(fd: Fd, written: bool) returns (chosen: Option<nat>)
      requires Valid() && forall i | 0 <= i < |workers| :: |workers[i].queue| <= INT_MAX
      modifies this`index, workers
      ensures Valid() && workers == old(workers)
      ensures chosen == None <==> policy.Unknown?
      ensures policy.RoundRobin? ==> chosen == Some(NextIndex(old(index), threadCount))
      ensures policy.LessLoaded? ==> IsFirstMinimum(old(Sizes(workers)), chosen.value)
      ensures chosen.Some? ==> chosen.value < |workers|
      ensures forall i | 0 <= i < |workers| ::
                workers[i].Value(Loop) == if chosen == Some(i) && written
                                          then HandedOver(old(workers[i].Value(Loop)), fd)
                                          else old(workers[i].Value(Loop))
    {
      var i := GetWorkerIndex();
      if i >= threadCount {
        return None;
      }
      var added := workers[i].AddFdToEvLoop(fd, written);
      return Some(i);
    }
  }

  // ---- Round robin

  /** How many of the first `m` dispatches, numbered from 1, go to worker `w` of `n`. */
  function Dispatched(m: nat, n: nat, w: nat): nat
    requires 0 < n
  {
    if m == 0 then 0 else Dispatched(m - 1, n, w) + (if m % n == w then 1 else 0)
  }

  /** Closed form: the floor share, and one more for workers 1 to m mod n. Hence any two workers differ
      by at most one. */
  lemma {:induction false} RoundRobinShare(m: nat, n: nat, w: nat)
    requires 0 < n && w < n
    ensures Dispatched(m, n, w) == m / n + (if 1 <= w <= m % n then 1 else 0)
  {
    if m == 0 {
      UniqueRemainder(0, n, 0, 0);
      UniqueQuotient(0, n, 0, 0);
    } else {
      RoundRobinShare(m - 1, n, w);
      SuccessorMod(m - 1, n);
    }
  }

  lemma RoundRobinIsBalanced(m: nat, n: nat, w: nat, v: nat)
    requires 0 < n && w < n && v < n
    ensures Dispatched(m, n, w) <= Dispatched(m, n, v) + 1
  {
    RoundRobinShare(m, n, w);
    RoundRobinShare(m, n, v);
  }

  lemma {:induction false} ShareLength(log: seq<Dispatch>, n: nat, w: nat)
    requires 0 < n && forall k | 0 <= k < |log| :: !log[k].closed
    ensures |Share(log, n, w)| == Dispatched(|log|, n, w)
  {
    if log != [] {
      ShareLength(log[..|log| - 1], n, w);
    }
  }

  /** In every reachable state of the hand-off in which no wake-up write has failed, every worker has
      received its floor share of the descriptors, or one more. */
  lemma HandOffIsBalanced(n: nat, s: State, w: nat)
    requires Reachable(n, s) && w < n && forall k | 0 <= k < |s.log| :: !s.log[k].closed
    ensures |s.ws| == n && |s.ws[w].popped| + |s.ws[w].queue| + |InFlight(s.disp, w)| ==
                           |s.log| / n + (if 1 <= w <= |s.log| % n then 1 else 0)
  {
    EachWorkerGetsItsShare(n, s, w);
    ShareLength(s.log, n, w);
    RoundRobinShare(|s.log|, n, w);
  }

  // ---- Least loaded

  function FirstMinimum(sizes: seq<nat>): (i: nat)
    requires |sizes| > 0
    ensures IsFirstMinimum(sizes, i)
  {
    if |sizes| == 1 then 0
    else
      var k := |sizes| - 1;
      var i := FirstMinimum(sizes[..k]);
      if sizes[k] < sizes[i] then k else i
  }

  /** The queue lengths after `m` dispatches to empty queues that nobody drains. */
  function Loads(m: nat, n: nat): (sizes: seq<nat>)
    requires 0 < n
    ensures |sizes| == n
  {
    if m == 0 then seq(n, _ => 0)
    else
      var before := Loads(m - 1, n);
      var i := FirstMinimum(before);
      before[i := before[i] + 1]
  }

  /** Queue lengths `q` everywhere, and one more before position `r`. */
  predicate Levelled(sizes: seq<nat>, q: nat, r: nat) {
    r < |sizes| && forall w | 0 <= w < |sizes| :: sizes[w] == q + (if w < r then 1 else 0)
  }

  lemma LevelledMinimum(sizes: seq<nat>, q: nat, r: nat)
    requires Levelled(sizes, q, r)
    ensures FirstMinimum(sizes) == r
  {
    var i := FirstMinimum(sizes);
    assert sizes[i] <= sizes[r] && sizes[r] == q;
  }

  lemma LevelledStep(sizes: seq<nat>, q: nat, r: nat)
    requires Levelled(sizes, q, r)
    ensures var after := sizes[r := sizes[r] + 1];
            if r + 1 == |sizes| then Levelled(after, q + 1, 0) else Levelled(after, q, r + 1)
  {}

  /** Counting dispatches in rounds of `n`: full rounds, and position in the current one. */
  function Round(m: nat, n: nat): (nat, nat)
    requires 0 < n
  {
    if m == 0 then (0, 0)
    else
      var (q, r) := Round(m - 1, n);
      if r + 1 == n then (q + 1, 0) else (q, r + 1)
  }

  lemma {:induction false} RoundIsDivision(m: nat, n: nat)
    requires 0 < n
    ensures Round(m, n) == (m / n, m % n)
  {
    if m == 0 {
      UniqueRemainder(0, n, 0, 0);
      UniqueQuotient(0, n, 0, 0);
    } else {
      RoundIsDivision(m - 1, n);
      SuccessorMod(m - 1, n);
    }
  }

  lemma {:induction false} LoadsAreLevelled(m: nat, n: nat)
    requires 0 < n
    ensures Levelled(Loads(m, n), Round(m, n).0, Round(m, n).1)
  {
    if m > 0 {
      LoadsAreLevelled(m - 1, n);
      LevelledMinimum(Loads(m - 1, n), Round(m - 1, n).0, Round(m - 1, n).1);
      LevelledStep(Loads(m - 1, n), Round(m - 1, n).0, Round(m - 1, n).1);
    }
  }

  /** Without drains the least-loaded policy is round robin: dispatch number m, from 0, goes to worker
      m mod n, and the queues stay within one of each other. */
  lemma LeastLoadedIsRoundRobin(m: nat, n: nat)
    requires 0 < n
    ensures FirstMinimum(Loads(m, n)) == m % n
    ensures Levelled(Loads(m, n), m / n, m % n)
  {
    LoadsAreLevelled(m, n);
    RoundIsDivision(m, n);
    LevelledMinimum(Loads(m, n), Round(m, n).0, Round(m, n).1);
  }
}
