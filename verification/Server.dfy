/** The request handlers of N workers sharing one dictionary and one set of counters, as a transition
    system. Each lock region and each unlocked read is one step; workers interleave freely. */
module Server {
  import opened Wrappers
  import opened BloomTheory
  import opened Dictionary

  /** Where a worker is inside a request handler. */
  datatype Pc =
    | Idle
    | Checked(key: Key, val: string)            // SET: past the capacity test, not yet in the lock
    | Setting(key: Key, val: string, on: bool)  // SET: in the lock, has read whether the filter is on
    | Counted(key: Key)                         // GET: request counted, not yet in the lock
    | Getting(key: Key, on: bool)               // GET: in the lock, has read whether the filter is on
    | Answered(reply: Reply)                    // GET: looked up, outcome not yet counted
    | ReadGets(gets: nat)                       // STAT: first counter read
    | ReadSuccs(gets: nat, succs: nat)          // STAT: first two counters read

  /** What a GET was answered, how many sets the dictionary had taken by then, and whether it found the
      filter on. */
  datatype Answer = Answer(key: Key, at: nat, filtered: bool, reply: Reply)

  /** What a STAT reported, and the true number of GETs at its last read. */
  datatype Report = Report(gets: nat, succs: nat, fails: nat, truth: nat)

  /** Capacity, the filter to be used, and whether `get` is the written or the intended one. */
  datatype Params = Params(cap: nat, config: Config, intended: bool)

  /** The filter is off; or it was enabled after so many sets, in the middle of another set or not. */
  datatype Enabling = NotYet | EnabledAfter(sets: nat, inside: bool)

  /** `mtx` is the worker that holds the lock of the dictionary. */
  datatype State = State(
    dict: Dict, log: seq<Entry>, mtx: Option<nat>, enabling: Enabling,
    gets: nat, succs: nat, fails: nat,
    pcs: seq<Pc>,
    answers: seq<Answer>, reports: seq<Report>)

  /** The main thread enables the filter once, when the workers are already running, and takes no lock. */
  datatype Action =
    | EnableFilter
    | TestCapacity(w: nat, key: Key, val: string)
    | EnterSet(w: nat)
    | InsertLocked(w: nat)
    | CountRequest(w: nat, key: Key)
    | EnterGet(w: nat)
    | LookUpLocked(w: nat)
    | CountOutcome(w: nat)
    | LoadGets(w: nat)
    | LoadSuccs(w: nat)
    | LoadFails(w: nat)

  function Init(n: nat): State {
    State(Dict(map[], None), [], None, NotYet, 0, 0, 0, seq(n, _ => Idle), [], [])
  }

  predicate Enabled(s: State, a: Action) {
    match a
    case EnableFilter => s.enabling == NotYet
    case TestCapacity(w, _, _) => w < |s.pcs| && s.pcs[w].Idle?
    case EnterSet(w) => w < |s.pcs| && s.pcs[w].Checked? && s.mtx == None
    case InsertLocked(w) => w < |s.pcs| && s.pcs[w].Setting?
    case CountRequest(w, _) => w < |s.pcs| && s.pcs[w].Idle?
    case EnterGet(w) => w < |s.pcs| && s.pcs[w].Counted? && s.mtx == None
    case LookUpLocked(w) => w < |s.pcs| && s.pcs[w].Getting?
    case CountOutcome(w) => w < |s.pcs| && s.pcs[w].Answered?
    case LoadGets(w) => w < |s.pcs| && s.pcs[w].Idle?
    case LoadSuccs(w) => w < |s.pcs| && s.pcs[w].ReadGets?
    case LoadFails(w) => w < |s.pcs| && s.pcs[w].ReadSuccs?
  }

  function At(s: State, w: nat, pc: Pc): State
    requires w < |s.pcs|
  {
    s.(pcs := s.pcs[w := pc])
  }

  predicate InsideSet(s: State) {
    exists w | 0 <= w < |s.pcs| :: s.pcs[w].Setting?
  }

  function Do(p: Params, s: State, a: Action): State
    requires ValidConfig(p.config) && Enabled(s, a)
  {
    match a
    case EnableFilter => s.(dict := Enable(s.dict, true), enabling := EnabledAfter(|s.log|, InsideSet(s)))
    case TestCapacity(w, key, val) => if HasRoom(s.dict, p.cap) then At(s, w, Checked(key, val)) else s
    case EnterSet(w) => At(s, w, Setting(s.pcs[w].key, s.pcs[w].val, s.dict.filter.Some?)).(mtx := Some(w))
    case InsertLocked(w) =>
      var key, val := s.pcs[w].key, s.pcs[w].val;
      At(s, w, Idle).(
        mtx := None, log := s.log + [Entry(key, val)],
        dict := if s.pcs[w].on then Commit(p.config, s.dict, key, val) else Put(s.dict, key, val))
    case CountRequest(w, key) => At(s, w, Counted(key)).(gets := s.gets + 1)
    case EnterGet(w) => At(s, w, Getting(s.pcs[w].key, s.dict.filter.Some?)).(mtx := Some(w))
    case LookUpLocked(w) =>
      var key, on := s.pcs[w].key, s.pcs[w].on;
      var reply := if !on then PlainGet(s.dict, key)
                   else if p.intended then IntendedGet(p.config, s.dict, key)
                   else Get(p.config, s.dict, key, "");
      At(s, w, Answered(reply)).(mtx := None, answers := s.answers + [Answer(key, |s.log|, on, reply)])
    case CountOutcome(w) =>
      if s.pcs[w].reply.ok then At(s, w, Idle).(succs := s.succs + 1)
      else At(s, w, Idle).(fails := s.fails + 1)
    case LoadGets(w) => At(s, w, ReadGets(s.gets))
    case LoadSuccs(w) => At(s, w, ReadSuccs(s.pcs[w].gets, s.succs))
    case LoadFails(w) =>
      At(s, w, Idle).(reports := s.reports + [Report(s.pcs[w].gets, s.pcs[w].succs, s.fails, s.gets)])
  }

  /** The state after a list of actions; `None` when one of them is not enabled in its turn. */
  function After(p: Params, s: State, acts: seq<Action>): Option<State>
    requires ValidConfig(p.config)
  {
    if acts == [] then Some(s)
    else
      var before := After(p, s, acts[..|acts| - 1]);
      var a := acts[|acts| - 1];
      if before.Some? && Enabled(before.value, a) then Some(Do(p, before.value, a)) else None
  }

  lemma OneMore(p: Params, s: State, acts: seq<Action>, a: Action)
    requires ValidConfig(p.config) && After(p, s, acts).Some? && Enabled(After(p, s, acts).value, a)
    ensures After(p, s, acts + [a]) == Some(Do(p, After(p, s, acts).value, a))
  {
    assert (acts + [a])[..|acts|] == acts;
  }

  // ---- Counting workers

  predicate MidSet(pc: Pc) { pc.Checked? || pc.Setting? }
  predicate MidGet(pc: Pc) { pc.Counted? || pc.Getting? || pc.Answered? }

  function Count(pcs: seq<Pc>, p: Pc -> bool): (n: nat)
    ensures n <= |pcs|
  {
    if pcs == [] then 0 else (if p(pcs[|pcs| - 1]) then 1 else 0) + Count(pcs[..|pcs| - 1], p)
  }

  function One(p: Pc -> bool, pc: Pc): nat {
    if p(pc) then 1 else 0
  }

  lemma {:induction false} CountUpdate(pcs: seq<Pc>, p: Pc -> bool, w: nat, pc: Pc)
    requires w < |pcs|
    ensures Count(pcs[w := pc], p) + One(p, pcs[w]) == Count(pcs, p) + One(p, pc)
    ensures !p(pcs[w]) ==> Count(pcs, p) < |pcs|
  {
    var k := |pcs| - 1;
    if w == k {
      assert pcs[w := pc][..k] == pcs[..k];
    } else {
      assert pcs[w := pc][..k] == pcs[..k][w := pc];
      CountUpdate(pcs[..k], p, w, pc);
    }
  }

  lemma {:induction false} NobodyBusyAtFirst(n: nat, p: Pc -> bool)
    requires !p(Idle)
    ensures Count(seq(n, _ => Idle), p) == 0
  {
    if n > 0 {
      assert seq(n, _ => Idle)[..n - 1] == seq(n - 1, _ => Idle);
      NobodyBusyAtFirst(n - 1, p);
    }
  }

  // ---- The invariant

  /** Entries plus workers past the unlocked capacity test. */
  predicate CapacityInv(p: Params, s: State) {
    |s.pcs| > 0 && |s.dict.entries| + Count(s.pcs, MidSet) <= p.cap + |s.pcs| - 1
  }

  /** Requests not yet counted as success or failure are the workers in the middle of a GET. */
  predicate BalanceInv(s: State) {
    s.gets == s.succs + s.fails + Count(s.pcs, MidGet)
  }

  /** What a STAT in progress has read bounds the counters from both sides. */
  predicate ReadingInv(s: State) {
    forall w | 0 <= w < |s.pcs| ::
      && (s.pcs[w].ReadGets? ==> s.pcs[w].gets <= s.succs + s.fails + |s.pcs| - 1)
      && (s.pcs[w].ReadSuccs? ==>
            s.pcs[w].gets <= s.pcs[w].succs + s.fails + |s.pcs| - 1 && s.pcs[w].succs <= s.succs)
      && (|s.pcs| == 1 && (s.pcs[w].ReadGets? || s.pcs[w].ReadSuccs?) ==> s.pcs[w].gets == s.gets)
  }

  predicate ReportInv(s: State) {
    forall r | r in s.reports ::
      && r.gets <= r.succs + r.fails + |s.pcs| - 1 && r.succs + r.fails <= r.truth <= s.gets
      && (|s.pcs| == 1 ==> r.gets == r.truth)
  }

  /** The filter is off; or it was enabled when no set had been taken and none was past its look at the
      flag; or it rejects nothing. */
  predicate SafelyEnabled(p: Params, e: Enabling) {
    e == NotYet || e == EnabledAfter(0, false) || p.config.salt == []
  }

  /** What an answer has to do with the latest set before it. Behind the filter the written `get` always
      reports failure, but still returns the value of a key that the filter knows. */
  predicate AnswerOk(p: Params, e: Enabling, log: seq<Entry>, a: Answer) {
    a.at <= |log| && (a.filtered ==> e != NotYet) &&
    var latest := Latest(log[..a.at], a.key);
    if !a.filtered then a.reply == latest
    else if p.intended then
      a.reply == latest || (!SafelyEnabled(p, e) && a.reply == Reply(false, NOT_FOUND))
    else
      && !a.reply.ok
      && (if latest.ok && SafelyEnabled(p, e) then a.reply.val == latest.val
          else a.reply.val in [latest.val, "", NOT_FOUND])
  }

  /** The map is the replay of the sets in lock order. */
  predicate MapInv(p: Params, s: State)
    requires ValidConfig(p.config)
  {
    s.dict.entries == Replay(p.config, false, s.log).entries
  }

  /** A worker in the lock that found the filter on did so after it was enabled; one that found it off was
      there before, which a safely enabled filter excludes. */
  predicate FlagOk(p: Params, e: Enabling, pc: Pc) {
    && ((pc.Setting? || pc.Getting?) && pc.on ==> e != NotYet)
    && (pc.Setting? && e != NotYet && SafelyEnabled(p, e) && p.config.salt != [] ==> pc.on)
  }

  predicate FilterInv(p: Params, s: State)
    requires ValidConfig(p.config)
  {
    && (s.dict.filter.Some? <==> s.enabling != NotYet)
    && (SafelyEnabled(p, s.enabling) ==> NoMisses(p.config, s.dict))
    && forall w | 0 <= w < |s.pcs| :: FlagOk(p, s.enabling, s.pcs[w])
  }

  /** Every answer reflects the latest set. */
  predicate AnswersInv(p: Params, s: State) {
    forall a | a in s.answers :: AnswerOk(p, s.enabling, s.log, a)
  }

  predicate HistoryInv(p: Params, s: State)
    requires ValidConfig(p.config)
  {
    MapInv(p, s) && FilterInv(p, s) && AnswersInv(p, s)
  }

  function Unfiltered(answers: seq<Answer>): nat {
    if answers == [] then 0
    else Unfiltered(answers[..|answers| - 1]) + (if answers[|answers| - 1].filtered then 0 else 1)
  }

  predicate MidSuccess(pc: Pc) { pc.Answered? && pc.reply.ok }

  predicate InTheLock(pc: Pc) { pc.Setting? || pc.Getting? }

  /** The lock of the dictionary is held by the worker that is in it. */
  predicate MutexInv(s: State) {
    forall w | 0 <= w < |s.pcs| :: InTheLock(s.pcs[w]) <==> s.mtx == Some(w)
  }

  lemma MutexAfter(p: Params, s: State, a: Action)
    requires ValidConfig(p.config) && Enabled(s, a) && MutexInv(s)
    ensures MutexInv(Do(p, s, a))
  {}

  /** The written `get` counts no success behind the filter. */
  predicate SuccessInv(p: Params, s: State) {
    !p.intended ==> s.succs + Count(s.pcs, MidSuccess) <= Unfiltered(s.answers)
  }

  predicate Inv(p: Params, s: State)
    requires ValidConfig(p.config)
  {
    && CapacityInv(p, s) && BalanceInv(s) && ReadingInv(s) && ReportInv(s)
    && HistoryInv(p, s) && SuccessInv(p, s) && MutexInv(s)
  }

  lemma PcsAfter(p: Params, s: State, a: Action, count: Pc -> bool)
    requires ValidConfig(p.config) && Enabled(s, a) && !a.EnableFilter?
    ensures var pc := Do(p, s, a).pcs[a.w];
            && Do(p, s, a).pcs == s.pcs[a.w := pc]
            && Count(Do(p, s, a).pcs, count) + One(count, s.pcs[a.w]) == Count(s.pcs, count) + One(count, pc)
            && (!count(s.pcs[a.w]) ==> Count(s.pcs, count) < |s.pcs|)
  {
    var pc := Do(p, s, a).pcs[a.w];
    assert Do(p, s, a).pcs == s.pcs[a.w := pc];
    CountUpdate(s.pcs, count, a.w, pc);
  }

  lemma CapacityAfter(p: Params, s: State, a: Action)
    requires ValidConfig(p.config) && Enabled(s, a) && CapacityInv(p, s)
    ensures CapacityInv(p, Do(p, s, a))
  {
    if !a.EnableFilter? {
      PcsAfter(p, s, a, MidSet);
    }
  }

  lemma BalanceAfter(p: Params, s: State, a: Action)
    requires ValidConfig(p.config) && Enabled(s, a) && BalanceInv(s)
    ensures BalanceInv(Do(p, s, a))
  {
    if !a.EnableFilter? {
      PcsAfter(p, s, a, MidGet);
    }
  }

  lemma CountsAfter(p: Params, s: State, a: Action)
    requires ValidConfig(p.config) && Enabled(s, a)
    requires CapacityInv(p, s) && BalanceInv(s)
    ensures CapacityInv(p, Do(p, s, a)) && BalanceInv(Do(p, s, a))
  {
    CapacityAfter(p, s, a);
    BalanceAfter(p, s, a);
  }

  lemma ReadingAfter(p: Params, s: State, a: Action)
    requires ValidConfig(p.config) && Enabled(s, a) && BalanceInv(s) && ReadingInv(s)
    ensures ReadingInv(Do(p, s, a))
  {
    if a.LoadGets? {
      PcsAfter(p, s, a, MidGet);
    }
  }

  lemma ReportAfter(p: Params, s: State, a: Action)
    requires ValidConfig(p.config) && Enabled(s, a) && BalanceInv(s) && ReadingInv(s) && ReportInv(s)
    ensures ReportInv(Do(p, s, a))
  {}

  lemma ReadingsAfter(p: Params, s: State, a: Action)
    requires ValidConfig(p.config) && Enabled(s, a)
    requires BalanceInv(s) && ReadingInv(s) && ReportInv(s)
    ensures ReadingInv(Do(p, s, a)) && ReportInv(Do(p, s, a))
  {
    ReadingAfter(p, s, a);
    ReportAfter(p, s, a);
  }

  lemma MapAfter(p: Params, s: State, a: Action)
    requires ValidConfig(p.config) && Enabled(s, a) && MapInv(p, s)
    ensures MapInv(p, Do(p, s, a))
  {
    if a.InsertLocked? {
      assert Do(p, s, a).log[..|s.log|] == s.log;
    }
  }

  lemma EnablingKeepsFilter(p: Params, s: State)
    requires ValidConfig(p.config) && MapInv(p, s) && FilterInv(p, s) && s.enabling == NotYet
    ensures FilterInv(p, Do(p, s, EnableFilter))
  {
    var s' := Do(p, s, EnableFilter);
    EnableIsSafeExactlyWhenEmpty(p.config, s.dict);
    forall w | 0 <= w < |s'.pcs| ensures FlagOk(p, s'.enabling, s'.pcs[w]) {
      assert FlagOk(p, s.enabling, s.pcs[w]);
    }
  }

  lemma InsertKeepsFilter(p: Params, s: State, w: nat)
    requires ValidConfig(p.config) && FilterInv(p, s) && Enabled(s, InsertLocked(w))
    ensures FilterInv(p, Do(p, s, InsertLocked(w)))
  {
    var key, val := s.pcs[w].key, s.pcs[w].val;
    assert FlagOk(p, s.enabling, s.pcs[w]);
    if SafelyEnabled(p, s.enabling) {
      CommitKeepsNoMisses(p.config, s.dict, key, val);
    }
  }

  lemma FilterAfter(p: Params, s: State, a: Action)
    requires ValidConfig(p.config) && Enabled(s, a) && MapInv(p, s) && FilterInv(p, s)
    ensures FilterInv(p, Do(p, s, a))
  {
    match a
    case EnableFilter => EnablingKeepsFilter(p, s);
    case InsertLocked(w) => InsertKeepsFilter(p, s, w);
    case _ =>
  }

  /** The answer given by a lookup. */
  lemma LookUpIsOk(p: Params, s: State, w: nat)
    requires ValidConfig(p.config) && MapInv(p, s) && FilterInv(p, s) && Enabled(s, LookUpLocked(w))
    ensures var s' := Do(p, s, LookUpLocked(w)); AnswerOk(p, s.enabling, s.log, s'.answers[|s.answers|])
  {
    var key := s.pcs[w].key;
    assert FlagOk(p, s.enabling, s.pcs[w]);
    assert s.log[..|s.log|] == s.log;
    GetIsLatest(p.config, false, s.log, key);
    assert PlainGet(s.dict, key) == Latest(s.log, key);
    assert key in s.dict.entries && SafelyEnabled(p, s.enabling) && s.dict.filter.Some? ==>
        MayContain(p.config, s.dict, key);
  }

  lemma AnswerStaysOk(p: Params, e: Enabling, e': Enabling, log: seq<Entry>, log': seq<Entry>, a: Answer)
    requires AnswerOk(p, e, log, a) && log <= log' && (e == e' || e == NotYet)
    ensures AnswerOk(p, e', log', a)
  {
    assert log'[..a.at] == log[..a.at];
  }

  lemma AnswersAfter(p: Params, s: State, a: Action)
    requires ValidConfig(p.config) && Enabled(s, a) && HistoryInv(p, s)
    ensures AnswersInv(p, Do(p, s, a))
  {
    var s' := Do(p, s, a);
    forall b | b in s.answers ensures AnswerOk(p, s'.enabling, s'.log, b) {
      AnswerStaysOk(p, s.enabling, s'.enabling, s.log, s'.log, b);
    }
    if a.LookUpLocked? {
      LookUpIsOk(p, s, a.w);
    }
  }

  lemma HistoryAfter(p: Params, s: State, a: Action)
    requires ValidConfig(p.config) && Enabled(s, a)
    requires HistoryInv(p, s)
    ensures HistoryInv(p, Do(p, s, a))
  {
    MapAfter(p, s, a);
    FilterAfter(p, s, a);
    AnswersAfter(p, s, a);
    AllOfHistory(p, Do(p, s, a));
  }

  lemma AllOfHistory(p: Params, s: State)
    requires ValidConfig(p.config) && MapInv(p, s) && FilterInv(p, s) && AnswersInv(p, s)
    ensures HistoryInv(p, s)
  {}

  lemma SuccessAfter(p: Params, s: State, a: Action)
    requires ValidConfig(p.config) && Enabled(s, a)
    requires FilterInv(p, s) && SuccessInv(p, s)
    ensures SuccessInv(p, Do(p, s, a))
  {
    if !a.EnableFilter? {
      var s' := Do(p, s, a);
      assert FlagOk(p, s.enabling, s.pcs[a.w]);
      var pc := s'.pcs[a.w];
      CountUpdate(s.pcs, MidSuccess, a.w, pc);
      assert s'.pcs == s.pcs[a.w := pc];
      if a.LookUpLocked? {
        UnfilteredMore(s.answers, s'.answers[|s.answers|]);
        assert s'.answers == s.answers + [s'.answers[|s.answers|]];
      }
    }
  }

  lemma UnfilteredMore(answers: seq<Answer>, a: Answer)
    ensures Unfiltered(answers + [a]) == Unfiltered(answers) + (if a.filtered then 0 else 1)
  {
    assert (answers + [a])[..|answers|] == answers;
  }

  lemma InvAtFirst(p: Params, n: nat)
    requires ValidConfig(p.config) && 0 < n
    ensures Inv(p, Init(n))
  {
    NobodyBusyAtFirst(n, MidSet);
    NobodyBusyAtFirst(n, MidGet);
    NobodyBusyAtFirst(n, MidSuccess);
  }

  lemma InvAfter(p: Params, s: State, a: Action)
    requires ValidConfig(p.config) && Enabled(s, a) && Inv(p, s)
    ensures Inv(p, Do(p, s, a)) && |Do(p, s, a).pcs| == |s.pcs|
  {
    CountsAfter(p, s, a);
    ReadingsAfter(p, s, a);
    HistoryAfter(p, s, a);
    SuccessAfter(p, s, a);
    MutexAfter(p, s, a);
    AllOfInv(p, Do(p, s, a));
  }

  lemma AllOfInv(p: Params, s: State)
    requires ValidConfig(p.config) && CapacityInv(p, s) && BalanceInv(s) && ReadingInv(s) && ReportInv(s)
    requires HistoryInv(p, s) && SuccessInv(p, s) && MutexInv(s)
    ensures Inv(p, s)
  {}

  /** Every state reached by N workers satisfies the invariant. */
  lemma {:induction false} InvAlways(p: Params, n: nat, acts: seq<Action>)
    requires ValidConfig(p.config) && 0 < n
    ensures After(p, Init(n), acts).Some? ==>
              Inv(p, After(p, Init(n), acts).value) && |After(p, Init(n), acts).value.pcs| == n
  {
    if acts == [] {
      InvAtFirst(p, n);
    } else {
      InvAlways(p, n, acts[..|acts| - 1]);
      var before, a := After(p, Init(n), acts[..|acts| - 1]), acts[|acts| - 1];
      if before.Some? && Enabled(before.value, a) {
        InvAfter(p, before.value, a);
      }
    }
  }

  // ---- What the invariant means to a client

  /** No two workers are ever in the lock of the dictionary together. */
  lemma OneInTheLock(p: Params, n: nat, acts: seq<Action>, w: nat, v: nat)
    requires ValidConfig(p.config) && 0 < n && After(p, Init(n), acts).Some? && w < n && v < n
    requires |After(p, Init(n), acts).value.pcs| == n
    requires InTheLock(After(p, Init(n), acts).value.pcs[w]) && InTheLock(After(p, Init(n), acts).value.pcs[v])
    ensures w == v
  {
    InvAlways(p, n, acts);
  }

  /** The map never holds more than N - 1 entries beyond its capacity. */
  lemma CapacityExceededByAtMostOthers(p: Params, n: nat, acts: seq<Action>)
    requires ValidConfig(p.config) && 0 < n && After(p, Init(n), acts).Some?
    ensures |After(p, Init(n), acts).value.dict.entries| <= p.cap + n - 1
  {
    InvAlways(p, n, acts);
  }

  /** Every STAT reply is within N - 1 of consistent, and never counts an outcome before its request. */
  lemma StatReplyBounds(p: Params, n: nat, acts: seq<Action>, r: Report)
    requires ValidConfig(p.config) && 0 < n && After(p, Init(n), acts).Some?
    requires r in After(p, Init(n), acts).value.reports
    ensures r.gets - (n - 1) <= r.succs + r.fails <= r.truth
    ensures n == 1 ==> r.gets == r.succs + r.fails
  {
    InvAlways(p, n, acts);
  }

  /** Every GET ever answered, by any worker: the latest set in lock order when no filter was on; when it
      was, what `AnswerOk` leaves of that. */
  lemma AnswersReflectLatest(p: Params, n: nat, acts: seq<Action>, a: Answer)
    requires ValidConfig(p.config) && 0 < n && After(p, Init(n), acts).Some?
    requires a in After(p, Init(n), acts).value.answers
    ensures var s := After(p, Init(n), acts).value;
            && AnswerOk(p, s.enabling, s.log, a)
            && (p.intended && SafelyEnabled(p, s.enabling) ==> a.reply == Latest(s.log[..a.at], a.key))
  {
    InvAlways(p, n, acts);
  }

  /** The written `get` counts as successes at most the answers given before the filter was on; none at all
      when it was on from the first. */
  lemma FilterHidesEverySuccess(p: Params, n: nat, acts: seq<Action>)
    requires ValidConfig(p.config) && 0 < n && !p.intended
    requires After(p, Init(n), acts).Some?
    ensures After(p, Init(n), acts).value.succs <= Unfiltered(After(p, Init(n), acts).value.answers)
  {
    InvAlways(p, n, acts);
  }

  // ---- The bounds are attained

  function FreshKey(i: nat): Key {
    seq(i, _ => 0)
  }

  /** The map holds `m` entries, none under a key of length `m` or more. */
  predicate Holds(s: State, m: nat) {
    && s.mtx == None && s.enabling == NotYet && s.dict.filter == None
    && |s.dict.entries| == m && forall k | k in s.dict.entries :: |k| < m
  }

  predicate AllIdle(s: State, n: nat) {
    |s.pcs| == n && forall w | 0 <= w < n :: s.pcs[w].Idle?
  }

  /** Worker 0 sets a key. */
  lemma OneSet(p: Params, n: nat, before: seq<Action>, key: Key) returns (acts: seq<Action>)
    requires ValidConfig(p.config) && 0 < n && After(p, Init(n), before).Some?
    requires var s := After(p, Init(n), before).value;
             |s.pcs| == n && s.pcs[0].Idle? && s.mtx == None && s.enabling == NotYet && s.dict.filter == None
             && HasRoom(s.dict, p.cap)
    ensures After(p, Init(n), acts).Some?
    ensures var s, s' := After(p, Init(n), before).value, After(p, Init(n), acts).value;
            s' == s.(dict := Put(s.dict, key, "v"), log := s.log + [Entry(key, "v")])
  {
    var s := After(p, Init(n), before).value;
    OneMore(p, Init(n), before, TestCapacity(0, key, "v"));
    OneMore(p, Init(n), before + [TestCapacity(0, key, "v")], EnterSet(0));
    OneMore(p, Init(n), before + [TestCapacity(0, key, "v")] + [EnterSet(0)], InsertLocked(0));
    acts := before + [TestCapacity(0, key, "v")] + [EnterSet(0)] + [InsertLocked(0)];
    assert s.pcs[0 := Checked(key, "v")][0 := Setting(key, "v", false)][0 := Idle] == s.pcs;
  }

  lemma {:induction false} FillSequentially(p: Params, n: nat, m: nat) returns (acts: seq<Action>)
    requires ValidConfig(p.config) && 0 < n && m < p.cap
    ensures After(p, Init(n), acts).Some?
    ensures var s := After(p, Init(n), acts).value; AllIdle(s, n) && Holds(s, m)
  {
    if m == 0 {
      acts := [];
    } else {
      var before := FillSequentially(p, n, m - 1);
      acts := OneSet(p, n, before, FreshKey(m - 1));
    }
  }

  lemma {:induction false} AllPassTheTest(p: Params, n: nat, j: nat) returns (acts: seq<Action>)
    requires ValidConfig(p.config) && 0 < n && 0 < p.cap && j <= n
    ensures After(p, Init(n), acts).Some?
    ensures var s := After(p, Init(n), acts).value;
            && |s.pcs| == n && Holds(s, p.cap - 1)
            && (forall w | 0 <= w < j :: s.pcs[w] == Checked(FreshKey(p.cap - 1 + w), "v"))
            && forall w | j <= w < n :: s.pcs[w].Idle?
  {
    if j == 0 {
      acts := FillSequentially(p, n, p.cap - 1);
    } else {
      var before := AllPassTheTest(p, n, j - 1);
      acts := before + [TestCapacity(j - 1, FreshKey(p.cap - 1 + (j - 1)), "v")];
      assert acts[..|before|] == before;
    }
  }

  lemma {:induction false} AllInsert(p: Params, n: nat, j: nat) returns (acts: seq<Action>)
    requires ValidConfig(p.config) && 0 < n && 0 < p.cap && j <= n
    ensures After(p, Init(n), acts).Some?
    ensures var s := After(p, Init(n), acts).value;
            && |s.pcs| == n && Holds(s, p.cap - 1 + j)
            && forall w | j <= w < n :: s.pcs[w] == Checked(FreshKey(p.cap - 1 + w), "v")
  {
    if j == 0 {
      acts := AllPassTheTest(p, n, n);
    } else {
      var before := AllInsert(p, n, j - 1);
      OneMore(p, Init(n), before, EnterSet(j - 1));
      OneMore(p, Init(n), before + [EnterSet(j - 1)], InsertLocked(j - 1));
      acts := before + [EnterSet(j - 1)] + [InsertLocked(j - 1)];
    }
  }

  ghost predicate NeverExceeds(p: Params, n: nat, bound: int)
    requires ValidConfig(p.config)
  {
    forall acts :: After(p, Init(n), acts).Some? ==> |After(p, Init(n), acts).value.dict.entries| <= bound
  }

  /** capacity + N - 1 is the least bound on the map, so the capacity itself holds only for one worker. */
  lemma CapacityBoundIsExact(p: Params, n: nat, bound: int)
    requires ValidConfig(p.config) && 0 < n && 0 < p.cap
    ensures NeverExceeds(p, n, bound) <==> p.cap + n - 1 <= bound
  {
    if p.cap + n - 1 <= bound {
      forall acts | After(p, Init(n), acts).Some?
        ensures |After(p, Init(n), acts).value.dict.entries| <= bound
      {
        CapacityExceededByAtMostOthers(p, n, acts);
      }
    } else {
      var acts := AllInsert(p, n, n);
      assert |After(p, Init(n), acts).value.dict.entries| > bound;
    }
  }

  lemma {:induction false} OthersCountRequests(p: Params, n: nat, j: nat) returns (acts: seq<Action>)
    requires ValidConfig(p.config) && 0 < n && j < n
    ensures After(p, Init(n), acts).Some?
    ensures var s := After(p, Init(n), acts).value;
            && |s.pcs| == n && s.gets == j && s.succs == s.fails == 0 && s.reports == []
            && s.pcs[0].Idle? && forall w | j < w < n :: s.pcs[w].Idle?
  {
    if j == 0 {
      acts := [];
    } else {
      var before := OthersCountRequests(p, n, j - 1);
      acts := before + [CountRequest(j, [])];
      assert acts[..|before|] == before;
    }
  }

  /** Some STAT reply is short by the full N - 1. */
  lemma StatBoundReached(p: Params, n: nat) returns (acts: seq<Action>)
    requires ValidConfig(p.config) && 0 < n
    ensures After(p, Init(n), acts).Some?
    ensures After(p, Init(n), acts).value.reports == [Report(n - 1, 0, 0, n - 1)]
  {
    var before := OthersCountRequests(p, n, n - 1);
    OneMore(p, Init(n), before, LoadGets(0));
    OneMore(p, Init(n), before + [LoadGets(0)], LoadSuccs(0));
    OneMore(p, Init(n), before + [LoadGets(0)] + [LoadSuccs(0)], LoadFails(0));
    acts := before + [LoadGets(0)] + [LoadSuccs(0)] + [LoadFails(0)];
  }

  ghost predicate AlwaysConsistent(p: Params, n: nat)
    requires ValidConfig(p.config)
  {
    forall acts, r :: After(p, Init(n), acts).Some? && r in After(p, Init(n), acts).value.reports ==>
                        r.gets == r.succs + r.fails
  }

  /** STAT replies add up in every run exactly when there is a single worker. */
  lemma StatConsistentExactlyForOneWorker(p: Params, n: nat)
    requires ValidConfig(p.config) && 0 < n
    ensures AlwaysConsistent(p, n) <==> n == 1
  {
    if n == 1 {
      forall acts, r | After(p, Init(n), acts).Some? && r in After(p, Init(n), acts).value.reports
        ensures r.gets == r.succs + r.fails
      {
        StatReplyBounds(p, n, acts, r);
      }
    } else {
      var acts := StatBoundReached(p, n);
      var r := After(p, Init(n), acts).value.reports[0];
      assert r in After(p, Init(n), acts).value.reports;
    }
  }

  // ---- Outcomes without their requests

  /** After the first read of a STAT by worker 0, worker 1 serves `k` whole GETs. */
  lemma {:induction false} GetsBetweenReads(p: Params, n: nat, k: nat) returns (acts: seq<Action>)
    requires ValidConfig(p.config) && 2 <= n
    ensures After(p, Init(n), acts).Some?
    ensures var s := After(p, Init(n), acts).value;
            && |s.pcs| == n && s.pcs[0] == ReadGets(0) && s.pcs[1].Idle? && s.dict == Dict(map[], None)
            && s.mtx == None && s.gets == s.fails == k && s.succs == 0 && s.reports == []
  {
    if k == 0 {
      OneMore(p, Init(n), [], LoadGets(0));
      acts := [] + [LoadGets(0)];
    } else {
      var before := GetsBetweenReads(p, n, k - 1);
      OneMore(p, Init(n), before, CountRequest(1, []));
      OneMore(p, Init(n), before + [CountRequest(1, [])], EnterGet(1));
      OneMore(p, Init(n), before + [CountRequest(1, [])] + [EnterGet(1)], LookUpLocked(1));
      OneMore(p, Init(n), before + [CountRequest(1, [])] + [EnterGet(1)] + [LookUpLocked(1)], CountOutcome(1));
      acts := before + [CountRequest(1, [])] + [EnterGet(1)] + [LookUpLocked(1)] + [CountOutcome(1)];
    }
  }

  /** With two workers or more a reply may count any number of outcomes and no request. */
  lemma OutcomesMayExceedRequests(p: Params, n: nat, k: nat) returns (acts: seq<Action>)
    requires ValidConfig(p.config) && 2 <= n
    ensures After(p, Init(n), acts).Some?
    ensures After(p, Init(n), acts).value.reports == [Report(0, 0, k, k)]
  {
    var before := GetsBetweenReads(p, n, k);
    OneMore(p, Init(n), before, LoadSuccs(0));
    OneMore(p, Init(n), before + [LoadSuccs(0)], LoadFails(0));
    acts := before + [LoadSuccs(0)] + [LoadFails(0)];
  }

  ghost predicate ExcessBoundedBy(p: Params, n: nat, bound: nat)
    requires ValidConfig(p.config)
  {
    forall acts, r :: After(p, Init(n), acts).Some? && r in After(p, Init(n), acts).value.reports ==>
                        r.succs + r.fails <= r.gets + bound
  }

  /** Whatever the bound, replies keep outcomes within it of requests in every run exactly when there is a
      single worker; then no reply counts more outcomes than requests at all. */
  lemma ExcessIsBoundedExactlyForOneWorker(p: Params, n: nat, bound: nat)
    requires ValidConfig(p.config) && 0 < n
    ensures ExcessBoundedBy(p, n, bound) <==> n == 1
  {
    if n == 1 {
      forall acts, r | After(p, Init(n), acts).Some? && r in After(p, Init(n), acts).value.reports
        ensures r.succs + r.fails <= r.gets + bound
      {
        StatReplyBounds(p, n, acts, r);
      }
    } else {
      var acts := OutcomesMayExceedRequests(p, n, bound + 1);
      var r := After(p, Init(n), acts).value.reports[0];
      assert r in After(p, Init(n), acts).value.reports;
    }
  }

  // ---- Enabling the filter on a dictionary in use

  /** Worker 0 is free, the filter is off, and the one key that was ever set is the empty one. */
  predicate OneKeySet(s: State, n: nat, e: nat) {
    && |s.pcs| == n > 0 && s.pcs[0].Idle? && s.mtx == None && s.enabling == NotYet
    && s.dict == Dict(if e == 0 then map[] else map[[] := "v"], None)
    && |s.log| == e && (e > 0 ==> s.log[e - 1] == Entry([], "v")) && s.answers == []
    && forall w | 0 <= w < n :: s.pcs[w].Idle?
  }

  lemma {:induction false} SetOneKey(p: Params, n: nat, e: nat) returns (acts: seq<Action>)
    requires ValidConfig(p.config) && 0 < n && 1 < p.cap
    ensures After(p, Init(n), acts).Some? && OneKeySet(After(p, Init(n), acts).value, n, e)
  {
    acts := [];
    if e > 0 {
      acts := SetOneKey(p, n, e - 1);
      acts := OneSet(p, n, acts, []);
    }
  }

  /** The filter was enabled and knows no key; worker 0 is free; the latest set is that of the empty key. */
  predicate KeyHidden(s: State, n: nat) {
    && |s.pcs| == n > 0 && s.pcs[0].Idle? && s.mtx == None && s.dict == Dict(map[[] := "v"], Some({}))
    && |s.log| > 0 && s.log[|s.log| - 1] == Entry([], "v") && s.answers == []
  }

  /** The filter is enabled after `e` sets. */
  lemma EnabledLate(p: Params, n: nat, e: nat) returns (acts: seq<Action>)
    requires ValidConfig(p.config) && 0 < n && 1 < p.cap && 0 < e
    ensures After(p, Init(n), acts).Some? && KeyHidden(After(p, Init(n), acts).value, n)
    ensures After(p, Init(n), acts).value.enabling == EnabledAfter(e, false)
  {
    acts := SetOneKey(p, n, e);
    OneMore(p, Init(n), acts, EnableFilter);
    acts := acts + [EnableFilter];
  }

  /** The filter is enabled after `e` sets, in the middle of the next: between its look at the flag and its
      write to the map. */
  lemma EnabledInside(p: Params, n: nat, e: nat) returns (acts: seq<Action>)
    requires ValidConfig(p.config) && 0 < n && 1 < p.cap
    ensures After(p, Init(n), acts).Some? && KeyHidden(After(p, Init(n), acts).value, n)
    ensures After(p, Init(n), acts).value.enabling == EnabledAfter(e, true)
  {
    acts := SetOneKey(p, n, e);
    OneMore(p, Init(n), acts, TestCapacity(0, [], "v"));
    acts := acts + [TestCapacity(0, [], "v")];
    OneMore(p, Init(n), acts, EnterSet(0));
    acts := acts + [EnterSet(0)];
    assert After(p, Init(n), acts).value.pcs[0].Setting?;
    OneMore(p, Init(n), acts, EnableFilter);
    acts := acts + [EnableFilter];
    OneMore(p, Init(n), acts, InsertLocked(0));
    acts := acts + [InsertLocked(0)];
  }

  /** A filter enabled after a set, or in the middle of one, hides a stored key. */
  lemma LateFilterHidesKey(p: Params, n: nat, e: Enabling) returns (acts: seq<Action>)
    requires ValidConfig(p.config) && 0 < n && 1 < p.cap && p.intended && !SafelyEnabled(p, e)
    ensures After(p, Init(n), acts).Some?
    ensures var s := After(p, Init(n), acts).value;
            && s.enabling == e && Latest(s.log, []) == Reply(true, "v")
            && s.answers == [Answer([], |s.log|, true, Reply(false, NOT_FOUND))]
  {
    if e.inside {
      acts := EnabledInside(p, n, e.sets);
    } else {
      acts := EnabledLate(p, n, e.sets);
    }
    acts := HiddenKeyIsMissed(p, n, acts);
  }

  lemma HiddenKeyIsMissed(p: Params, n: nat, before: seq<Action>) returns (acts: seq<Action>)
    requires ValidConfig(p.config) && p.intended && p.config.salt != []
    requires After(p, Init(n), before).Some? && KeyHidden(After(p, Init(n), before).value, n)
    ensures After(p, Init(n), acts).Some?
    ensures var s, s' := After(p, Init(n), before).value, After(p, Init(n), acts).value;
            && s'.enabling == s.enabling && s'.log == s.log
            && s'.answers == [Answer([], |s.log|, true, Reply(false, NOT_FOUND))]
  {
    EnableIsSafeExactlyWhenEmpty(p.config, Dict(map[[] := "v"], Some({})));
    OneMore(p, Init(n), before, CountRequest(0, []));
    OneMore(p, Init(n), before + [CountRequest(0, [])], EnterGet(0));
    OneMore(p, Init(n), before + [CountRequest(0, [])] + [EnterGet(0)], LookUpLocked(0));
    acts := before + [CountRequest(0, [])] + [EnterGet(0)] + [LookUpLocked(0)];
  }

  /** The state after a run whose filter was enabled as `e` says answers every GET with the latest set. */
  predicate AnswersLatest(s: State) {
    forall a | a in s.answers && a.at <= |s.log| :: a.reply == Latest(s.log[..a.at], a.key)
  }

  ghost predicate AlwaysLatest(p: Params, n: nat, e: Enabling)
    requires ValidConfig(p.config)
  {
    forall acts :: After(p, Init(n), acts).Some? && After(p, Init(n), acts).value.enabling == e ==>
                     AnswersLatest(After(p, Init(n), acts).value)
  }

  /** In every run that enables the filter as `e` says the intended `get` answers with the latest set, exactly
      when no set had been taken and none was past its look at the flag (or the filter rejects nothing). */
  lemma LatestExactlyWhenEnabledFirst(p: Params, n: nat, e: Enabling)
    requires ValidConfig(p.config) && 0 < n && 1 < p.cap && p.intended
    ensures AlwaysLatest(p, n, e) <==> SafelyEnabled(p, e)
  {
    if SafelyEnabled(p, e) {
      forall acts | After(p, Init(n), acts).Some? && After(p, Init(n), acts).value.enabling == e
        ensures AnswersLatest(After(p, Init(n), acts).value)
      {
        var s := After(p, Init(n), acts).value;
        forall a | a in s.answers && a.at <= |s.log| ensures a.reply == Latest(s.log[..a.at], a.key) {
          AnswersReflectLatest(p, n, acts, a);
        }
      }
    } else {
      var acts := LateFilterHidesKey(p, n, e);
      var s := After(p, Init(n), acts).value;
      assert s.answers[0] in s.answers && s.log[..|s.log|] == s.log;
      assert !AnswersLatest(s);
    }
  }
}
