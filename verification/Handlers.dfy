/** The GET, SET and STAT handlers of a flow and the counters they update, as they run without
    interference. Each is tied to the steps it contributes to the server with many workers. */
module Handlers {
  import opened Wrappers
  import opened BloomTheory
  import opened Dictionary
  import opened Server

  class Stats {
    var numGetReq: nat
    var numGetReqSucc: nat
    var numGetReqFail: nat

    constructor ()
      ensures numGetReq == numGetReqSucc == numGetReqFail == 0
    {
      numGetReq, numGetReqSucc, numGetReqFail := 0, 0, 0;
    }

    method IncrGetReq()
      modifies this`numGetReq
      ensures numGetReq == old(numGetReq) + 1
    {
      numGetReq := numGetReq + 1;
    }

    method IncrGetReqSucc()
      modifies this`numGetReqSucc
      ensures numGetReqSucc == old(numGetReqSucc) + 1
    {
      numGetReqSucc := numGetReqSucc + 1;
    }

    method IncrGetReqFail()
      modifies this`numGetReqFail
      ensures numGetReqFail == old(numGetReqFail) + 1
    {
      numGetReqFail := numGetReqFail + 1;
    }
  }

  /** What a handler adds to the message it sends back. */
  datatype Response =
    | Value(value: string)
    | Reason(reason: string)
    | Counters(gets: nat, succs: nat, fails: nat)
    | Plain

  /** The dictionary and the counters hold what a state of the server says. */
  ghost predicate Shows(p: Params, s: State, store: Store, stats: Stats)
    reads store, store.Repr, stats
  {
    && store.Valid() && stats !in store.Repr && store.config == p.config
    && !p.intended && p.cap == MAX_DICT_SIZE && store.Value() == s.dict
    && s.gets == stats.numGetReq && s.succs == stats.numGetReqSucc && s.fails == stats.numGetReqFail
  }

  predicate Serves(s: State, w: nat) {
    w < |s.pcs| && s.pcs[w].Idle? && s.mtx == None
  }

  function GetSteps(w: nat, key: Key): seq<Action> {
    [CountRequest(w, key), EnterGet(w), LookUpLocked(w), CountOutcome(w)]
  }

  function SetSteps(w: nat, key: Key, val: string): seq<Action> {
    [TestCapacity(w, key, val), EnterSet(w), InsertLocked(w)]
  }

  /** A whole GET by one worker. */
  lemma GetAlone(p: Params, s: State, w: nat, key: Key)
    requires ValidConfig(p.config) && Serves(s, w) && !p.intended
    ensures var reply := Get(p.config, s.dict, key, "");
            After(p, s, GetSteps(w, key)) ==
            Some(s.(gets := s.gets + 1,
                    succs := s.succs + (if reply.ok then 1 else 0),
                    fails := s.fails + (if reply.ok then 0 else 1),
                    answers := s.answers + [Answer(key, |s.log|, s.dict.filter.Some?, reply)]))
  {
    OneMore(p, s, [], CountRequest(w, key));
    OneMore(p, s, [] + [CountRequest(w, key)], EnterGet(w));
    OneMore(p, s, [] + [CountRequest(w, key)] + [EnterGet(w)], LookUpLocked(w));
    OneMore(p, s, [] + [CountRequest(w, key)] + [EnterGet(w)] + [LookUpLocked(w)], CountOutcome(w));
    assert [] + [CountRequest(w, key)] + [EnterGet(w)] + [LookUpLocked(w)] + [CountOutcome(w)] == GetSteps(w, key);
    var reply := Get(p.config, s.dict, key, "");
    var counted, getting, answered := Counted(key), Getting(key, s.dict.filter.Some?), Answered(reply);
    assert s.pcs[w := counted][w := getting][w := answered][w := Idle] == s.pcs;
  }

  /** A whole SET by one worker: rejected at capacity, stored otherwise. */
  lemma SetAlone(p: Params, s: State, w: nat, key: Key, val: string)
    requires ValidConfig(p.config) && Serves(s, w)
    ensures !HasRoom(s.dict, p.cap) ==> After(p, s, [TestCapacity(w, key, val)]) == Some(s)
    ensures HasRoom(s.dict, p.cap) ==>
              After(p, s, SetSteps(w, key, val)) ==
              Some(s.(dict := Commit(p.config, s.dict, key, val), log := s.log + [Entry(key, val)]))
  {
    OneMore(p, s, [], TestCapacity(w, key, val));
    assert [] + [TestCapacity(w, key, val)] == [TestCapacity(w, key, val)];
    if HasRoom(s.dict, p.cap) {
      OneMore(p, s, [TestCapacity(w, key, val)], EnterSet(w));
      OneMore(p, s, [TestCapacity(w, key, val)] + [EnterSet(w)], InsertLocked(w));
      assert [TestCapacity(w, key, val)] + [EnterSet(w)] + [InsertLocked(w)] == SetSteps(w, key, val);
      assert s.pcs[w := Checked(key, val)][w := Setting(key, val, s.dict.filter.Some?)][w := Idle] == s.pcs;
    }
  }

  /** A whole STAT by one worker: three reads of an unchanging state. */
  lemma StatAlone(p: Params, s: State, w: nat)
    requires ValidConfig(p.config) && Serves(s, w)
    ensures After(p, s, [LoadGets(w), LoadSuccs(w), LoadFails(w)]) ==
            Some(s.(reports := s.reports + [Report(s.gets, s.succs, s.fails, s.gets)]))
  {
    OneMore(p, s, [], LoadGets(w));
    OneMore(p, s, [] + [LoadGets(w)], LoadSuccs(w));
    OneMore(p, s, [] + [LoadGets(w)] + [LoadSuccs(w)], LoadFails(w));
    assert [] + [LoadGets(w)] + [LoadSuccs(w)] + [LoadFails(w)] == [LoadGets(w), LoadSuccs(w), LoadFails(w)];
    assert s.pcs[w := ReadGets(s.gets)][w := ReadSuccs(s.gets, s.succs)][w := Idle] == s.pcs;
  }

  class Flow {
    const store: Store
    const stats: Stats

    constructor (store: Store, stats: Stats)
      ensures this.store == store && this.stats == stats
    {
      this.store, this.stats := store, stats;
    }

    method HandleGetRequest(key: Key, ghost p: Params, ghost s: State, ghost w: nat)
      returns (response: Response, ghost s': State)
      requires Shows(p, s, store, stats) && Serves(s, w)
      modifies stats
      ensures Shows(p, s', store, stats)
      ensures After(p, s, GetSteps(w, key)) == Some(s')
      ensures var reply := Get(p.config, s.dict, key, "");
              response == if reply.ok then Value(reply.val) else Reason(reply.val)
    {
      GetAlone(p, s, w, key);
      s' := After(p, s, GetSteps(w, key)).value;
      var value := "";
      stats.IncrGetReq();
      var found;
      found, value := store.Lookup(key, value);
      if found {
        response := Value(value);
        stats.IncrGetReqSucc();
      } else {
        stats.IncrGetReqFail();
        response := Reason(value);
      }
    }

    method HandleSetRequest(key: Key, val: string, ghost p: Params, ghost s: State, ghost w: nat)
      returns (response: Response, ghost s': State)
      requires Shows(p, s, store, stats) && Serves(s, w)
      modifies store.Repr
      ensures Shows(p, s', store, stats)
      ensures response == if HasRoom(s.dict, p.cap) then Plain else Reason("failed")
      ensures After(p, s, if HasRoom(s.dict, p.cap) then SetSteps(w, key, val)
                          else [TestCapacity(w, key, val)]) == Some(s')
    {
      SetAlone(p, s, w, key, val);
      s' := if HasRoom(s.dict, p.cap) then After(p, s, SetSteps(w, key, val)).value else s;
      response := Plain;
      var stored := store.Set(key, val);
      if !stored {
        response := Reason("failed");
      }
    }

    method HandleStatRequest(ghost p: Params, ghost s: State, ghost w: nat)
      returns (response: Response, ghost s': State)
      requires Shows(p, s, store, stats) && Serves(s, w)
      ensures Shows(p, s', store, stats)
      ensures After(p, s, [LoadGets(w), LoadSuccs(w), LoadFails(w)]) == Some(s')
      ensures response == Counters(s.gets, s.succs, s.fails)
      ensures s'.reports == s.reports + [Report(response.gets, response.succs, response.fails, s.gets)]
    {
      StatAlone(p, s, w);
      s' := After(p, s, [LoadGets(w), LoadSuccs(w), LoadFails(w)]).value;
      response := Counters(stats.numGetReq, stats.numGetReqSucc, stats.numGetReqFail);
    }
  }
}
