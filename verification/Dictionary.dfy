/** The dictionary: a map guarded by one mutex, optionally fronted by a Bloom filter. The functions
    give what one locked section does to the value of the dictionary; the class does it in place. */
module Dictionary {
  import opened Wrappers
  import opened BloomTheory
  import Bloom
  import HashAp

  const MAX_DICT_SIZE: nat := 1000000
  const NOT_FOUND: string := "NOT_FOUND"

  /** The hash salts and table size that the filter is built with. */
  datatype Config = Config(salt: seq<bv32>, tableSize: nat)

  predicate ValidConfig(cfg: Config) {
    0 < cfg.tableSize && cfg.tableSize % 8 == 0
  }

  function Bits(cfg: Config, key: Key): set<nat>
    requires ValidConfig(cfg)
  {
    KeyBits(key, cfg.salt, [cfg.tableSize])
  }

  /** The value of the dictionary: the map, and the bits of the filter when it is enabled. */
  datatype Dict = Dict(entries: map<Key, string>, filter: Option<set<nat>>)

  predicate HasRoom(d: Dict, cap: nat) {
    |d.entries| < cap
  }

  /** The locked part of `set`. */
  function Commit(cfg: Config, d: Dict, key: Key, val: string): Dict
    requires ValidConfig(cfg)
  {
    Dict(d.entries[key := val],
         if d.filter.Some? then Some(d.filter.value + Bits(cfg, key)) else None)
  }

  /** The same without the filter. */
  function Put(d: Dict, key: Key, val: string): Dict {
    d.(entries := d.entries[key := val])
  }

  predicate MayContain(cfg: Config, d: Dict, key: Key)
    requires ValidConfig(cfg) && d.filter.Some?
  {
    Bits(cfg, key) <= d.filter.value
  }

  datatype Reply = Reply(ok: bool, val: string)

  /** The branch of `get` without a filter. */
  function PlainGet(d: Dict, key: Key): Reply {
    if key in d.entries then Reply(true, d.entries[key]) else Reply(false, NOT_FOUND)
  }

  /** `get` as written; `val` is what the caller's string held before the call. */
  function Get(cfg: Config, d: Dict, key: Key, val: string): Reply
    requires ValidConfig(cfg)
  {
    if d.filter.Some? then
      if MayContain(cfg, d, key) then Reply(false, if key in d.entries then d.entries[key] else val)
      else Reply(false, NOT_FOUND)
    else PlainGet(d, key)
  }

  /** `get` as it is meant: the filter only spares the search for keys it reports absent. */
  function IntendedGet(cfg: Config, d: Dict, key: Key): Reply
    requires ValidConfig(cfg)
  {
    if d.filter.Some? && !MayContain(cfg, d, key) then Reply(false, NOT_FOUND) else PlainGet(d, key)
  }

  /** `enableBloomFilter`: enabling always starts from an empty table. */
  function Enable(d: Dict, on: bool): Dict {
    d.(filter := if on then Some({}) else None)
  }

  /** The filter misses no stored key. */
  predicate NoMisses(cfg: Config, d: Dict)
    requires ValidConfig(cfg)
  {
    d.filter.Some? ==> forall key | key in d.entries :: MayContain(cfg, d, key)
  }

  lemma CommitKeepsNoMisses(cfg: Config, d: Dict, key: Key, val: string)
    requires ValidConfig(cfg) && NoMisses(cfg, d)
    ensures NoMisses(cfg, Commit(cfg, d, key, val))
  {
    var d' := Commit(cfg, d, key, val);
    if d.filter.Some? {
      forall k | k in d'.entries ensures MayContain(cfg, d', k) {
        assert k == key || MayContain(cfg, d, k);
      }
    }
  }

  /** Enabling the filter is safe exactly on an empty map; a filter with no salts rejects nothing. */
  lemma EnableIsSafeExactlyWhenEmpty(cfg: Config, d: Dict)
    requires ValidConfig(cfg)
    ensures NoMisses(cfg, Enable(d, true)) <==> d.entries == map[] || cfg.salt == []
  {
    if d.entries != map[] {
      var key :| key in d.entries;
      if cfg.salt != [] {
        assert Reduce(HashAp.Hash(key, cfg.salt[0]) as nat, [cfg.tableSize]) in Bits(cfg, key);
        assert !MayContain(cfg, Enable(d, true), key);
      }
    }
  }

  /** The filter is invisible to every intended `get` exactly when it misses no stored key. */
  lemma FilterInvisibleExactlyWithoutMisses(cfg: Config, d: Dict)
    requires ValidConfig(cfg)
    ensures (forall key: Key :: IntendedGet(cfg, d, key) == PlainGet(d, key)) <==> NoMisses(cfg, d)
  {
    if !NoMisses(cfg, d) {
      var key :| key in d.entries && !MayContain(cfg, d, key);
      assert IntendedGet(cfg, d, key) != PlainGet(d, key);
    }
  }

  /** `get` as written agrees with the unfiltered branch exactly for an absent key that the filter
      also reports absent, or whose caller already had the not-found text in the string. */
  lemma GetAgreesExactly(cfg: Config, d: Dict, key: Key, val: string)
    requires ValidConfig(cfg)
    ensures Get(cfg, d, key, val) == PlainGet(d, key) <==>
            d.filter == None || (key !in d.entries && (MayContain(cfg, d, key) ==> val == NOT_FOUND))
    ensures Get(cfg, d, key, val).val == PlainGet(d, key).val <==>
            || d.filter == None
            || (key in d.entries && (MayContain(cfg, d, key) || d.entries[key] == NOT_FOUND))
            || (key !in d.entries && (MayContain(cfg, d, key) ==> val == NOT_FOUND))
  {}

  /** A stored key read back through the filter: the value is right, the flag is not. */
  lemma HitIsReportedAsFailure(cfg: Config)
    requires ValidConfig(cfg)
    ensures var d := Commit(cfg, Dict(map[], Some({})), [0x6B, 0x32], "v2");
            Get(cfg, d, [0x6B, 0x32], "") == Reply(false, "v2") && PlainGet(d, [0x6B, 0x32]) == Reply(true, "v2")
  {
    var d := Commit(cfg, Dict(map[], Some({})), [0x6B, 0x32], "v2");
    assert MayContain(cfg, d, [0x6B, 0x32]);
  }

  /** Without a filter, or with the filter switched off again, every key is answered from the map. */
  lemma AnsweredFromTheMap(cfg: Config, d: Dict, key: Key, val: string)
    requires ValidConfig(cfg)
    ensures key in d.entries ==> Get(cfg, Enable(d, false), key, val) == Reply(true, d.entries[key])
    ensures key !in d.entries ==> Get(cfg, Enable(d, false), key, val) == Reply(false, "NOT_FOUND")
  {}

  /** One accepted `set`, in lock order. */
  datatype Entry = Entry(key: Key, val: string)

  /** The dictionary after a sequence of accepted sets. */
  function Replay(cfg: Config, filterOn: bool, log: seq<Entry>): Dict
    requires ValidConfig(cfg)
  {
    if log == [] then Enable(Dict(map[], None), filterOn)
    else
      var e := log[|log| - 1];
      Commit(cfg, Replay(cfg, filterOn, log[..|log| - 1]), e.key, e.val)
  }

  /** Reference: the value of the last accepted set of a key, found by searching backwards. */
  function Latest(log: seq<Entry>, key: Key): Reply {
    if log == [] then Reply(false, NOT_FOUND)
    else if log[|log| - 1].key == key then Reply(true, log[|log| - 1].val)
    else Latest(log[..|log| - 1], key)
  }

  /** Every intended `get` returns the latest set in lock order, with or without the filter. */
  lemma {:induction false} GetIsLatest(cfg: Config, filterOn: bool, log: seq<Entry>, key: Key)
    requires ValidConfig(cfg)
    ensures NoMisses(cfg, Replay(cfg, filterOn, log))
    ensures IntendedGet(cfg, Replay(cfg, filterOn, log), key) == PlainGet(Replay(cfg, filterOn, log), key)
    ensures PlainGet(Replay(cfg, filterOn, log), key) == Latest(log, key)
  {
    if log != [] {
      var e := log[|log| - 1];
      GetIsLatest(cfg, filterOn, log[..|log| - 1], key);
      CommitKeepsNoMisses(cfg, Replay(cfg, filterOn, log[..|log| - 1]), e.key, e.val);
    }
  }

  class Store {
    const config: Config
    var entries: map<Key, string>
    var bloomFilterEnabled: bool
    var bloomFilter: Bloom.BloomFilter?
    ghost var Repr: set<object>

    ghost predicate Valid()
      reads this, Repr
    {
      && this in Repr && ValidConfig(config)
      && (bloomFilterEnabled ==> bloomFilter != null)
      && (bloomFilter != null ==>
            && bloomFilter in Repr && bloomFilter.bitTable in Repr && bloomFilter.Valid()
            && bloomFilter.sizes == [config.tableSize] && bloomFilter.salt == config.salt)
    }

    ghost function Value(): Dict
      requires Valid()
      reads this, Repr
    {
      Dict(entries, if bloomFilterEnabled then Some(bloomFilter.Bits()) else None)
    }

    constructor (config: Config)
      requires ValidConfig(config)
      ensures Valid() && fresh(Repr) && this.config == config && Value() == Dict(map[], None)
    {
      this.config := config;
      entries, bloomFilterEnabled, bloomFilter, Repr := map[], false, null, {this};
    }

    method EnableBloomFilter(enable: bool)
      requires Valid()
      modifies Repr
      ensures Valid() && fresh(Repr - old(Repr)) && Value() == Enable(old(Value()), enable)
    {
      bloomFilterEnabled := enable;
      if bloomFilterEnabled {
        bloomFilter := new Bloom.BloomFilter(config.tableSize, config.salt, 0);
        Repr := {this, bloomFilter, bloomFilter.bitTable};
      }
    }

    /** `set` without interference: rejected at capacity even for a stored key. */
    method Set(key: Key, val: string) returns (ok: bool)
      requires Valid()
      modifies Repr
      ensures Valid() && Repr == old(Repr)
      ensures ok <==> |old(entries)| < 1_000_000
      ensures Value() == if ok then Commit(config, old(Value()), key, val) else old(Value())
    {
      if |entries| >= MAX_DICT_SIZE {
        return false;
      }
      if bloomFilterEnabled {
        bloomFilter.Insert(key);
      }
      entries := entries[key := val];
      return true;
    }

    /** `get` as written. */
    method Lookup(key: Key, val: string) returns (ret: bool, out: string)
      requires Valid()
      ensures Reply(ret, out) == Get(config, Value(), key, val)
    {
      ret, out := true, val;
      if bloomFilterEnabled {
        var present := bloomFilter.Contains(key);
        if present {
          if key in entries {
            out := entries[key];
          }
          ret := false;
        } else {
          out, ret := NOT_FOUND, false;
        }
      } else if key in entries {
        out := entries[key];
      } else {
        out, ret := NOT_FOUND, false;
      }
    }
  }
}
