/** What a Bloom filter denotes, independently of its bytes: the chain of table sizes through which
    an index is reduced, the bits of a key, and runs of inserts and compressions. */
module BloomTheory {
  import opened BitTables
  import opened Division
  import HashAp

  type Key = seq<bv8>

  /** The abstract value of a filter: the bits that are set and the sizes its table has had, the
      original one first. */
  datatype View = View(bits: set<nat>, sizes: seq<nat>)

  predicate Positive(sizes: seq<nat>) {
    forall i | 0 <= i < |sizes| :: 0 < sizes[i]
  }

  /** The sizes a filter can go through: whole bytes, each at least half the one before. */
  predicate Chain(sizes: seq<nat>) {
    && |sizes| > 0
    && (forall i | 0 <= i < |sizes| :: 8 <= sizes[i] && sizes[i] % 8 == 0)
    && (forall i | 1 <= i < |sizes| :: sizes[i] < sizes[i - 1] <= 2 * sizes[i])
  }

  function Last(sizes: seq<nat>): nat
    requires |sizes| > 0
  {
    sizes[|sizes| - 1]
  }

  /** A hash reduced by the first size, then by the second, and so on. */
  function Reduce(h: nat, sizes: seq<nat>): (r: nat)
    requires Positive(sizes)
    ensures |sizes| > 0 ==> r < Last(sizes)
  {
    if sizes == [] then h else Reduce(h, sizes[..|sizes| - 1]) % Last(sizes)
  }

  function KeyBits(key: Key, salt: seq<bv32>, sizes: seq<nat>): set<nat>
    requires Positive(sizes)
  {
    set i | 0 <= i < |salt| :: Reduce(HashAp.Hash(key, salt[i]) as nat, sizes)
  }

  /** The bits of all keys of a set, each computed directly through the whole chain. */
  function Image(keys: set<Key>, salt: seq<bv32>, sizes: seq<nat>): set<nat>
    requires Positive(sizes)
  {
    set key, b | key in keys && b in KeyBits(key, salt, sizes) :: b
  }

  function KeySet(keys: seq<Key>): set<Key> {
    set key | key in keys
  }

  datatype Op = Insert(key: Key) | Compress(target: nat)

  function RoundDown(target: nat): nat {
    target - target % 8
  }

  /** The guard of `compress` after rounding down to whole bytes. */
  predicate Accepts(sizes: seq<nat>, target: nat)
    requires |sizes| > 0
  {
    8 <= RoundDown(target) < Last(sizes)
  }

  /** The OR loop of `compress` advances over the new table once, so an accepted size must be at least
      half the present one. */
  predicate FoldsOnce(sizes: seq<nat>, target: nat)
    requires |sizes| > 0
  {
    Accepts(sizes, target) ==> Last(sizes) <= 2 * RoundDown(target)
  }

  function Step(v: View, salt: seq<bv32>, op: Op): View
    requires Positive(v.sizes) && |v.sizes| > 0
  {
    match op
    case Insert(key) => View(v.bits + KeyBits(key, salt, v.sizes), v.sizes)
    case Compress(target) =>
      if Accepts(v.sizes, target) then
        View(ReduceAll(v.bits, RoundDown(target)), v.sizes + [RoundDown(target)])
      else v
  }

  function SizesAfter(sizes: seq<nat>, ops: seq<Op>): (r: seq<nat>)
    requires Positive(sizes) && |sizes| > 0
    ensures Positive(r) && |r| > 0
  {
    if ops == [] then sizes else
      var before := SizesAfter(sizes, ops[..|ops| - 1]);
      match ops[|ops| - 1]
      case Insert(_) => before
      case Compress(target) => if Accepts(before, target) then before + [RoundDown(target)] else before
  }

  function Run(v: View, salt: seq<bv32>, ops: seq<Op>): (r: View)
    requires Positive(v.sizes) && |v.sizes| > 0
    ensures r.sizes == SizesAfter(v.sizes, ops)
  {
    if ops == [] then v else Step(Run(v, salt, ops[..|ops| - 1]), salt, ops[|ops| - 1])
  }

  function Inserted(ops: seq<Op>): set<Key> {
    set op | op in ops && op.Insert? :: op.key
  }

  /** `compress` accepts a size exactly when the largest multiple of eight not above it is at least 8 and below
      the present size. */
  lemma AcceptsExactly(sizes: seq<nat>, target: nat, n: nat)
    requires |sizes| > 0 && n % 8 == 0 && n <= target < n + 8
    ensures RoundDown(target) == n == 8 * (n / 8)
    ensures Accepts(sizes, target) <==> 8 <= n < sizes[|sizes| - 1]
  {}

  lemma ReduceOnceMore(h: nat, sizes: seq<nat>, n: nat)
    requires Positive(sizes) && 0 < n
    ensures Positive(sizes + [n]) && Reduce(h, sizes + [n]) == Reduce(h, sizes) % n
  {
    assert (sizes + [n])[..|sizes|] == sizes;
  }

  lemma KeyBitsOnceMore(key: Key, salt: seq<bv32>, sizes: seq<nat>, n: nat)
    requires Positive(sizes) && 0 < n
    ensures Positive(sizes + [n]) && KeyBits(key, salt, sizes + [n]) == ReduceAll(KeyBits(key, salt, sizes), n)
  {
    forall i | 0 <= i < |salt|
      ensures Reduce(HashAp.Hash(key, salt[i]) as nat, sizes + [n]) ==
              Reduce(HashAp.Hash(key, salt[i]) as nat, sizes) % n
    {
      ReduceOnceMore(HashAp.Hash(key, salt[i]) as nat, sizes, n);
    }
    forall b | b in ReduceAll(KeyBits(key, salt, sizes), n) ensures b in KeyBits(key, salt, sizes + [n]) {
      var k :| k in KeyBits(key, salt, sizes) && k % n == b;
      var i :| 0 <= i < |salt| && Reduce(HashAp.Hash(key, salt[i]) as nat, sizes) == k;
      assert Reduce(HashAp.Hash(key, salt[i]) as nat, sizes + [n]) == b;
    }
    forall b | b in KeyBits(key, salt, sizes + [n]) ensures b in ReduceAll(KeyBits(key, salt, sizes), n) {
      var i :| 0 <= i < |salt| && Reduce(HashAp.Hash(key, salt[i]) as nat, sizes + [n]) == b;
      assert Reduce(HashAp.Hash(key, salt[i]) as nat, sizes) in KeyBits(key, salt, sizes);
    }
  }

  lemma ReduceAllUnion(a: set<nat>, b: set<nat>, n: nat)
    requires 0 < n
    ensures ReduceAll(a + b, n) == ReduceAll(a, n) + ReduceAll(b, n)
  {}

  /** `compress` commutes with `insert`, whatever the filter holds. */
  lemma CompressCommutesWithInsert(v: View, salt: seq<bv32>, key: Key, target: nat)
    requires Positive(v.sizes) && |v.sizes| > 0
    ensures Step(Step(v, salt, Insert(key)), salt, Compress(target)) ==
            Step(Step(v, salt, Compress(target)), salt, Insert(key))
  {
    if Accepts(v.sizes, target) {
      KeyBitsOnceMore(key, salt, v.sizes, RoundDown(target));
      ReduceAllUnion(v.bits, KeyBits(key, salt, v.sizes), RoundDown(target));
    }
  }

  lemma ImageOnceMore(keys: set<Key>, salt: seq<bv32>, sizes: seq<nat>, n: nat)
    requires Positive(sizes) && 0 < n
    ensures Positive(sizes + [n]) && Image(keys, salt, sizes + [n]) == ReduceAll(Image(keys, salt, sizes), n)
  {
    forall key | key in keys
      ensures KeyBits(key, salt, sizes + [n]) == ReduceAll(KeyBits(key, salt, sizes), n)
    {
      KeyBitsOnceMore(key, salt, sizes, n);
    }
    forall b | b in ReduceAll(Image(keys, salt, sizes), n) ensures b in Image(keys, salt, sizes + [n]) {
      var k :| k in Image(keys, salt, sizes) && k % n == b;
      var key :| key in keys && k in KeyBits(key, salt, sizes);
      assert b in KeyBits(key, salt, sizes + [n]);
    }
    forall b | b in Image(keys, salt, sizes + [n]) ensures b in ReduceAll(Image(keys, salt, sizes), n) {
      var key :| key in keys && b in KeyBits(key, salt, sizes + [n]);
      var k :| k in KeyBits(key, salt, sizes) && k % n == b;
      assert k in Image(keys, salt, sizes);
    }
  }

  lemma ImageUnion(a: set<Key>, b: set<Key>, salt: seq<bv32>, sizes: seq<nat>)
    requires Positive(sizes)
    ensures Image(a + b, salt, sizes) == Image(a, salt, sizes) + Image(b, salt, sizes)
  {}

  /** After any run of inserts and compressions from an empty table, the bits are those obtained by
      setting, for every key inserted so far, its bits reduced by the whole chain of sizes. */
  lemma {:induction false} RunDenotes(m: nat, salt: seq<bv32>, ops: seq<Op>)
    requires 0 < m
    ensures Run(View({}, [m]), salt, ops).bits == Image(Inserted(ops), salt, SizesAfter([m], ops))
  {
    if ops != [] {
      var init, op := ops[..|ops| - 1], ops[|ops| - 1];
      assert ops == init + [op];
      RunDenotes(m, salt, init);
      match op
      case Insert(key) =>
        assert Inserted(ops) == Inserted(init) + {key};
        ImageUnion(Inserted(init), {key}, salt, SizesAfter([m], init));
      case Compress(target) =>
        assert Inserted(ops) == Inserted(init);
        if Accepts(SizesAfter([m], init), target) {
          ImageOnceMore(Inserted(init), salt, SizesAfter([m], init), RoundDown(target));
        }
    }
  }

  /** The order of inserts among themselves and relative to the compressions, and repetitions, leave
      no trace: only the set of keys and the chain of sizes matter. */
  lemma InterleavingIrrelevant(m: nat, salt: seq<bv32>, ops: seq<Op>, ops': seq<Op>)
    requires 0 < m
    requires Inserted(ops) == Inserted(ops') && SizesAfter([m], ops) == SizesAfter([m], ops')
    ensures Run(View({}, [m]), salt, ops) == Run(View({}, [m]), salt, ops')
  {
    RunDenotes(m, salt, ops);
    RunDenotes(m, salt, ops');
  }

  /** No inserted key is ever reported absent, however often the table was compressed since. */
  lemma NoFalseNegatives(m: nat, salt: seq<bv32>, ops: seq<Op>, key: Key)
    requires 0 < m && key in Inserted(ops)
    ensures KeyBits(key, salt, SizesAfter([m], ops)) <= Run(View({}, [m]), salt, ops).bits
  {
    RunDenotes(m, salt, ops);
  }

  /** When every compression halves the table, an index is the hash modulo the final size. */
  lemma {:induction false} HalvingIsRebuilding(h: nat, sizes: seq<nat>)
    requires |sizes| > 0 && Positive(sizes)
    requires forall i | 1 <= i < |sizes| :: sizes[i - 1] == 2 * sizes[i]
    ensures Reduce(h, sizes) == h % Last(sizes)
  {
    var init := sizes[..|sizes| - 1];
    if init == [] {
      assert Reduce(h, init) == h;
    } else {
      HalvingIsRebuilding(h, init);
      ModOfDouble(h, Last(init), Last(sizes));
    }
  }

  /** The same for whole filters: after any run whose compressions all halve the table, the filter holds
      the bits of the filter that was given the same keys at the final size from the start. */
  lemma HalvedFilterIsRebuilt(m: nat, salt: seq<bv32>, ops: seq<Op>, ops': seq<Op>)
    requires 0 < m && Halving(SizesAfter([m], ops))
    requires Inserted(ops) == Inserted(ops')
    requires SizesAfter([Last(SizesAfter([m], ops))], ops') == [Last(SizesAfter([m], ops))]
    ensures Run(View({}, [m]), salt, ops).bits == Run(View({}, [Last(SizesAfter([m], ops))]), salt, ops').bits
  {
    var sizes := SizesAfter([m], ops);
    var last := [Last(sizes)];
    RunDenotes(m, salt, ops);
    RunDenotes(Last(sizes), salt, ops');
    assert Halving(last);
    HalvingChainsAgree(sizes, last);
    AgreeingReductionsGiveSameBits(salt, sizes, last);
    assert Image(Inserted(ops), salt, sizes) == Image(Inserted(ops), salt, last);
  }

  predicate Halving(sizes: seq<nat>) {
    |sizes| > 0 && Positive(sizes) && forall i | 1 <= i < |sizes| :: sizes[i - 1] == 2 * sizes[i]
  }

  /** Two ways of turning hashes into bits give every key the same bits. */
  ghost predicate SameBits(salt: seq<bv32>, sizes: seq<nat>, salt': seq<bv32>, sizes': seq<nat>)
    requires Positive(sizes) && Positive(sizes')
  {
    forall key: Key :: KeyBits(key, salt, sizes) == KeyBits(key, salt', sizes')
  }

  predicate AgreeOn(h: bv32, sizes: seq<nat>, sizes': seq<nat>)
    requires Positive(sizes) && Positive(sizes')
  {
    Reduce(h as nat, sizes) == Reduce(h as nat, sizes')
  }

  /** Both chains of sizes reduce every hash to the same index. */
  ghost predicate ChainsAgree(sizes: seq<nat>, sizes': seq<nat>)
    requires Positive(sizes) && Positive(sizes')
  {
    forall h: bv32 :: AgreeOn(h, sizes, sizes')
  }

  lemma AgreeingReductionsGiveSameBits(salt: seq<bv32>, sizes: seq<nat>, sizes': seq<nat>)
    requires Positive(sizes) && Positive(sizes')
    requires ChainsAgree(sizes, sizes')
    ensures SameBits(salt, sizes, salt, sizes')
  {
    forall key: Key ensures KeyBits(key, salt, sizes) == KeyBits(key, salt, sizes') {
      forall i | 0 <= i < |salt|
        ensures Reduce(HashAp.Hash(key, salt[i]) as nat, sizes) == Reduce(HashAp.Hash(key, salt[i]) as nat, sizes')
      {
        assert AgreeOn(HashAp.Hash(key, salt[i]), sizes, sizes');
      }
    }
  }

  /** Halving chains that end at one size agree, however often they halved. */
  lemma HalvingChainsAgree(sizes: seq<nat>, sizes': seq<nat>)
    requires Halving(sizes) && Halving(sizes') && Last(sizes) == Last(sizes')
    ensures ChainsAgree(sizes, sizes')
  {
    forall h: bv32 ensures AgreeOn(h, sizes, sizes') {
      HalvingIsRebuilding(h as nat, sizes);
      HalvingIsRebuilding(h as nat, sizes');
    }
  }

  const HASHES: nat := 0x1_0000_0000

  /** Every byte access of a never-compressed filter is in range, whatever the hash. */
  ghost predicate AccessesInRange(tableSize: nat)
    requires 0 < tableSize
  {
    forall h: nat | h < HASHES :: (h % tableSize) / 8 < tableSize / 8
  }

  /** The table holds `tableSize / 8` bytes, so a size that is not a multiple of eight leaves an
      index past the end, unless it is so large that no hash reaches it. */
  lemma InRangeExactlyForWholeBytes(tableSize: nat)
    requires 0 < tableSize
    ensures AccessesInRange(tableSize) <==> tableSize % 8 == 0 || tableSize >= HASHES
  {
    if tableSize % 8 != 0 && tableSize < HASHES {
      var h: nat := tableSize - 1;
      UniqueRemainder(h, tableSize, 0, h);
      assert (h % tableSize) / 8 >= tableSize / 8;
    } else if tableSize >= HASHES {
      forall h: nat | h < HASHES ensures (h % tableSize) / 8 < tableSize / 8 {
        UniqueRemainder(h, tableSize, 0, h);
      }
    } else {
      forall h: nat | h < HASHES ensures (h % tableSize) / 8 < tableSize / 8 {
        assert h % tableSize < tableSize;
      }
    }
  }

  /** Rounding up to whole bytes, then clamping to the configured bounds. */
  function TableSize(raw: nat, minimum: nat, maximum: nat): nat {
    var rounded := if raw % 8 != 0 then raw + (8 - raw % 8) else raw;
    if rounded < minimum then minimum else if rounded > maximum then maximum else rounded
  }

  /** Between the bounds the size is the least multiple of eight that is not below the estimate. */
  lemma TableSizeIsLeast(raw: nat, minimum: nat, maximum: nat, n: nat)
    requires n % 8 == 0 && n < raw + 8 && raw <= n && minimum <= n <= maximum
    ensures TableSize(raw, minimum, maximum) == n
  {}

  /** With the default bounds the clamp undoes the rounding only for an empty estimate. */
  lemma DefaultBoundsNeedAnEstimate(raw: nat)
    requires raw + 8 <= 0xFFFF_FFFF_FFFF_FFFF
    ensures AccessesInRange(TableSize(raw, 1, 0xFFFF_FFFF_FFFF_FFFF)) <==> 0 < raw
  {
    InRangeExactlyForWholeBytes(TableSize(raw, 1, 0xFFFF_FFFF_FFFF_FFFF));
  }
}
