/** When combining two filters is right. The guard of the operators compares the salt count, the table
    size and the seed; what matters is that both filters turn a key into the same bits. */
module FilterAlgebra {
  import opened BitTables
  import opened BloomTheory
  import opened Division

  import Bloom
  import HashAp

  // ---- Every hash is reached

  lemma WordOfBytes(w: bv32)
    ensures HashAp.Word32(HashAp.Bytes32(w)) == w
  {}

  lemma MixFromZero(h: bv32)
    ensures HashAp.MixEven(0, !h) == h
  {}

  /** Under salt 0 every 32-bit value is the hash of some key. */
  lemma HashReachesEverything(h: bv32) returns (key: Key)
    ensures HashAp.Hash(key, 0) == h
  {
    key := HashAp.Bytes32(!h);
    WordOfBytes(!h);
    MixFromZero(h);
    HashAp.HashIsReference(HashAp.AP, key, 0);
  }

  // ---- The exact condition on keys

  /** `|=` on filters that hold key sets gives the table of both, whatever the key sets. */
  ghost predicate UnionIsRight(salt: seq<bv32>, sizes: seq<nat>, salt': seq<bv32>, sizes': seq<nat>)
    requires Chain(sizes) && Chain(sizes')
  {
    forall a: set<Key>, b: set<Key> ::
      Image(a, salt, sizes) + Below(Image(b, salt', sizes'), Last(sizes) / 8) == Image(a + b, salt, sizes)
  }

  /** `&=` reports exactly the keys that both operands reported, whatever their tables. */
  ghost predicate IntersectIsRight(salt: seq<bv32>, sizes: seq<nat>, salt': seq<bv32>, sizes': seq<nat>)
    requires Chain(sizes) && Chain(sizes')
  {
    forall a: set<nat>, b: set<nat>, key: Key | InTable(a, sizes) && InTable(b, sizes') ::
      KeyBits(key, salt, sizes) <= a * b <==> KeyBits(key, salt, sizes) <= a && KeyBits(key, salt', sizes') <= b
  }

  predicate InTable(bits: set<nat>, sizes: seq<nat>)
    requires |sizes| > 0
  {
    forall b | b in bits :: b < Last(sizes)
  }

  lemma KeyBitsInTable(key: Key, salt: seq<bv32>, sizes: seq<nat>)
    requires Chain(sizes)
    ensures InTable(KeyBits(key, salt, sizes), sizes)
  {
    forall b | b in KeyBits(key, salt, sizes) ensures b < Last(sizes) {
      var i :| 0 <= i < |salt| && Reduce(HashAp.Hash(key, salt[i]) as nat, sizes) == b;
    }
  }

  lemma ImageOfOne(key: Key, salt: seq<bv32>, sizes: seq<nat>)
    requires Positive(sizes)
    ensures Image({key}, salt, sizes) == KeyBits(key, salt, sizes) && Image({}, salt, sizes) == {}
  {}

  /** With tables of equal length `|=` is right exactly when every key has the same bits in both. */
  lemma UnionIsRightExactly(salt: seq<bv32>, sizes: seq<nat>, salt': seq<bv32>, sizes': seq<nat>)
    requires Chain(sizes) && Chain(sizes') && Last(sizes) == Last(sizes')
    ensures UnionIsRight(salt, sizes, salt', sizes') <==> SameBits(salt, sizes, salt', sizes')
  {
    if SameBits(salt, sizes, salt', sizes') {
      forall a: set<Key>, b: set<Key>
        ensures Image(a, salt, sizes) + Below(Image(b, salt', sizes'), Last(sizes) / 8) == Image(a + b, salt, sizes)
      {
        Bloom.UnionIsTableOfBothKeySets(a, b, salt, sizes, salt', sizes');
      }
    }
    if UnionIsRight(salt, sizes, salt', sizes') {
      forall key: Key ensures KeyBits(key, salt, sizes) == KeyBits(key, salt', sizes') {
        OneKeyInTheOtherFilter(key, salt, sizes, salt', sizes');
      }
    }
  }

  lemma OneKeyInTheOtherFilter(key: Key, salt: seq<bv32>, sizes: seq<nat>, salt': seq<bv32>, sizes': seq<nat>)
    requires Chain(sizes) && Chain(sizes') && Last(sizes) == Last(sizes')
    requires UnionIsRight(salt, sizes, salt', sizes')
    ensures KeyBits(key, salt, sizes) == KeyBits(key, salt', sizes')
  {
    var none: set<Key> := {};
    ImageOfOne(key, salt, sizes);
    ImageOfOne(key, salt', sizes');
    KeyBitsInTable(key, salt', sizes');
    assert Below(Image({key}, salt', sizes'), Last(sizes) / 8) == KeyBits(key, salt', sizes');
    assert none + {key} == {key};
    assert Image(none, salt, sizes) + Below(Image({key}, salt', sizes'), Last(sizes) / 8) ==
           Image(none + {key}, salt, sizes);
  }

  /** So is `&=`. */
  lemma IntersectIsRightExactly(salt: seq<bv32>, sizes: seq<nat>, salt': seq<bv32>, sizes': seq<nat>)
    requires Chain(sizes) && Chain(sizes') && Last(sizes) == Last(sizes')
    ensures IntersectIsRight(salt, sizes, salt', sizes') <==> SameBits(salt, sizes, salt', sizes')
  {
    if IntersectIsRight(salt, sizes, salt', sizes') {
      forall key: Key ensures KeyBits(key, salt, sizes) == KeyBits(key, salt', sizes') {
        var a, b := KeyBits(key, salt, sizes), KeyBits(key, salt', sizes');
        KeyBitsInTable(key, salt, sizes);
        KeyBitsInTable(key, salt', sizes');
        assert InTable(a, sizes) && InTable(a, sizes') && InTable(b, sizes');
        assert a <= a * a <==> a <= a && b <= a;
        assert a <= a * b <==> a <= a && b <= b;
      }
    }
  }

  // ---- The exact condition on hashes

  /** For filters with equal salts: both operators are right under every choice of salts exactly when the
      chains agree on every hash. Equal chains agree, and so do halving ones that end at one size. */
  lemma OperatorsAreRightExactly(sizes: seq<nat>, sizes': seq<nat>)
    requires Chain(sizes) && Chain(sizes') && Last(sizes) == Last(sizes')
    ensures (forall salt :: UnionIsRight(salt, sizes, salt, sizes')) <==> ChainsAgree(sizes, sizes')
    ensures (forall salt :: IntersectIsRight(salt, sizes, salt, sizes')) <==> ChainsAgree(sizes, sizes')
    ensures sizes == sizes' || (Halving(sizes) && Halving(sizes')) ==> ChainsAgree(sizes, sizes')
  {
    forall salt
      ensures UnionIsRight(salt, sizes, salt, sizes') <==> SameBits(salt, sizes, salt, sizes')
      ensures IntersectIsRight(salt, sizes, salt, sizes') <==> SameBits(salt, sizes, salt, sizes')
      ensures ChainsAgree(sizes, sizes') ==> SameBits(salt, sizes, salt, sizes')
    {
      UnionIsRightExactly(salt, sizes, salt, sizes');
      IntersectIsRightExactly(salt, sizes, salt, sizes');
      if ChainsAgree(sizes, sizes') {
        AgreeingReductionsGiveSameBits(salt, sizes, sizes');
      }
    }
    if !ChainsAgree(sizes, sizes') {
      var h: bv32 :| !AgreeOn(h, sizes, sizes');
      DisagreementShows(h, sizes, sizes');
      assert !UnionIsRight([0], sizes, [0], sizes') && !IntersectIsRight([0], sizes, [0], sizes');
    }
    if Halving(sizes) && Halving(sizes') {
      HalvingChainsAgree(sizes, sizes');
    }
  }

  /** A hash on which the chains disagree is the hash of a key, which then has different bits. */
  lemma DisagreementShows(h: bv32, sizes: seq<nat>, sizes': seq<nat>)
    requires Positive(sizes) && Positive(sizes') && !AgreeOn(h, sizes, sizes')
    ensures !SameBits([0], sizes, [0], sizes')
  {
    var key := HashReachesEverything(h);
    OneSalt(key, 0, sizes);
    OneSalt(key, 0, sizes');
  }

  lemma OneSalt(key: Key, salt: bv32, sizes: seq<nat>)
    requires Positive(sizes)
    ensures KeyBits(key, [salt], sizes) == {Reduce(HashAp.Hash(key, salt) as nat, sizes)}
  {
    var bits := KeyBits(key, [salt], sizes);
    assert Reduce(HashAp.Hash(key, [salt][0]) as nat, sizes) in bits;
  }

  // ---- A test that a caller can run

  lemma {:induction false} ReduceFromFirst(h: nat, sizes: seq<nat>)
    requires |sizes| > 0 && Positive(sizes)
    ensures h % sizes[0] < sizes[0] && Reduce(h, sizes) == Reduce(h % sizes[0], sizes)
  {
    var init, m := sizes[..|sizes| - 1], sizes[0];
    var q, r := Split(h, m);
    if init == [] {
      UniqueRemainder(r, m, 0, r);
      assert Reduce(h, init) == h && Reduce(r, init) == r;
    } else {
      ReduceFromFirst(h, init);
    }
  }

  /** The chains agree on every index of the original table that is a hash at all. */
  predicate AgreeBelowFirst(sizes: seq<nat>, sizes': seq<nat>)
    requires |sizes| > 0 && Positive(sizes) && Positive(sizes')
  {
    forall i: nat | i < sizes[0] && i < HASHES :: Reduce(i, sizes) == Reduce(i, sizes')
  }

  /** Filters that pass the guard have the same original size, and then it is enough to compare the chains
      on the indices of the original table. */
  lemma ChainsAgreeExactlyBelowFirst(sizes: seq<nat>, sizes': seq<nat>)
    requires Chain(sizes) && Chain(sizes') && sizes[0] == sizes'[0]
    ensures ChainsAgree(sizes, sizes') <==> AgreeBelowFirst(sizes, sizes')
  {
    if AgreeBelowFirst(sizes, sizes') {
      forall h: bv32 ensures AgreeOn(h, sizes, sizes') {
        ReduceAlike(h as nat, sizes, sizes');
      }
    }
    if ChainsAgree(sizes, sizes') {
      forall i: nat | i < sizes[0] && i < HASHES ensures Reduce(i, sizes) == Reduce(i, sizes') {
        var h := HashOf(i);
        assert AgreeOn(h, sizes, sizes');
      }
    }
  }

  lemma ReduceAlike(h: nat, sizes: seq<nat>, sizes': seq<nat>)
    requires |sizes| > 0 && |sizes'| > 0 && Positive(sizes) && Positive(sizes') && sizes[0] == sizes'[0]
    requires h < HASHES && AgreeBelowFirst(sizes, sizes')
    ensures Reduce(h, sizes) == Reduce(h, sizes')
  {
    ReduceFromFirst(h, sizes);
    ReduceFromFirst(h, sizes');
    RemainderIsNoLarger(h, sizes[0]);
  }

  lemma Doubled(h: bv32)
    requires h as nat < 0x8000_0000
    ensures (h << 1) as nat == 2 * (h as nat) && ((h << 1) | 1) as nat == 2 * (h as nat) + 1
  {
    assert h < 0x8000_0000;
  }

  /** Every number below 2^32 is the value of a 32-bit word. */
  lemma {:induction false} HashOf(i: nat) returns (h: bv32)
    requires i < HASHES
    ensures h as nat == i
  {
    h := 0;
    if i > 0 {
      var half := HashOf(i / 2);
      Doubled(half);
      h := if i % 2 == 0 then half << 1 else (half << 1) | 1;
    }
  }

  lemma RemainderIsNoLarger(h: nat, m: nat)
    requires 0 < m
    ensures h % m <= h
  {
    if h < m {
      UniqueRemainder(h, m, 0, h);
    }
  }

  // ---- Filters that pass the guard and disagree

  lemma ReduceThrough(h: nat, sizes: seq<nat>, n: nat, r: nat)
    requires Positive(sizes) && 0 < n && Reduce(h, sizes) == r
    ensures Positive(sizes + [n]) && Reduce(h, sizes + [n]) == r % n
  {
    ReduceOnceMore(h, sizes, n);
  }

  /** Reductions of the hash of the empty key under salt 50. */
  lemma CrossedReductions()
    ensures HashAp.Hash([], 50) == 50
    ensures Reduce(50, [64, 48, 32]) == 2 && Reduce(50, [64, 32]) == 18
  {
    ReduceThrough(50, [], 64, 50);
    assert [] + [64] == [64];
    ReduceThrough(50, [64], 32, 50);
    assert [64] + [32] == [64, 32];
    ReduceThrough(50, [64], 48, 50);
    assert [64] + [48] == [64, 48];
    ReduceThrough(50, [64, 48], 32, 2);
    assert [64, 48] + [32] == [64, 48, 32];
  }

  /** Two empty filters with one salt, taken through different sizes to the same final one. */
  method Crossed(seed: bv64) returns (a: Bloom.BloomFilter, b: Bloom.BloomFilter)
    ensures a.Valid() && b.Valid() && fresh(a) && fresh(b) && fresh(a.bitTable) && fresh(b.bitTable)
    ensures a != b && a.bitTable != b.bitTable
    ensures a.SameParameters(b) && a.ReadsInRange(b)
    ensures a.salt == b.salt == [50] && a.sizes == [64, 48, 32] && b.sizes == [64, 32]
    ensures a.Bits() == b.Bits() == {}
  {
    a := new Bloom.BloomFilter(64, [50], seed);
    b := new Bloom.BloomFilter(64, [50], seed);
    var done, safe := a.Compress(48);
    assert a.sizes == [64, 48];
    done, safe := a.Compress(32);
    assert a.sizes == [64, 48] + [32];
    done, safe := b.Compress(32);
    assert b.sizes == [64] + [32];
  }

  /** The guard holds and one operand reports the key; after `|=` it is reported absent. */
  method UnionLosesKey(seed: bv64) returns (before: bool, safe: bool, after: bool)
    ensures before && safe && !after
  {
    var a, b := Crossed(seed);
    CrossedReductions();
    OneSalt([], 50, a.sizes);
    OneSalt([], 50, b.sizes);
    b.Insert([]);
    before := b.Contains([]);
    safe := a.Union(b);
    after := a.Contains([]);
  }

  /** The guard holds and both operands report the key; after `&=` it is reported absent. */
  method IntersectLosesKey(seed: bv64) returns (before: bool, before': bool, safe: bool, after: bool)
    ensures before && before' && safe && !after
  {
    var a, b := Crossed(seed);
    CrossedReductions();
    OneSalt([], 50, a.sizes);
    OneSalt([], 50, b.sizes);
    a.Insert([]);
    b.Insert([]);
    before := a.Contains([]);
    before' := b.Contains([]);
    safe := a.Intersect(b);
    after := a.Contains([]);
  }

  /** The guard holds, and the operators read past the end of a compressed operand. */
  method CompressedOperandIsTooShort(seed: bv64) returns (done: bool, safe: bool)
    ensures done && !safe
  {
    var a := new Bloom.BloomFilter(64, [50], seed);
    var b := new Bloom.BloomFilter(64, [50], seed);
    done, safe := b.Compress(32);
    safe := a.Union(b);
  }

  // ---- Compressing by more than half

  /** A reduction by a whole percentage above 50 that `compress` accepts always writes past the end of
      the new table. */
  lemma MoreThanHalfOverruns(size: nat, percentage: nat)
    requires 50 < percentage < 100 && Accepts([size], size * (100 - percentage) / 100)
    ensures !FoldsOnce([size], size * (100 - percentage) / 100)
  {
    var kept := size * (100 - percentage);
    AtMostFortyNine(size, 100 - percentage);
    assert 100 * (kept / 100) <= kept;
  }

  lemma AtMostFortyNine(size: nat, k: nat)
    requires k <= 49
    ensures size * k <= 49 * size
  {
    assert size * (49 - k) >= 0;
  }

  /** Half of 24 bits, rounded down to whole bytes, is already too little. */
  method HalvingOverruns() returns (safe: bool)
    ensures !safe
  {
    var a := new Bloom.BloomFilter(24, [50], 0);
    var done;
    done, safe := a.Compress(12);
  }
}
