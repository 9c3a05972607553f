/** The Bloom filter as an object: a table of bytes changed in place, its compressible form, and the
    operators that combine two filters. A filter that was never compressed has a chain of one size. */
module Bloom {
  import opened BitTables
  import opened BloomTheory
  import HashAp

  lemma KeyBitsPrefix(key: Key, salt: seq<bv32>, sizes: seq<nat>, i: nat)
    requires Positive(sizes) && i < |salt|
    ensures KeyBits(key, salt[..i + 1], sizes) ==
            KeyBits(key, salt[..i], sizes) + {Reduce(HashAp.Hash(key, salt[i]) as nat, sizes)}
  {
    var p, q := salt[..i], salt[..i + 1];
    assert q[i] == salt[i] && forall j | 0 <= j < i :: q[j] == p[j];
    forall b | b in KeyBits(key, p, sizes) ensures b in KeyBits(key, q, sizes) {
      var j :| 0 <= j < i && Reduce(HashAp.Hash(key, p[j]) as nat, sizes) == b;
      assert Reduce(HashAp.Hash(key, q[j]) as nat, sizes) == b;
    }
    assert Reduce(HashAp.Hash(key, q[i]) as nat, sizes) in KeyBits(key, q, sizes);
  }

  lemma KeyBitsMonotone(key: Key, salt: seq<bv32>, sizes: seq<nat>, i: nat)
    requires Positive(sizes) && i <= |salt|
    ensures KeyBits(key, salt[..i], sizes) <= KeyBits(key, salt, sizes)
  {
    forall b | b in KeyBits(key, salt[..i], sizes) ensures b in KeyBits(key, salt, sizes) {
      var j :| 0 <= j < i && Reduce(HashAp.Hash(key, salt[..i][j]) as nat, sizes) == b;
      assert Reduce(HashAp.Hash(key, salt[j]) as nat, sizes) == b;
    }
  }

  lemma ImageOfPrefix(keys: seq<Key>, salt: seq<bv32>, sizes: seq<nat>, i: nat)
    requires Positive(sizes) && i < |keys|
    ensures Image(KeySet(keys[..i + 1]), salt, sizes) ==
            Image(KeySet(keys[..i]), salt, sizes) + KeyBits(keys[i], salt, sizes)
  {
    assert KeySet(keys[..i + 1]) == KeySet(keys[..i]) + {keys[i]};
    ImageUnion(KeySet(keys[..i]), {keys[i]}, salt, sizes);
  }

  lemma ChainGrows(sizes: seq<nat>, target: nat)
    requires Chain(sizes) && Accepts(sizes, target) && FoldsOnce(sizes, target)
    ensures RoundDown(target) == 8 * (RoundDown(target) / 8)
    ensures Chain(sizes + [RoundDown(target)]) && Last(sizes + [RoundDown(target)]) == RoundDown(target)
  {
    assert RoundDown(target) == 8 * (target / 8);
  }

  lemma FoldElements(t: seq<bv8>, n: nat, r: seq<bv8>)
    requires n <= |t| <= 2 * n && |r| == n
    requires forall j | 0 <= j < |t| - n :: r[j] == t[j] | t[n + j]
    requires forall j | |t| - n <= j < n :: r[j] == t[j]
    ensures r == Fold(t, n)
  {}

  class BloomFilter {
    const salt: seq<bv32>
    const seed: bv64
    const tableSize: nat
    var bitTable: array<bv8>
    var sizes: seq<nat>
    var elementCount: nat

    ghost predicate Valid()
      reads this`sizes, this`bitTable
    {
      Chain(sizes) && sizes[0] == tableSize && 8 * bitTable.Length == Last(sizes)
    }

    /** The bits set in the table. */
    ghost function Bits(): set<nat>
      reads this`bitTable, bitTable
    {
      BitsOf(bitTable[..])
    }

    ghost function Value(): View
      reads this`sizes, this`bitTable, bitTable
    {
      View(Bits(), sizes)
    }

    /** The keys of a set are what the filter holds. */
    ghost predicate HoldsKeys(keys: set<Key>)
      requires Valid()
      reads this, bitTable
    {
      Positive(sizes) && Bits() == Image(keys, salt, sizes)
    }

    /** What `contains` answers. */
    ghost predicate Reports(key: Key)
      requires Valid()
      reads this, bitTable
    {
      Positive(sizes) && KeyBits(key, salt, sizes) <= Bits()
    }

    constructor (tableSize: nat, salt: seq<bv32>, seed: bv64)
      ensures Valid() <==> 0 < tableSize && tableSize % 8 == 0
      ensures fresh(bitTable)
      ensures this.tableSize == tableSize && this.salt == salt && this.seed == seed
      ensures Value() == View({}, [tableSize]) && elementCount == 0
    {
      this.tableSize, this.salt, this.seed := tableSize, salt, seed;
      sizes, elementCount := [tableSize], 0;
      bitTable := new bv8[tableSize / 8](_ => 0);
      new;
      assert forall k: nat | k < 8 * |bitTable[..]| :: !TestBit(bitTable[..], k);
    }

    /** Index of a hash: reduced by every size the table has had. The access it leads to is in range. */
    method ComputeIndices(hash: bv32) returns (bitIndex: nat, bit: nat)
      requires Valid()
      ensures Positive(sizes) && bitIndex == Reduce(hash as nat, sizes)
      ensures bitIndex / 8 < bitTable.Length && bit == bitIndex % 8
    {
      bitIndex := hash as nat;
      for i := 0 to |sizes|
        invariant Positive(sizes[..i]) && bitIndex == Reduce(hash as nat, sizes[..i])
      {
        assert sizes[..i + 1] == sizes[..i] + [sizes[i]];
        ReduceOnceMore(hash as nat, sizes[..i], sizes[i]);
        bitIndex := bitIndex % sizes[i];
      }
      assert sizes[..|sizes|] == sizes;
      bit := bitIndex % 8;
    }

    /** Hashes a key under one salt and reduces the hash. */
    method KeyIndex(key: Key, i: nat) returns (bitIndex: nat, bit: nat)
      requires Valid() && i < |salt|
      ensures Positive(sizes)
      ensures KeyBits(key, salt[..i + 1], sizes) == KeyBits(key, salt[..i], sizes) + {bitIndex}
      ensures bitIndex / 8 < bitTable.Length && bit == bitIndex % 8
    {
      var hash := HashAp.HashKey(key, salt[i]);
      bitIndex, bit := ComputeIndices(hash);
      KeyBitsPrefix(key, salt, sizes, i);
    }

    method SetBit(bitIndex: nat, bit: nat)
      requires Valid() && bitIndex / 8 < bitTable.Length && bit == bitIndex % 8
      modifies bitTable
      ensures Bits() == old(Bits()) + {bitIndex}
    {
      SetOneBit(bitTable[..], bitIndex);
      bitTable[bitIndex / 8] := bitTable[bitIndex / 8] | BitMask(bit);
      assert bitTable[..] == old(bitTable[..])[bitIndex / 8 := old(bitTable[bitIndex / 8]) | BitMask(bit)];
    }

    method IsSet(bitIndex: nat, bit: nat) returns (isSet: bool)
      requires Valid() && bitIndex / 8 < bitTable.Length && bit == bitIndex % 8
      ensures isSet <==> bitIndex in Bits()
    {
      isSet := bitTable[bitIndex / 8] & BitMask(bit) == BitMask(bit);
      assert TestBit(bitTable[..], bitIndex) <==> isSet;
    }

    /** Sets the bits of the key and no others. */
    method Insert(key: Key)
      requires Valid()
      modifies this`elementCount, bitTable
      ensures Valid() && elementCount == old(elementCount) + 1
      ensures Value() == Step(old(Value()), salt, BloomTheory.Insert(key))
    {
      assert salt[..|salt|] == salt;
      for i := 0 to |salt|
        modifies bitTable
        invariant Bits() == old(Bits()) + KeyBits(key, salt[..i], sizes)
      {
        var bitIndex, bit := KeyIndex(key, i);
        SetBit(bitIndex, bit);
      }
      elementCount := elementCount + 1;
    }

    /** True exactly when every bit of the key is set. */
    method Contains(key: Key) returns (present: bool)
      requires Valid()
      ensures present <==> Reports(key)
    {
      assert salt[..|salt|] == salt;
      for i := 0 to |salt|
        invariant KeyBits(key, salt[..i], sizes) <= Bits()
      {
        var bitIndex, bit := KeyIndex(key, i);
        KeyBitsMonotone(key, salt, sizes, i + 1);
        var isSet := IsSet(bitIndex, bit);
        if !isSet {
          assert bitIndex in KeyBits(key, salt, sizes);
          return false;
        }
      }
      return true;
    }

    /** Inserts the keys of a range in turn. */
    method InsertAll(keys: seq<Key>)
      requires Valid()
      modifies this`elementCount, bitTable
      ensures Valid() && Positive(sizes) && elementCount == old(elementCount) + |keys|
      ensures Bits() == old(Bits()) + Image(KeySet(keys), salt, sizes)
    {
      for i := 0 to |keys|
        invariant Valid() && Bits() == old(Bits()) + Image(KeySet(keys[..i]), salt, sizes)
        invariant elementCount == old(elementCount) + i
      {
        ImageOfPrefix(keys, salt, sizes, i);
        Insert(keys[i]);
      }
      assert keys[..|keys|] == keys;
    }

    /** Index of the first key of a range that is reported absent; the length when there is none. */
    method ContainsAll(keys: seq<Key>) returns (index: nat)
      requires Valid()
      ensures index <= |keys|
      ensures forall i | 0 <= i < index :: Reports(keys[i])
      ensures index < |keys| ==> !Reports(keys[index])
    {
      index := 0;
      while index < |keys|
        invariant index <= |keys|
        invariant forall i | 0 <= i < index :: Reports(keys[i])
      {
        var present := Contains(keys[index]);
        if !present {
          return;
        }
        index := index + 1;
      }
    }

    method Clear()
      requires Valid()
      modifies this`elementCount, bitTable
      ensures Valid() && Value() == View({}, old(sizes)) && elementCount == 0
    {
      for i := 0 to bitTable.Length
        invariant forall j | 0 <= j < i :: bitTable[j] == 0
      {
        bitTable[i] := 0;
      }
      elementCount := 0;
      assert forall k: nat | k < 8 * |bitTable[..]| :: !TestBit(bitTable[..], k);
    }

    /** The guard of the combination operators. */
    predicate SameParameters(f: BloomFilter) {
      |salt| == |f.salt| && tableSize == f.tableSize && seed == f.seed
    }

    /** The other filter gives every key the bits this one gives it. Equal salts and equal sizes are
        enough; the guard of the operators compares neither. */
    ghost predicate Agrees(f: BloomFilter)
      requires Valid() && f.Valid()
      reads this, f
    {
      Positive(sizes) && Positive(f.sizes) && SameBits(salt, sizes, f.salt, f.sizes)
    }

    /** The combination operators read the other table at every index of this one. */
    predicate ReadsInRange(f: BloomFilter)
      reads this, f
    {
      SameParameters(f) ==> bitTable.Length <= f.bitTable.Length
    }

    /** `|=`: the union of the bits, when the parameters agree; for filters that agree on the bits of
        every key, the table of both key sets. `safe` is whether every index read exists. */
    method Union(f: BloomFilter) returns (safe: bool)
      requires Valid()
      modifies bitTable
      ensures Valid() && (safe <==> old(ReadsInRange(f)))
      ensures safe ==> Bits() == if SameParameters(f) then old(Bits()) + Below(old(f.Bits()), bitTable.Length)
                                 else old(Bits())
      ensures |salt| != |f.salt| || tableSize != f.tableSize || seed != f.seed ==>
                safe && bitTable[..] == old(bitTable[..])
      ensures safe && SameParameters(f) && old(f.Valid() && Agrees(f)) ==>
                forall a, b :: old(HoldsKeys(a)) && old(f.HoldsKeys(b)) ==> HoldsKeys(a + b)
    {
      if SameParameters(f) {
        for i := 0 to bitTable.Length
          invariant i <= f.bitTable.Length
          invariant forall j | 0 <= j < i :: bitTable[j] == old(bitTable[j]) | old(f.bitTable[j])
          invariant forall j | i <= j < bitTable.Length :: bitTable[j] == old(bitTable[j])
          invariant forall j | i <= j < f.bitTable.Length :: f.bitTable[j] == old(f.bitTable[j])
        {
          if i >= f.bitTable.Length {
            return false;
          }
          bitTable[i] := bitTable[i] | f.bitTable[i];
        }
        OrTables(old(bitTable[..]), old(f.bitTable[..]), bitTable[..]);
        if old(f.Valid() && Agrees(f)) {
          forall a, b | old(HoldsKeys(a)) && old(f.HoldsKeys(b)) ensures HoldsKeys(a + b) {
            UnionIsTableOfBothKeySets(a, b, salt, sizes, f.salt, f.sizes);
          }
        }
      }
      return true;
    }

    /** `&=`: the intersection; for filters that agree on the bits of every key it reports exactly the
        keys that both reported. */
    method Intersect(f: BloomFilter) returns (safe: bool)
      requires Valid()
      modifies bitTable
      ensures Valid() && (safe <==> old(ReadsInRange(f)))
      ensures safe ==> Bits() == if SameParameters(f) then old(Bits()) * old(f.Bits()) else old(Bits())
      ensures |salt| != |f.salt| || tableSize != f.tableSize || seed != f.seed ==>
                safe && bitTable[..] == old(bitTable[..])
      ensures safe && SameParameters(f) && old(f.Valid() && Agrees(f)) ==>
                forall key: Key :: Reports(key) <==> old(Reports(key)) && old(f.Reports(key))
    {
      safe := true;
      if SameParameters(f) {
        safe := AndTable(f);
        if safe && old(f.Valid() && Agrees(f)) {
          forall key: Key ensures Reports(key) <==> old(Reports(key)) && old(f.Reports(key)) {
            InBothTables(key, old(Bits()), old(f.Bits()), salt, sizes, f.salt, f.sizes);
          }
        }
      }
    }

    /** The loop of `&=`. */
    method AndTable(f: BloomFilter) returns (safe: bool)
      requires Valid()
      modifies bitTable
      ensures Valid() && (safe <==> bitTable.Length <= f.bitTable.Length)
      ensures safe ==> Bits() == old(Bits()) * old(f.Bits())
    {
      for i := 0 to bitTable.Length
        invariant i <= f.bitTable.Length
        invariant forall j | 0 <= j < i :: bitTable[j] == old(bitTable[j]) & old(f.bitTable[j])
        invariant forall j | i <= j < bitTable.Length :: bitTable[j] == old(bitTable[j])
        invariant forall j | i <= j < f.bitTable.Length :: f.bitTable[j] == old(f.bitTable[j])
      {
        if i >= f.bitTable.Length {
          return false;
        }
        bitTable[i] := bitTable[i] & f.bitTable[i];
      }
      AndTables(old(bitTable[..]), old(f.bitTable[..]), bitTable[..]);
      return true;
    }

    /** `^=`: the symmetric difference. */
    method Difference(f: BloomFilter) returns (safe: bool)
      requires Valid()
      modifies bitTable
      ensures Valid() && (safe <==> old(ReadsInRange(f)))
      ensures safe ==> Bits() == if SameParameters(f)
                                 then SymmetricDifference(old(Bits()), Below(old(f.Bits()), bitTable.Length))
                                 else old(Bits())
      ensures |salt| != |f.salt| || tableSize != f.tableSize || seed != f.seed ==>
                safe && bitTable[..] == old(bitTable[..])
    {
      if SameParameters(f) {
        for i := 0 to bitTable.Length
          invariant i <= f.bitTable.Length
          invariant forall j | 0 <= j < i :: bitTable[j] == old(bitTable[j]) ^ old(f.bitTable[j])
          invariant forall j | i <= j < bitTable.Length :: bitTable[j] == old(bitTable[j])
          invariant forall j | i <= j < f.bitTable.Length :: f.bitTable[j] == old(f.bitTable[j])
        {
          if i >= f.bitTable.Length {
            return false;
          }
          bitTable[i] := bitTable[i] ^ f.bitTable[i];
        }
        XorTables(old(bitTable[..]), old(f.bitTable[..]), bitTable[..]);
      }
      return true;
    }

    /** Copies the head of the table and ors the tail onto it. The loop advances over the new table once;
        `safe` is whether every index it writes exists there. */
    method FoldTable(newSize: nat, originalSize: nat) returns (tmp: array<bv8>, safe: bool)
      requires 0 < newSize == 8 * (newSize / 8) && newSize < originalSize
      requires originalSize == 8 * bitTable.Length
      ensures fresh(tmp) && 8 * tmp.Length == newSize
      ensures safe <==> originalSize <= 2 * newSize
      ensures safe ==> BitsOf(tmp[..]) == ReduceAll(Bits(), newSize)
    {
      var rawSize := newSize / 8;
      var table := bitTable[..];
      tmp := new bv8[rawSize](i requires 0 <= i < |table| => table[i]);
      var itr, end, itrTmp := newSize / 8, originalSize / 8, 0;
      while itr != end
        invariant itrTmp <= rawSize <= itr <= end && itr == rawSize + itrTmp
        invariant forall j | 0 <= j < itrTmp :: tmp[j] == table[j] | table[rawSize + j]
        invariant forall j | itrTmp <= j < rawSize :: tmp[j] == table[j]
        decreases end - itr
      {
        if itrTmp >= tmp.Length {
          return tmp, false;
        }
        tmp[itrTmp] := tmp[itrTmp] | table[itr];
        itrTmp := itrTmp + 1;
        itr := itr + 1;
      }
      FoldElements(table, rawSize, tmp[..]);
      FoldReduces(table, rawSize);
      safe := true;
    }

    /** `compress`, given the size that the percentage arithmetic yields. It is safe exactly when the size
        is rejected or at least half the present one. */
    method Compress(target: nat) returns (done: bool, safe: bool)
      requires Valid()
      modifies this
      ensures Valid() && elementCount == old(elementCount)
      ensures safe <==> FoldsOnce(old(sizes), target)
      ensures safe ==> (done <==> Accepts(old(sizes), target))
      ensures if done then fresh(bitTable) else bitTable == old(bitTable)
      ensures safe ==> Positive(old(sizes)) && Value() == Step(old(Value()), salt, BloomTheory.Compress(target))
    {
      var originalSize := sizes[|sizes| - 1];
      var newSize := target - target % 8;
      AcceptsExactly(sizes, target, newSize);
      if 8 > newSize || newSize >= originalSize {
        return false, true;
      }
      var tmp;
      tmp, safe := FoldTable(newSize, originalSize);
      if !safe {
        return false, false;
      }
      ChainGrows(sizes, target);
      bitTable := tmp;
      sizes := sizes + [newSize];
      return true, true;
    }
  }

  /** Two valid filters with equal values have equal byte tables, so every statement about values is
      one about bytes. */
  lemma EqualValuesEqualBytes(a: BloomFilter, b: BloomFilter)
    requires a.Valid() && b.Valid() && a.Value() == b.Value()
    ensures a.bitTable[..] == b.bitTable[..]
  {
    TableExtensional(a.bitTable[..], b.bitTable[..]);
  }

  /** The union of the tables of two key sets is the table of the union of the key sets, when both
      filters give every key the same bits. */
  lemma UnionIsTableOfBothKeySets(
    a: set<Key>, b: set<Key>, salt: seq<bv32>, sizes: seq<nat>, salt': seq<bv32>, sizes': seq<nat>)
    requires Chain(sizes) && Positive(sizes') && SameBits(salt, sizes, salt', sizes')
    ensures Image(a, salt, sizes) + Below(Image(b, salt', sizes'), Last(sizes) / 8) == Image(a + b, salt, sizes)
  {
    ImageUnion(a, b, salt, sizes);
    forall key, k | key in b && k in KeyBits(key, salt', sizes') ensures k < Last(sizes) {
      assert k in KeyBits(key, salt, sizes);
      var i :| 0 <= i < |salt| && Reduce(HashAp.Hash(key, salt[i]) as nat, sizes) == k;
    }
  }

  /** A key that has the same bits in both filters is in the intersection exactly when it is in both. */
  lemma InBothTables(
    key: Key, a: set<nat>, b: set<nat>, salt: seq<bv32>, sizes: seq<nat>, salt': seq<bv32>, sizes': seq<nat>)
    requires Positive(sizes) && Positive(sizes') && SameBits(salt, sizes, salt', sizes')
    ensures KeyBits(key, salt, sizes) <= a * b <==> KeyBits(key, salt, sizes) <= a && KeyBits(key, salt', sizes') <= b
  {
    assert KeyBits(key, salt, sizes) == KeyBits(key, salt', sizes');
  }

  /** Two `^=` with the same operand restore the table, byte by byte. */
  lemma DifferenceTwiceRestores(t: seq<bv8>, u: seq<bv8>, r: seq<bv8>, r': seq<bv8>)
    requires |r'| == |r| == |t| <= |u|
    requires BitsOf(r) == SymmetricDifference(BitsOf(t), Below(BitsOf(u), |t|))
    requires BitsOf(r') == SymmetricDifference(BitsOf(r), Below(BitsOf(u), |r|))
    ensures r' == t
  {
    assert BitsOf(r') == BitsOf(t);
    TableExtensional(r', t);
  }
}
