/** The byte-packed bit table of the Bloom filter: single bits of a byte, the set of bits a table
    denotes, and what setting one bit, combining two tables and folding a table do to that set. */
module BitTables {
  import opened Division

  /** The entry of the mask table for bit `b` of a byte. */
  function BitMask(b: nat): bv8
    requires b < 8
  {
    if b == 0 then 0x01 else if b == 1 then 0x02 else if b == 2 then 0x04 else if b == 3 then 0x08
    else if b == 4 then 0x10 else if b == 5 then 0x20 else if b == 6 then 0x40 else 0x80
  }

  /** Bit `b` of a byte is set. The comparison is the one `contains` makes. */
  predicate ByteBit(x: bv8, b: nat)
    requires b < 8
  {
    x & BitMask(b) == BitMask(b)
  }

  /** Bit `k` of the table, counting eight bits to a byte. */
  predicate TestBit(t: seq<bv8>, k: nat)
    requires k < 8 * |t|
  {
    ByteBit(t[k / 8], k % 8)
  }

  /** The set of bit indices that a table denotes. */
  function BitsOf(t: seq<bv8>): set<nat> {
    set k: nat | k < 8 * |t| && TestBit(t, k)
  }

  /** Mask `b` is the byte whose value is two to the power `b`. */
  lemma BitMaskIsPower(b: nat)
    requires b < 8
    ensures BitMask(b) == 1 << b
    ensures b > 0 ==> BitMask(b) as nat == 2 * (BitMask(b - 1) as nat)
    ensures BitMask(0) == 1
  {}

  lemma SetByteBit(x: bv8, b: nat, c: nat)
    requires b < 8 && c < 8
    ensures ByteBit(x | BitMask(b), c) <==> b == c || ByteBit(x, c)
  {}

  lemma OrByteBit(x: bv8, y: bv8, c: nat)
    requires c < 8
    ensures ByteBit(x | y, c) <==> ByteBit(x, c) || ByteBit(y, c)
  {
    var m := BitMask(c);
    assert (x | y) & m == (x & m) | (y & m);
  }

  lemma AndByteBit(x: bv8, y: bv8, c: nat)
    requires c < 8
    ensures ByteBit(x & y, c) <==> ByteBit(x, c) && ByteBit(y, c)
  {
    var m := BitMask(c);
    assert (x & y) & m == (x & m) & (y & m);
  }

  lemma XorMasked(x: bv8, y: bv8, m: bv8)
    requires m == 0x01 || m == 0x02 || m == 0x04 || m == 0x08 || m == 0x10 || m == 0x20 || m == 0x40 || m == 0x80
    ensures (x ^ y) & m == m <==> (x & m == m) != (y & m == m)
  {
    assert (x ^ y) & m == (x & m) ^ (y & m);
    assert x & m == m || x & m == 0;
    assert y & m == m || y & m == 0;
  }

  lemma XorByteBit(x: bv8, y: bv8, c: nat)
    requires c < 8
    ensures ByteBit(x ^ y, c) <==> ByteBit(x, c) != ByteBit(y, c)
  {
    XorMasked(x, y, BitMask(c));
  }

  lemma ByteExtensional(x: bv8, y: bv8)
    requires forall c: nat | c < 8 :: ByteBit(x, c) == ByteBit(y, c)
    ensures x == y
  {
    assert ByteBit(x, 0) == ByteBit(y, 0) && ByteBit(x, 1) == ByteBit(y, 1);
    assert ByteBit(x, 2) == ByteBit(y, 2) && ByteBit(x, 3) == ByteBit(y, 3);
    assert ByteBit(x, 4) == ByteBit(y, 4) && ByteBit(x, 5) == ByteBit(y, 5);
    assert ByteBit(x, 6) == ByteBit(y, 6) && ByteBit(x, 7) == ByteBit(y, 7);
  }

  /** A table is determined by its length and the set of bits it denotes. */
  lemma TableExtensional(t: seq<bv8>, u: seq<bv8>)
    requires |t| == |u| && BitsOf(t) == BitsOf(u)
    ensures t == u
  {
    forall i: nat | i < |t| ensures t[i] == u[i] {
      forall c: nat | c < 8 ensures ByteBit(t[i], c) == ByteBit(u[i], c) {
        var k := 8 * i + c;
        assert k / 8 == i && k % 8 == c;
        assert k in BitsOf(t) <==> k in BitsOf(u);
        assert TestBit(t, k) == TestBit(u, k);
      }
      ByteExtensional(t[i], u[i]);
    }
  }

  /** Or-ing the mask of bit `k` into its byte adds exactly `k` to the set of bits. */
  lemma SetOneBit(t: seq<bv8>, k: nat)
    requires k < 8 * |t|
    ensures BitsOf(t[k / 8 := t[k / 8] | BitMask(k % 8)]) == BitsOf(t) + {k}
  {
    var u := t[k / 8 := t[k / 8] | BitMask(k % 8)];
    forall j: nat | j < 8 * |t| ensures TestBit(u, j) <==> j == k || TestBit(t, j) {
      if j / 8 == k / 8 {
        SetByteBit(t[k / 8], k % 8, j % 8);
      }
    }
  }

  /** The part of a set of bits that lies inside a table of `n` bytes. */
  function Below(s: set<nat>, n: nat): set<nat> {
    set k | k in s && k < 8 * n
  }

  function SymmetricDifference(a: set<nat>, b: set<nat>): set<nat> {
    (a - b) + (b - a)
  }

  lemma OrTables(t: seq<bv8>, u: seq<bv8>, r: seq<bv8>)
    requires |r| == |t| <= |u|
    requires forall i: nat | i < |t| :: r[i] == t[i] | u[i]
    ensures BitsOf(r) == BitsOf(t) + Below(BitsOf(u), |t|)
  {
    forall k: nat | k < 8 * |t| ensures TestBit(r, k) <==> TestBit(t, k) || TestBit(u, k) {
      OrByteBit(t[k / 8], u[k / 8], k % 8);
    }
  }

  lemma AndTables(t: seq<bv8>, u: seq<bv8>, r: seq<bv8>)
    requires |r| == |t| <= |u|
    requires forall i: nat | i < |t| :: r[i] == t[i] & u[i]
    ensures BitsOf(r) == BitsOf(t) * BitsOf(u)
  {
    forall k: nat | k < 8 * |t| ensures TestBit(r, k) <==> TestBit(t, k) && TestBit(u, k) {
      AndByteBit(t[k / 8], u[k / 8], k % 8);
    }
  }

  lemma XorTables(t: seq<bv8>, u: seq<bv8>, r: seq<bv8>)
    requires |r| == |t| <= |u|
    requires forall i: nat | i < |t| :: r[i] == t[i] ^ u[i]
    ensures BitsOf(r) == SymmetricDifference(BitsOf(t), Below(BitsOf(u), |t|))
  {
    forall k: nat | k < 8 * |t| ensures TestBit(r, k) <==> TestBit(t, k) != TestBit(u, k) {
      XorByteBit(t[k / 8], u[k / 8], k % 8);
    }
  }

  /** The bytes left by the OR loop of `compress`: the tail of the table or-ed onto its head. */
  function Fold(t: seq<bv8>, n: nat): (r: seq<bv8>)
    requires n <= |t| <= 2 * n
  {
    seq(n, j requires 0 <= j < n => if n + j < |t| then t[j] | t[n + j] else t[j])
  }

  function ReduceAll(s: set<nat>, m: nat): set<nat>
    requires 0 < m
  {
    set k | k in s :: k % m
  }

  /** Folding a table to `n` bytes reduces every bit index modulo `8 * n`. */
  lemma FoldReduces(t: seq<bv8>, n: nat)
    requires 0 < n <= |t| <= 2 * n
    ensures BitsOf(Fold(t, n)) == ReduceAll(BitsOf(t), 8 * n)
  {
    var r, m := Fold(t, n), 8 * n;
    forall k: nat | k < m
      ensures TestBit(r, k) <==> TestBit(t, k) || (m + k < 8 * |t| && TestBit(t, m + k))
    {
      assert (m + k) / 8 == n + k / 8 && (m + k) % 8 == k % 8;
      if m + k < 8 * |t| {
        OrByteBit(t[k / 8], t[n + k / 8], k % 8);
      }
    }
    forall k | k in BitsOf(r) ensures k in ReduceAll(BitsOf(t), m) {
      var j := if TestBit(t, k) then k else m + k;
      ModOnce(j, m);
      assert j in BitsOf(t) && j % m == k;
    }
    forall j | j in BitsOf(t) ensures j % m in BitsOf(r) {
      ModOnce(j, m);
    }
  }
}
