/** The hash of the Bloom filter: the in-place loop over 8-byte groups with its 4/2/1-byte tail, a
    decomposition of the key into the words that loop reads, and a recursive reference definition in
    which the alternation driven by the loop counter is resolved. Words are little-endian. */
module HashAp {

  /** What the hash reads at one place of the key. */
  datatype Block =
    | Oct(lo: bv32, hi: bv32)
    | Quad(word: bv32)
    | Pair(half: bv16)
    | Single(byte: bv8)

  function LittleEndian(a: bv8, b: bv8, c: bv8, d: bv8): bv32 {
    (a as bv32) | (b as bv32 << 8) | (c as bv32 << 16) | (d as bv32 << 24)
  }

  function Word32(s: seq<bv8>): bv32
    requires |s| >= 4
  {
    LittleEndian(s[0], s[1], s[2], s[3])
  }

  function Word16(s: seq<bv8>): bv16
    requires |s| >= 2
  {
    (s[0] as bv16) | (s[1] as bv16 << 8)
  }

  function Bytes32(w: bv32): seq<bv8> {
    [(w & 0xFF) as bv8, ((w >> 8) & 0xFF) as bv8, ((w >> 16) & 0xFF) as bv8, ((w >> 24) & 0xFF) as bv8]
  }

  function Bytes16(w: bv16): seq<bv8> {
    [(w & 0xFF) as bv8, ((w >> 8) & 0xFF) as bv8]
  }

  /** The key as the blocks the hash reads, in the order it reads them. */
  function Blocks(key: seq<bv8>): seq<Block> {
    if |key| >= 8 then [Oct(Word32(key), Word32(key[4..]))] + Blocks(key[8..])
    else if |key| >= 4 then [Quad(Word32(key))] + Blocks(key[4..])
    else if |key| >= 2 then [Pair(Word16(key))] + Blocks(key[2..])
    else if |key| == 1 then [Single(key[0])]
    else []
  }

  function BlockBytes(b: Block): seq<bv8> {
    match b
    case Oct(lo, hi) => Bytes32(lo) + Bytes32(hi)
    case Quad(w) => Bytes32(w)
    case Pair(h) => Bytes16(h)
    case Single(x) => [x]
  }

  function Unblocks(bs: seq<Block>): seq<bv8> {
    if bs == [] then [] else BlockBytes(bs[0]) + Unblocks(bs[1..])
  }

  lemma Word32RoundTrip(s: seq<bv8>)
    requires |s| >= 4
    ensures Bytes32(Word32(s)) == s[..4]
  {}

  lemma Word16RoundTrip(s: seq<bv8>)
    requires |s| >= 2
    ensures Bytes16(Word16(s)) == s[..2]
  {}

  /** The blocks hold every byte of the key once and in order. */
  lemma {:induction false} EveryByteReadOnce(key: seq<bv8>)
    ensures Unblocks(Blocks(key)) == key
  {
    if |key| >= 8 {
      Word32RoundTrip(key);
      Word32RoundTrip(key[4..]);
      EveryByteReadOnce(key[8..]);
      assert key == key[..4] + key[4..][..4] + key[8..];
    } else if |key| >= 4 {
      Word32RoundTrip(key);
      EveryByteReadOnce(key[4..]);
      assert key == key[..4] + key[4..];
    } else if |key| >= 2 {
      Word16RoundTrip(key);
      EveryByteReadOnce(key[2..]);
      assert key == key[..2] + key[2..];
    }
  }

  // ---- The mixing steps

  function OddTerm(h: bv32, i: bv32): bv32 {
    (h << 7) ^ (i * (h >> 3))
  }

  function EvenTerm(h: bv32, i: bv32): bv32 {
    !((h << 11) + (i ^ (h >> 5)))
  }

  function With(h: bv32, t: bv32): bv32 {
    h ^ t
  }

  function WithBoth(h: bv32, t: bv32, u: bv32): bv32 {
    h ^ (t ^ u)
  }

  function MixOct(h: bv32, lo: bv32, hi: bv32): bv32 {
    WithBoth(h, OddTerm(h, lo), EvenTerm(h, hi))
  }

  function MixOdd(h: bv32, i: bv32): bv32 {
    With(h, OddTerm(h, i))
  }

  function MixEven(h: bv32, i: bv32): bv32 {
    With(h, EvenTerm(h, i))
  }

  function MixLast(h: bv32, x: bv8, loop: bv32): bv32 {
    h + ((x as bv32 ^ (h * 0xA5A5A5A5)) + loop)
  }

  /** The mixing steps of a hash. What the loop does with them does not depend on what they compute. */
  datatype Mixer = Mixer(
    oct: (bv32, bv32, bv32) -> bv32, odd: (bv32, bv32) -> bv32, even: (bv32, bv32) -> bv32,
    last: (bv32, bv8, bv32) -> bv32)

  const AP: Mixer := Mixer(MixOct, MixOdd, MixEven, MixLast)

  // ---- The loop

  function MixTail(m: Mixer, h: bv32, i: bv32, loop: bv32): bv32 {
    if loop & 1 != 0 then m.odd(h, i) else m.even(h, i)
  }

  /** Absorb the blocks one after another; `loop` counts the 4- and 2-byte words absorbed. */
  function Absorb(m: Mixer, bs: seq<Block>, h: bv32, loop: bv32): bv32 {
    if bs == [] then h else
    match bs[0]
    case Oct(lo, hi) => Absorb(m, bs[1..], m.oct(h, lo, hi), loop)
    case Quad(w) => Absorb(m, bs[1..], MixTail(m, h, w, loop), loop + 1)
    case Pair(w) => Absorb(m, bs[1..], MixTail(m, h, w as bv32, loop), loop + 1)
    case Single(x) => Absorb(m, bs[1..], m.last(h, x, loop), loop)
  }

  /** The hash of a key under a salt. */
  function Hash(key: seq<bv8>, salt: bv32): bv32 {
    Absorb(AP, Blocks(key), salt, 0)
  }

  /** Reference definition without the counter: a 4-byte tail word is always mixed the even way, a
      2-byte one the odd way exactly when a 4-byte word came before it, and the last byte adds the
      number of tail words. */
  function Reference(m: Mixer, key: seq<bv8>, h: bv32): bv32 {
    if |key| >= 8 then Reference(m, key[8..], m.oct(h, Word32(key), Word32(key[4..])))
    else if |key| >= 6 then
      LastByte(m, key[6..], m.odd(m.even(h, Word32(key)), Word16(key[4..]) as bv32), 2)
    else if |key| >= 4 then LastByte(m, key[4..], m.even(h, Word32(key)), 1)
    else if |key| >= 2 then LastByte(m, key[2..], m.even(h, Word16(key) as bv32), 1)
    else LastByte(m, key, h, 0)
  }

  function LastByte(m: Mixer, rest: seq<bv8>, h: bv32, words: bv32): bv32
    requires |rest| < 2
  {
    if rest == [] then h else m.last(h, rest[0], words)
  }

  lemma AbsorbLast(m: Mixer, rest: seq<bv8>, h: bv32, loop: bv32)
    requires |rest| < 2
    ensures Absorb(m, Blocks(rest), h, loop) == LastByte(m, rest, h, loop)
  {}

  lemma AbsorbOct(m: Mixer, key: seq<bv8>, h: bv32, loop: bv32)
    requires |key| >= 8
    ensures Absorb(m, Blocks(key), h, loop) ==
            Absorb(m, Blocks(key[8..]), m.oct(h, Word32(key), Word32(key[4..])), loop)
  {
    assert Blocks(key)[1..] == Blocks(key[8..]);
  }

  lemma AbsorbQuad(m: Mixer, key: seq<bv8>, h: bv32, loop: bv32)
    requires 4 <= |key| < 8
    ensures Absorb(m, Blocks(key), h, loop) == Absorb(m, Blocks(key[4..]), MixTail(m, h, Word32(key), loop), loop + 1)
  {
    assert Blocks(key)[1..] == Blocks(key[4..]);
  }

  lemma AbsorbPair(m: Mixer, key: seq<bv8>, h: bv32, loop: bv32)
    requires 2 <= |key| < 4
    ensures Absorb(m, Blocks(key), h, loop) ==
            Absorb(m, Blocks(key[2..]), MixTail(m, h, Word16(key) as bv32, loop), loop + 1)
  {
    assert Blocks(key)[1..] == Blocks(key[2..]);
  }

  lemma {:induction false} HashIsReference(m: Mixer, key: seq<bv8>, h: bv32)
    ensures Absorb(m, Blocks(key), h, 0) == Reference(m, key, h)
  {
    if |key| >= 8 {
      AbsorbOct(m, key, h, 0);
      HashIsReference(m, key[8..], m.oct(h, Word32(key), Word32(key[4..])));
    } else if |key| >= 4 {
      var h4 := m.even(h, Word32(key));
      AbsorbQuad(m, key, h, 0);
      if |key| >= 6 {
        AbsorbPair(m, key[4..], h4, 1);
        assert key[4..][2..] == key[6..];
        AbsorbLast(m, key[6..], m.odd(h4, Word16(key[4..]) as bv32), 2);
      } else {
        AbsorbLast(m, key[4..], h4, 1);
      }
    } else if |key| >= 2 {
      AbsorbPair(m, key, h, 0);
      AbsorbLast(m, key[2..], m.even(h, Word16(key) as bv32), 1);
    } else {
      AbsorbLast(m, key, h, 0);
    }
  }

  /** The loop of the filter: `itr` walks over the key while `remaining` counts down. Every read is
      inside the key, and the result is the hash. */
  method HashKey(key: seq<bv8>, salt: bv32) returns (hash: bv32)
    ensures hash == Hash(key, salt)
  {
    hash := salt;
    var itr, remaining := 0, |key|;
    assert key[0..] == key;
    while remaining >= 8
      invariant 0 <= remaining && itr + remaining == |key|
      invariant Absorb(AP, Blocks(key[itr..]), hash, 0) == Hash(key, salt)
    {
      AbsorbOct(AP, key[itr..], hash, 0);
      assert key[itr..][8..] == key[itr + 8..] && key[itr..][4..] == key[itr + 4..];
      var i1 := Word32(key[itr..]);
      itr := itr + 4;
      var i2 := Word32(key[itr..]);
      itr := itr + 4;
      hash := MixOct(hash, i1, i2);
      remaining := remaining - 8;
    }
    if remaining > 0 {
      hash := HashTail(key, itr, hash);
    }
  }

  /** The tail of fewer than eight bytes. `loop` counts the tail words and alternates the mixing. */
  method HashTail(key: seq<bv8>, itr: nat, seed: bv32) returns (hash: bv32)
    requires itr < |key| < itr + 8
    ensures hash == Absorb(AP, Blocks(key[itr..]), seed, 0)
  {
    if |key| - itr >= 4 {
      AbsorbQuad(AP, key[itr..], seed, 0);
      assert key[itr..][4..] == key[itr + 4..];
      hash := HashPair(key, itr + 4, MixTail(AP, seed, Word32(key[itr..]), 0), 1);
    } else {
      hash := HashPair(key, itr, seed, 0);
    }
  }

  method HashPair(key: seq<bv8>, itr: nat, seed: bv32, loop: bv32) returns (hash: bv32)
    requires itr <= |key| < itr + 4
    ensures hash == Absorb(AP, Blocks(key[itr..]), seed, loop)
  {
    if |key| - itr >= 2 {
      AbsorbPair(AP, key[itr..], seed, loop);
      assert key[itr..][2..] == key[itr + 2..];
      hash := HashByte(key, itr + 2, MixTail(AP, seed, Word16(key[itr..]) as bv32, loop), loop + 1);
    } else {
      hash := HashByte(key, itr, seed, loop);
    }
  }

  method HashByte(key: seq<bv8>, itr: nat, seed: bv32, loop: bv32) returns (hash: bv32)
    requires itr <= |key| < itr + 2
    ensures hash == Absorb(AP, Blocks(key[itr..]), seed, loop)
  {
    AbsorbLast(AP, key[itr..], seed, loop);
    hash := seed;
    if itr < |key| {
      hash := MixLast(hash, key[itr], loop);
    }
  }
}
