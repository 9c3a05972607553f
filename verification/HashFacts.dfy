/** What the mixing steps of the hash compute, stated without their definitions: algebraic facts, the hashes
    of fixed keys of every tail length, and the inputs that the last step keeps apart. */
module HashFacts {
  import opened HashAp

  // ---- The mixing steps

  predicate OctSplits(h: bv32, oct: bv32, odd: bv32, even: bv32) {
    oct == odd ^ even ^ h
  }

  lemma BothIsOneAndOne(h: bv32, t: bv32, u: bv32)
    ensures OctSplits(h, WithBoth(h, t, u), With(h, t), With(h, u))
  {}

  /** A group of eight bytes is mixed as an odd and an even word at once, the first word the odd way. */
  lemma OctIsOddAndEven(h: bv32, lo: bv32, hi: bv32)
    ensures OctSplits(h, MixOct(h, lo, hi), MixOdd(h, lo), MixEven(h, hi))
  {
    BothIsOneAndOne(h, OddTerm(h, lo), EvenTerm(h, hi));
  }

  lemma OctFromZero(lo: bv32, hi: bv32)
    ensures MixOct(0, lo, hi) == !hi
  {}

  lemma OddFacts(h: bv32, i: bv32)
    ensures MixOdd(h, 0) == h ^ (h << 7)
    ensures MixOdd(8, i) == 0x408 ^ i
    ensures MixOdd(0x8000_0000, 3) == 0xB000_0000
  {}

  lemma EvenFacts(i: bv32)
    ensures MixEven(0, i) == !i
    ensures MixEven(0x20, 1) == 0xFFFE_FFDF
    ensures MixEven(0x8000_0000, 5) == 0x7BFF_FFFA
  {}

  lemma LastFacts(x: bv8, loop: bv32)
    ensures MixLast(0, x, loop) == x as bv32 + loop
    ensures MixLast(1, 0, 0) == 0xA5A5_A5A6
    ensures MixLast(1, 0xFF, 2) == 0xA5A5_A55D
  {}

  // ---- Fixed keys

  const SALT: bv32 := 0xAAAA_AAAA

  lemma KeyOfLength1()
    ensures Hash([0xA1], SALT) == 0x3C3C_3BDD
  {
    var key: seq<bv8> := [0xA1];
    HashIsReference(AP, key, SALT);
  }

  lemma KeyOfLength2()
    ensures Hash([0xA1, 0xA2], SALT) == 0x0FFE_12A1
  {
    var key: seq<bv8> := [0xA1, 0xA2];
    HashIsReference(AP, key, SALT);
    assert key[2..] == [];
  }

  lemma KeyOfLength3()
    ensures Hash([0xA1, 0xA2, 0xA3], SALT) == 0xE786_D908
  {
    var key: seq<bv8> := [0xA1, 0xA2, 0xA3];
    HashIsReference(AP, key, SALT);
    assert key[2..] == [0xA3];
  }

  lemma KeyOfLength4()
    ensures Hash([0xA1, 0xA2, 0xA3, 0xA4], SALT) == 0xA219_12A1
  {
    var key: seq<bv8> := [0xA1, 0xA2, 0xA3, 0xA4];
    HashIsReference(AP, key, SALT);
    assert key[4..] == [];
  }

  lemma KeyOfLength5()
    ensures Hash([0xA1, 0xA2, 0xA3, 0xA4, 0xA5], SALT) == 0x0C08_D902
  {
    var key: seq<bv8> := [0xA1, 0xA2, 0xA3, 0xA4, 0xA5];
    HashIsReference(AP, key, SALT);
    assert key[4..] == [0xA5];
  }

  lemma KeyOfLength6()
    ensures Hash([0xA1, 0xA2, 0xA3, 0xA4, 0xA5, 0xA6], SALT) == 0x3917_DA05
  {
    var key: seq<bv8> := [0xA1, 0xA2, 0xA3, 0xA4, 0xA5, 0xA6];
    HashIsReference(AP, key, SALT);
    assert key[4..] == [0xA5, 0xA6] && key[6..] == [];
  }

  lemma KeyOfLength7()
    ensures Hash([0xA1, 0xA2, 0xA3, 0xA4, 0xA5, 0xA6, 0xA7], SALT) == 0x2335_98A5
  {
    var key: seq<bv8> := [0xA1, 0xA2, 0xA3, 0xA4, 0xA5, 0xA6, 0xA7];
    HashIsReference(AP, key, SALT);
    assert key[4..] == [0xA5, 0xA6, 0xA7] && key[6..] == [0xA7];
  }

  lemma KeyOfLength8()
    ensures Hash([0xA1, 0xA2, 0xA3, 0xA4, 0xA5, 0xA6, 0xA7, 0xA8], SALT) == 0x3081_37D0
  {
    var key: seq<bv8> := [0xA1, 0xA2, 0xA3, 0xA4, 0xA5, 0xA6, 0xA7, 0xA8];
    HashIsReference(AP, key, SALT);
    assert key[4..] == [0xA5, 0xA6, 0xA7, 0xA8];
    assert key[8..] == [];
  }

  // ---- What the last step keeps apart

  predicate Differ(x: bv32, y: bv32) {
    x != y
  }

  lemma XorKeeps(a: bv32, x: bv32, y: bv32)
    requires Differ(x, y)
    ensures Differ(x ^ a, y ^ a)
  {}

  lemma SumKeeps(a: bv32, x: bv32, y: bv32)
    requires Differ(x, y)
    ensures Differ(a + x, a + y)
  {}

  lemma SumXorKeeps(a: bv32, b: bv32, x: bv32, y: bv32)
    requires Differ(x, y)
    ensures Differ(a + (x ^ b), a + (y ^ b))
  {
    XorKeeps(b, x, y);
    SumKeeps(a, x ^ b, y ^ b);
  }

  lemma InnerKeeps(h: bv32, x: bv32, y: bv32)
    requires Differ(x, y)
    ensures Differ((h << 11) + (x ^ (h >> 5)), (h << 11) + (y ^ (h >> 5)))
  {
    SumXorKeeps(h << 11, h >> 5, x, y);
  }

  lemma SumsDiffer(h: bv32, x: bv32, y: bv32, p: bv32, q: bv32)
    requires Differ(x, y) && p == (h << 11) + (x ^ (h >> 5)) && q == (h << 11) + (y ^ (h >> 5))
    ensures Differ(p, q)
  {
    InnerKeeps(h, x, y);
  }

  lemma EvenParts(h: bv32, i: bv32) returns (p: bv32)
    ensures p == (h << 11) + (i ^ (h >> 5)) && EvenTerm(h, i) == !p
  {
    p := (h << 11) + (i ^ (h >> 5));
  }

  lemma EvenTermKeeps(h: bv32, x: bv32, y: bv32)
    requires Differ(x, y)
    ensures Differ(EvenTerm(h, x), EvenTerm(h, y))
  {
    var p := EvenParts(h, x);
    var q := EvenParts(h, y);
    SumsDiffer(h, x, y, p, q);
    NotKeeps(p, q);
  }

  lemma NotKeeps(p: bv32, q: bv32)
    requires Differ(p, q)
    ensures Differ(!p, !q)
  {}

  lemma WithKeeps(h: bv32, t: bv32, u: bv32)
    requires Differ(t, u)
    ensures Differ(With(h, t), With(h, u))
  {}

  lemma WithBothKeeps(h: bv32, a: bv32, t: bv32, u: bv32)
    requires Differ(t, u)
    ensures Differ(WithBoth(h, a, t), WithBoth(h, a, u))
  {}

  lemma EvenKeeps(h: bv32, x: bv32, y: bv32)
    requires Differ(x, y)
    ensures Differ(MixEven(h, x), MixEven(h, y))
  {
    EvenTermKeeps(h, x, y);
    WithKeeps(h, EvenTerm(h, x), EvenTerm(h, y));
  }

  lemma OctKeeps(h: bv32, lo: bv32, x: bv32, y: bv32)
    requires Differ(x, y)
    ensures Differ(MixOct(h, lo, x), MixOct(h, lo, y))
  {
    EvenTermKeeps(h, x, y);
    WithBothKeeps(h, OddTerm(h, lo), EvenTerm(h, x), EvenTerm(h, y));
  }

  lemma LastSumsDiffer(h: bv32, x: bv8, y: bv8, loop: bv32)
    requires x != y
    ensures Differ(h + ((x as bv32 ^ (h * 0xA5A5A5A5)) + loop), h + ((y as bv32 ^ (h * 0xA5A5A5A5)) + loop))
  {}

  lemma LastKeeps(h: bv32, x: bv8, y: bv8, loop: bv32)
    requires x != y
    ensures Differ(MixLast(h, x, loop), MixLast(h, y, loop))
  {
    LastSumsDiffer(h, x, y, loop);
  }

  // ---- Keys that differ at their end

  lemma {:induction false} WordsDiffer(x: seq<bv8>, y: seq<bv8>)
    requires |x| == |y| == 4 && x != y
    ensures Differ(Word32(x), Word32(y))
  {
    Word32RoundTrip(x);
    Word32RoundTrip(y);
    assert x[..4] == x && y[..4] == y;
  }

  /** The hash after whole groups of eight bytes. */
  function AfterGroups(m: Mixer, groups: seq<bv8>, h: bv32): bv32 {
    if |groups| < 8 then h else AfterGroups(m, groups[8..], m.oct(h, Word32(groups), Word32(groups[4..])))
  }

  /** Whole groups of eight bytes at the front of a key are absorbed before what follows them. */
  lemma {:induction false} GroupsFirst(m: Mixer, groups: seq<bv8>, more: seq<bv8>, h: bv32)
    requires |groups| % 8 == 0
    ensures Absorb(m, Blocks(groups + more), h, 0) == Absorb(m, Blocks(more), AfterGroups(m, groups, h), 0)
    decreases |groups|
  {
    if groups == [] {
      assert groups + more == more;
    } else {
      GroupAndMore(m, groups, more, h, 0);
      GroupsFirst(m, groups[8..], more, m.oct(h, Word32(groups), Word32(groups[4..])));
    }
  }

  lemma SameWord(s: seq<bv8>, t: seq<bv8>)
    requires |s| >= 4 && |t| >= 4 && s[..4] == t[..4]
    ensures Word32(s) == Word32(t)
  {
    assert s[0] == s[..4][0] && s[1] == s[..4][1] && s[2] == s[..4][2] && s[3] == s[..4][3];
    assert t[0] == t[..4][0] && t[1] == t[..4][1] && t[2] == t[..4][2] && t[3] == t[..4][3];
  }

  lemma GroupAndMore(m: Mixer, groups: seq<bv8>, more: seq<bv8>, h: bv32, loop: bv32)
    requires |groups| >= 8
    ensures Absorb(m, Blocks(groups + more), h, loop) ==
            Absorb(m, Blocks(groups[8..] + more), m.oct(h, Word32(groups), Word32(groups[4..])), loop)
  {
    var key := groups + more;
    AbsorbOct(m, key, h, loop);
    assert key[8..] == groups[8..] + more;
    SameWord(key, groups);
    SameWord(key[4..], groups[4..]);
  }

  lemma LastGroup(m: Mixer, lo: seq<bv8>, hi: seq<bv8>, h: bv32)
    requires |lo| == |hi| == 4
    ensures Absorb(m, Blocks(lo + hi), h, 0) == m.oct(h, Word32(lo), Word32(hi))
  {
    var key := lo + hi;
    AbsorbOct(m, key, h, 0);
    assert key[4..] == hi && key[8..] == [];
    assert Absorb(m, Blocks([]), m.oct(h, Word32(key), Word32(hi)), 0) == m.oct(h, Word32(key), Word32(hi));
  }

  /** In the hash keys of whole eight-byte groups that differ in the second word of the last one stay apart,
      if the step for a group keeps second words apart. */
  lemma SecondWordKept(m: Mixer, groups: seq<bv8>, lo: seq<bv8>, x: seq<bv8>, y: seq<bv8>, salt: bv32)
    requires |groups| % 8 == 0 && |lo| == |x| == |y| == 4 && x != y
    requires forall h, a, b, c | Differ(b, c) :: Differ(m.oct(h, a, b), m.oct(h, a, c))
    ensures Differ(Absorb(m, Blocks(groups + (lo + x)), salt, 0), Absorb(m, Blocks(groups + (lo + y)), salt, 0))
  {
    var h := AfterGroups(m, groups, salt);
    GroupsFirst(m, groups, lo + x, salt);
    GroupsFirst(m, groups, lo + y, salt);
    LastGroup(m, lo, x, h);
    LastGroup(m, lo, y, h);
    WordsDiffer(x, y);
  }

  /** Keys of whole eight-byte groups that differ in the second word of the last one hash apart, under every
      salt. */
  lemma SecondWordTells(groups: seq<bv8>, lo: seq<bv8>, x: seq<bv8>, y: seq<bv8>, salt: bv32)
    requires |groups| % 8 == 0 && |lo| == |x| == |y| == 4 && x != y
    ensures Differ(Hash(groups + (lo + x), salt), Hash(groups + (lo + y), salt))
  {
    forall h, a, b, c | Differ(b, c) ensures Differ(AP.oct(h, a, b), AP.oct(h, a, c)) {
      OctKeeps(h, a, b, c);
    }
    SecondWordKept(AP, groups, lo, x, y, salt);
  }

  lemma OnlyWord(m: Mixer, x: seq<bv8>, h: bv32)
    requires |x| == 4
    ensures Absorb(m, Blocks(x), h, 0) == m.even(h, Word32(x))
  {
    AbsorbQuad(m, x, h, 0);
    assert Blocks(x[4..]) == [];
  }

  lemma TailWordKept(m: Mixer, groups: seq<bv8>, x: seq<bv8>, y: seq<bv8>, salt: bv32)
    requires |groups| % 8 == 0 && |x| == |y| == 4 && x != y
    requires forall h, b, c | Differ(b, c) :: Differ(m.even(h, b), m.even(h, c))
    ensures Differ(Absorb(m, Blocks(groups + x), salt, 0), Absorb(m, Blocks(groups + y), salt, 0))
  {
    var h := AfterGroups(m, groups, salt);
    GroupsFirst(m, groups, x, salt);
    GroupsFirst(m, groups, y, salt);
    OnlyWord(m, x, h);
    OnlyWord(m, y, h);
    WordsDiffer(x, y);
  }

  /** Keys that differ in a four-byte tail hash apart, under every salt. */
  lemma TailWordTells(groups: seq<bv8>, x: seq<bv8>, y: seq<bv8>, salt: bv32)
    requires |groups| % 8 == 0 && |x| == |y| == 4 && x != y
    ensures Differ(Hash(groups + x, salt), Hash(groups + y, salt))
  {
    forall h, b, c | Differ(b, c) ensures Differ(AP.even(h, b), AP.even(h, c)) {
      EvenKeeps(h, b, c);
    }
    TailWordKept(AP, groups, x, y, salt);
  }

  /** The loop counter after a key of even length. */
  function LoopAfter(len: nat, loop: bv32): bv32 {
    if len >= 8 then LoopAfter(len - 8, loop)
    else if len >= 4 then LoopAfter(len - 4, loop + 1)
    else if len >= 2 then LoopAfter(len - 2, loop + 1)
    else loop
  }

  lemma OctAndLast(m: Mixer, key: seq<bv8>, x: bv8, h: bv32, loop: bv32)
    requires |key| >= 8
    ensures var h' := m.oct(h, Word32(key), Word32(key[4..]));
            Absorb(m, Blocks(key), h, loop) == Absorb(m, Blocks(key[8..]), h', loop) &&
            Absorb(m, Blocks(key + [x]), h, loop) == Absorb(m, Blocks(key[8..] + [x]), h', loop)
  {
    AbsorbOct(m, key, h, loop);
    GroupAndMore(m, key, [x], h, loop);
  }

  lemma QuadAndLast(m: Mixer, key: seq<bv8>, x: bv8, h: bv32, loop: bv32)
    requires 4 <= |key| < 7
    ensures var h' := MixTail(m, h, Word32(key), loop);
            Absorb(m, Blocks(key), h, loop) == Absorb(m, Blocks(key[4..]), h', loop + 1) &&
            Absorb(m, Blocks(key + [x]), h, loop) == Absorb(m, Blocks(key[4..] + [x]), h', loop + 1)
  {
    var more := key + [x];
    AbsorbQuad(m, key, h, loop);
    AbsorbQuad(m, more, h, loop);
    assert more[4..] == key[4..] + [x];
    SameWord(more, key);
  }

  lemma PairAndLast(m: Mixer, key: seq<bv8>, x: bv8, h: bv32, loop: bv32)
    requires |key| == 2
    ensures var h' := MixTail(m, h, Word16(key) as bv32, loop);
            Absorb(m, Blocks(key), h, loop) == Absorb(m, Blocks(key[2..]), h', loop + 1) &&
            Absorb(m, Blocks(key + [x]), h, loop) == Absorb(m, Blocks(key[2..] + [x]), h', loop + 1)
  {
    var more := key + [x];
    AbsorbPair(m, key, h, loop);
    AbsorbPair(m, more, h, loop);
    assert more[2..] == key[2..] + [x];
  }

  predicate LastIsLast(m: Mixer, key: seq<bv8>, x: bv8, h: bv32, loop: bv32) {
    Absorb(m, Blocks(key + [x]), h, loop) == m.last(Absorb(m, Blocks(key), h, loop), x, LoopAfter(|key|, loop))
  }

  lemma LastAfterPair(m: Mixer, key: seq<bv8>, x: bv8, h: bv32, loop: bv32)
    requires |key| == 0 || |key| == 2
    ensures LastIsLast(m, key, x, h, loop)
  {
    if key == [] {
      OnlyLast(m, key, x, h, loop);
    } else {
      PairAndLast(m, key, x, h, loop);
      OnlyLast(m, key[2..], x, MixTail(m, h, Word16(key) as bv32, loop), loop + 1);
    }
  }

  lemma LastAfterQuad(m: Mixer, key: seq<bv8>, x: bv8, h: bv32, loop: bv32)
    requires |key| == 4 || |key| == 6
    ensures LastIsLast(m, key, x, h, loop)
  {
    QuadAndLast(m, key, x, h, loop);
    LastAfterPair(m, key[4..], x, MixTail(m, h, Word32(key), loop), loop + 1);
  }

  lemma LastAfterOct(m: Mixer, key: seq<bv8>, x: bv8, h: bv32, loop: bv32)
    requires |key| >= 8 && LastIsLast(m, key[8..], x, m.oct(h, Word32(key), Word32(key[4..])), loop)
    ensures LastIsLast(m, key, x, h, loop)
  {
    OctAndLast(m, key, x, h, loop);
  }

  /** The hash of a key of odd length is that of the key without its last byte, mixed with that byte and the
      loop counter. */
  lemma {:induction false} LastByteComesLast(m: Mixer, key: seq<bv8>, x: bv8, h: bv32, loop: bv32)
    requires |key| % 2 == 0
    ensures LastIsLast(m, key, x, h, loop)
    decreases |key|
  {
    if |key| >= 8 {
      LastByteComesLast(m, key[8..], x, m.oct(h, Word32(key), Word32(key[4..])), loop);
      LastAfterOct(m, key, x, h, loop);
    } else if |key| >= 4 {
      LastAfterQuad(m, key, x, h, loop);
    } else {
      LastAfterPair(m, key, x, h, loop);
    }
  }

  lemma OnlyLast(m: Mixer, key: seq<bv8>, x: bv8, h: bv32, loop: bv32)
    requires key == []
    ensures Absorb(m, Blocks(key + [x]), h, loop) == m.last(h, x, loop) && Absorb(m, Blocks(key), h, loop) == h
  {
    assert key + [x] == [x];
    AbsorbLast(m, [x], h, loop);
  }

  lemma LastByteKept(m: Mixer, key: seq<bv8>, x: bv8, y: bv8, salt: bv32)
    requires |key| % 2 == 0 && x != y
    requires forall h, b, c, loop | b != c :: Differ(m.last(h, b, loop), m.last(h, c, loop))
    ensures Differ(Absorb(m, Blocks(key + [x]), salt, 0), Absorb(m, Blocks(key + [y]), salt, 0))
  {
    LastByteComesLast(m, key, x, salt, 0);
    LastByteComesLast(m, key, y, salt, 0);
  }

  /** Keys of odd length that differ in their last byte hash apart, under every salt. */
  lemma LastByteTells(key: seq<bv8>, x: bv8, y: bv8, salt: bv32)
    requires |key| % 2 == 0 && x != y
    ensures Differ(Hash(key + [x], salt), Hash(key + [y], salt))
  {
    forall h, b, c, loop | b != c ensures Differ(AP.last(h, b, loop), AP.last(h, c, loop)) {
      LastKeeps(h, b, c, loop);
    }
    LastByteKept(AP, key, x, y, salt);
  }
}
