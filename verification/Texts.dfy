/** Texts cut at a character and put together again. */
module Texts {

  predicate Free(s: string, c: char) {
    forall i | 0 <= i < |s| :: s[i] != c
  }

  predicate AllFree(ls: seq<string>, c: char) {
    forall i | 0 <= i < |ls| :: Free(ls[i], c)
  }

  /** Length of the longest beginning of a text that has no `c`. */
  function Until(s: string, c: char): (r: nat)
    ensures r <= |s| && (forall i | 0 <= i < r :: s[i] != c) && (r < |s| ==> s[r] == c)
  {
    if s == [] || s[0] == c then 0
    else
      var r := Until(s[1..], c);
      assert forall i | 1 <= i < r + 1 :: s[i] == s[1..][i - 1];
      r + 1
  }

  lemma UntilIs(s: string, k: nat, c: char)
    requires k <= |s| && (forall i | 0 <= i < k :: s[i] != c) && (k < |s| ==> s[k] == c)
    ensures Until(s, c) == k
  {}

  lemma UntilFree(s: string, rest: string, c: char)
    requires Free(s, c) && (rest == [] || rest[0] == c)
    ensures Until(s + rest, c) == |s|
  {
    var t := s + rest;
    assert forall i | 0 <= i < |s| :: t[i] == s[i];
    UntilIs(t, |s|, c);
  }

  /** The pieces between the occurrences of `c`: one more than there are of them. */
  function Pieces(s: string, c: char): (ls: seq<string>)
    ensures |ls| > 0
    decreases |s|
  {
    var n := Until(s, c);
    if n == |s| then [s] else [s[..n]] + Pieces(s[n + 1..], c)
  }

  function JoinWith(ls: seq<string>, c: char): string
    requires |ls| > 0
  {
    if |ls| == 1 then ls[0] else ls[0] + [c] + JoinWith(ls[1..], c)
  }

  lemma FirstPiece(head: string, tail: string, c: char)
    requires Free(head, c)
    ensures Pieces(head + [c] + tail, c) == [head] + Pieces(tail, c)
  {
    var rest := [c] + tail;
    assert head + [c] + tail == head + rest;
    UntilFree(head, rest, c);
    assert (head + rest)[..|head|] == head && (head + rest)[|head| + 1..] == tail;
  }

  lemma OnlyPiece(s: string, c: char)
    requires Free(s, c)
    ensures Pieces(s, c) == [s]
  {
    UntilFree(s, [], c);
    assert s + [] == s;
  }

  lemma {:induction false} PiecesOfJoin(ls: seq<string>, c: char)
    requires |ls| > 0 && AllFree(ls, c)
    ensures Pieces(JoinWith(ls, c), c) == ls
  {
    if |ls| == 1 {
      OnlyPiece(ls[0], c);
    } else {
      FirstPiece(ls[0], JoinWith(ls[1..], c), c);
      PiecesOfJoin(ls[1..], c);
    }
  }

  lemma AroundOne(s: string, n: nat)
    requires n < |s|
    ensures s == s[..n] + [s[n]] + s[n + 1..]
  {
    assert s[..n + 1] == s[..n] + [s[n]];
    assert s == s[..n + 1] + s[n + 1..];
  }

  /** A text up to the first `c`, and the rest. */
  lemma SplitAtFirst(s: string, c: char)
    requires Until(s, c) < |s|
    ensures var n := Until(s, c); Free(s[..n], c) && s == s[..n] + [c] + s[n + 1..]
  {
    AroundOne(s, Until(s, c));
  }

  lemma JoinMore(head: string, ls: seq<string>, c: char)
    requires |ls| > 0
    ensures JoinWith([head] + ls, c) == head + [c] + JoinWith(ls, c)
  {
    assert ([head] + ls)[1..] == ls;
  }

  lemma {:induction false} JoinOfPieces(s: string, c: char)
    ensures JoinWith(Pieces(s, c), c) == s
    decreases |s|
  {
    var n := Until(s, c);
    if n < |s| {
      SplitAtFirst(s, c);
      JoinOfPieces(s[n + 1..], c);
      JoinMore(s[..n], Pieces(s[n + 1..], c), c);
    }
  }

  lemma Regroup(a: string, b: string, d: string, e: string)
    ensures a + b + (d + e) == a + b + d + e
  {}

  /** What is appended to a joined text is appended to its last piece. */
  lemma {:induction false} JoinAppend(ls: seq<string>, last: string, more: string, c: char)
    ensures JoinWith(ls + [last + more], c) == JoinWith(ls + [last], c) + more
  {
    if ls == [] {
      assert [] + [last + more] == [last + more] && [] + [last] == [last];
    } else {
      JoinAppend(ls[1..], last, more, c);
      assert ls + [last + more] == [ls[0]] + (ls[1..] + [last + more]);
      assert ls + [last] == [ls[0]] + (ls[1..] + [last]);
      JoinMore(ls[0], ls[1..] + [last + more], c);
      JoinMore(ls[0], ls[1..] + [last], c);
      Regroup(ls[0], [c], JoinWith(ls[1..] + [last], c), more);
    }
  }

  /** One more piece after the last. */
  lemma {:induction false} JoinOneMore(ls: seq<string>, last: string, c: char)
    requires |ls| > 0
    ensures JoinWith(ls + [last], c) == JoinWith(ls, c) + ([c] + last)
  {
    var head, rest := ls[0], ls[1..];
    assert ls + [last] == [head] + (rest + [last]);
    JoinMore(head, rest + [last], c);
    if rest == [] {
      assert rest + [last] == [last];
      assert head + [c] + last == head + ([c] + last);
    } else {
      JoinOneMore(rest, last, c);
      Regroup(head, [c], JoinWith(rest, c), [c] + last);
    }
  }

  lemma {:induction false} PiecesAreFree(s: string, c: char)
    ensures AllFree(Pieces(s, c), c)
    decreases |s|
  {
    var n := Until(s, c);
    if n < |s| {
      PiecesAreFree(s[n + 1..], c);
    }
  }

  /** A text, a `c`, and a text without one. */
  lemma OneMorePiece(s: string, last: string, c: char)
    requires Free(last, c)
    ensures Pieces(s + ([c] + last), c) == Pieces(s, c) + [last]
  {
    var ls := Pieces(s, c);
    PiecesAreFree(s, c);
    JoinOfPieces(s, c);
    JoinOneMore(ls, last, c);
    PiecesOfJoin(ls + [last], c);
  }
}
