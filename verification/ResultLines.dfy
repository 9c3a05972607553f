/** Reading the result file back: a reader that knows nothing of how lines are written, and what it finds in
    the text the client writes. */
module ResultLines {
  import opened ClientResults
  import opened Texts
  import opened Wrappers

  // ---- Numbers

  function DigitValue(c: char): int {
    c as int - '0' as int
  }

  function Value(s: string): int {
    if s == [] then 0 else 10 * Value(s[..|s| - 1]) + DigitValue(s[|s| - 1])
  }

  /** The number that a decimal text denotes. */
  function FromDecimal(s: string): int {
    if s != [] && s[0] == '-' then -Value(s[1..]) else Value(s)
  }

  predicate AllDigits(s: string) {
    forall i | 0 <= i < |s| :: '0' <= s[i] <= '9'
  }

  lemma {:induction false} NaturalReadsBack(n: nat)
    ensures AllDigits(ToString(n)) && |ToString(n)| > 0 && Value(ToString(n)) == n
    ensures n > 0 ==> ToString(n)[0] != '0'
    decreases n
  {
    var s := ToString(n);
    if n < 10 {
      assert s[..0] == [];
    } else {
      NaturalReadsBack(n / 10);
      assert s[..|s| - 1] == ToString(n / 10);
    }
  }

  lemma DigitsArePlain(s: string)
    requires AllDigits(s)
    ensures Free(s, ',') && Free(s, '\n') && Free(s, '-')
  {}

  lemma MinusReadsBack(n: nat, s: string)
    requires s == "-" + ToString(n)
    ensures FromDecimal(s) + n == 0 && Free(s, ',') && Free(s, '\n')
  {
    NaturalReadsBack(n);
    DigitsArePlain(ToString(n));
    assert s[1..] == ToString(n);
  }

  /** A number is written in decimal, without a leading zero, and reads back as itself. */
  lemma NumberReadsBack(n: int)
    ensures FromDecimal(ToString(n)) == n
    ensures Free(ToString(n), ',') && Free(ToString(n), '\n')
    ensures n != 0 ==> ToString(n)[0] != '0'
  {
    if n < 0 {
      MinusReadsBack(-n, ToString(n));
    } else {
      NaturalReadsBack(n);
      DigitsArePlain(ToString(n));
      assert ToString(n)[0] != '-';
    }
  }

  // ---- One line

  /** The texts of a result in the order of the file: the key, then the value, or the reason of a GET that has
      no value. */
  function Words(r: ResultData): seq<string>
    requires r.payload.requestType.Some?
  {
    var p := r.payload;
    (if p.key.Some? then [p.key.value] else [])
    + (if p.value.Some? then [p.value.value]
       else if p.requestType == Some(GET) && p.reason.Some? then [p.reason.value]
       else [])
  }

  function Present(n: Option<int>): seq<int> {
    if n.Some? then [n.value] else []
  }

  /** The counters of a result: all requests, successes, failures. */
  function Counters(r: ResultData): seq<int> {
    if r.payload.stats == None then []
    else
      var s := r.payload.stats.value;
      Present(s.numGetReq) + Present(s.numSuccGetReq) + Present(s.numFailGetReq)
  }

  predicate PlainWords(r: ResultData) {
    r.payload.requestType.Some? ==> AllFree(Words(r), ',') && AllFree(Words(r), '\n')
  }

  predicate NameIs(name: string, t: RequestType) {
    match t
    case GET => name == "GET"
    case SET => name == "SET"
    case STAT => name == "STAT"
  }

  /** A line reads as a result: split at its commas it gives the timestamp, the name of the type, the texts and
      the counters, and nothing else. */
  predicate ReadsAs(line: string, r: ResultData)
    requires r.payload.requestType.Some?
  {
    var cs, ws, ns := Pieces(line, ','), Words(r), Counters(r);
    && |cs| == 2 + |ws| + |ns|
    && FromDecimal(cs[0]) == r.timestamp && NameIs(cs[1], r.payload.requestType.value)
    && cs[2..2 + |ws|] == ws
    && forall i | 0 <= i < |ns| :: FromDecimal(cs[2 + |ws| + i]) == ns[i]
  }

  function Decimals(ns: seq<int>): seq<string> {
    seq(|ns|, i requires 0 <= i < |ns| => ToString(ns[i]))
  }

  function Columns(r: ResultData): seq<string>
    requires r.payload.requestType.Some?
  {
    [ToString(r.timestamp), TypeName(r.payload.requestType.value)] + (Words(r) + Decimals(Counters(r)))
  }

  /** Each text after a comma. */
  function Tail(cs: seq<string>): string {
    if cs == [] then "" else "," + cs[0] + Tail(cs[1..])
  }

  lemma {:induction false} TailAppend(a: seq<string>, b: seq<string>)
    ensures Tail(a + b) == Tail(a) + Tail(b)
  {
    if a == [] {
      assert a + b == b;
    } else {
      assert (a + b)[1..] == a[1..] + b;
      TailAppend(a[1..], b);
      Regroup("", "," + a[0], Tail(a[1..]), Tail(b));
    }
  }

  lemma TailOne(c: string)
    ensures Tail([c]) == "," + c
  {
    assert [c][1..] == [];
  }

  lemma {:induction false} JoinIsTail(c: string, cs: seq<string>)
    ensures JoinWith([c] + cs, ',') == c + Tail(cs)
    decreases cs
  {
    if cs == [] {
      assert [c] + cs == [c];
    } else {
      assert cs == [cs[0]] + cs[1..];
      JoinIsTail(cs[0], cs[1..]);
      JoinMore(c, cs, ',');
      Regroup(c, ",", cs[0], Tail(cs[1..]));
    }
  }

  lemma TailOfWords(r: ResultData)
    requires r.payload.requestType.Some?
    ensures var p := r.payload;
            Tail(Words(r)) == Column(p.key) + (if p.value.Some? then Column(p.value)
                                               else if p.requestType.value == GET then Column(p.reason) else "")
  {
    var p := r.payload;
    var first := if p.key.Some? then [p.key.value] else [];
    var second := if p.value.Some? then [p.value.value]
                  else if p.requestType == Some(GET) && p.reason.Some? then [p.reason.value]
                  else [];
    TailAppend(first, second);
    if p.key.Some? {
      TailOne(p.key.value);
    }
    if second != [] {
      TailOne(second[0]);
    }
  }

  lemma TailOfPresent(n: Option<int>)
    ensures Tail(Decimals(Present(n))) == NumberColumn(n)
  {
    if n.Some? {
      assert Decimals(Present(n)) == [ToString(n.value)];
      TailOne(ToString(n.value));
    }
  }

  lemma DecimalsAppend(a: seq<int>, b: seq<int>)
    ensures Decimals(a + b) == Decimals(a) + Decimals(b)
  {}

  lemma TailOfCounters(s: Stat)
    ensures Tail(Decimals(Present(s.numGetReq) + Present(s.numSuccGetReq) + Present(s.numFailGetReq))) ==
            NumberColumn(s.numGetReq) + NumberColumn(s.numSuccGetReq) + NumberColumn(s.numFailGetReq)
  {
    var a, b, c := Present(s.numGetReq), Present(s.numSuccGetReq), Present(s.numFailGetReq);
    DecimalsAppend(a + b, c);
    DecimalsAppend(a, b);
    TailAppend(Decimals(a + b), Decimals(c));
    TailAppend(Decimals(a), Decimals(b));
    TailOfPresent(s.numGetReq);
    TailOfPresent(s.numSuccGetReq);
    TailOfPresent(s.numFailGetReq);
  }

  /** A line is its columns with commas between them, and a newline. */
  lemma LineIsColumns(r: ResultData)
    requires r.payload.requestType.Some?
    ensures Line(r) == JoinWith(Columns(r), ',') + "\n"
  {
    var time, name := ToString(r.timestamp), TypeName(r.payload.requestType.value);
    var words, numbers := Words(r), Decimals(Counters(r));
    var rest := words + numbers;
    assert Columns(r) == [time] + ([name] + rest);
    JoinIsTail(time, [name] + rest);
    TailAppend([name], rest);
    TailOne(name);
    TailAppend(words, numbers);
    TailOfWords(r);
    if r.payload.stats.Some? {
      TailOfCounters(r.payload.stats.value);
    }
    LineParts(r, time, name, Tail(words), Tail(numbers));
  }

  lemma LineParts(r: ResultData, time: string, name: string, words: string, numbers: string)
    requires r.payload.requestType.Some?
    requires time == ToString(r.timestamp) && name == TypeName(r.payload.requestType.value)
    requires var p := r.payload;
             words == Column(p.key) + (if p.value.Some? then Column(p.value)
                                       else if p.requestType.value == GET then Column(p.reason) else "")
    requires var p := r.payload;
             numbers == if p.stats.Some? then NumberColumn(p.stats.value.numGetReq)
                                              + NumberColumn(p.stats.value.numSuccGetReq)
                                              + NumberColumn(p.stats.value.numFailGetReq)
                        else ""
    ensures Line(r) == time + ("," + name + (words + numbers)) + "\n"
  {
    var p := r.payload;
    var second := if p.value.Some? then Column(p.value)
                  else if p.requestType.value == GET then Column(p.reason) else "";
    Reassociate(time, name, Column(p.key), second, numbers);
  }

  lemma Reassociate(time: string, name: string, first: string, second: string, numbers: string)
    ensures time + "," + name + first + second + numbers + "\n" ==
            time + ("," + name + ((first + second) + numbers)) + "\n"
  {}

  lemma ColumnsArePlain(r: ResultData)
    requires r.payload.requestType.Some? && PlainWords(r)
    ensures AllFree(Columns(r), ',') && AllFree(Columns(r), '\n')
  {
    NumberReadsBack(r.timestamp);
    forall i | 0 <= i < |Counters(r)|
      ensures Free(Decimals(Counters(r))[i], ',') && Free(Decimals(Counters(r))[i], '\n')
    {
      NumberReadsBack(Counters(r)[i]);
    }
  }

  /** The line of a result without its newline. */
  function Body(r: ResultData): string
    requires r.payload.requestType.Some?
  {
    JoinWith(Columns(r), ',')
  }

  /** The line of a result whose texts hold no comma and no newline reads as that result. */
  lemma LineReadsBack(r: ResultData)
    requires r.payload.requestType.Some? && PlainWords(r)
    ensures Line(r) == Body(r) + "\n" && ReadsAs(Body(r), r)
  {
    LineIsColumns(r);
    ColumnsArePlain(r);
    PiecesOfJoin(Columns(r), ',');
    NumberReadsBack(r.timestamp);
    forall i | 0 <= i < |Counters(r)| ensures FromDecimal(Decimals(Counters(r))[i]) == Counters(r)[i] {
      NumberReadsBack(Counters(r)[i]);
    }
    var words, numbers := Words(r), Decimals(Counters(r));
    assert Columns(r)[2..2 + |words|] == words;
  }

  lemma {:induction false} JoinIsFree(ls: seq<string>, c: char, d: char)
    requires |ls| > 0 && AllFree(ls, d) && c != d
    ensures Free(JoinWith(ls, c), d)
  {
    if |ls| > 1 {
      JoinIsFree(ls[1..], c, d);
      var first, rest := ls[0] + [c], JoinWith(ls[1..], c);
      assert Free(first, d) && JoinWith(ls, c) == first + rest;
    }
  }

  // ---- The whole file

  /** The results that have a request type, in order. */
  function Typed(rs: seq<ResultData>): (ts: seq<ResultData>)
    ensures forall i | 0 <= i < |ts| :: ts[i].payload.requestType.Some? && ts[i] in rs
  {
    if rs == [] then []
    else
      Typed(rs[..|rs| - 1]) + (if rs[|rs| - 1].payload.requestType.Some? then [rs[|rs| - 1]] else [])
  }

  function Bodies(ts: seq<ResultData>): seq<string>
    requires forall i | 0 <= i < |ts| :: ts[i].payload.requestType.Some?
  {
    seq(|ts|, i requires 0 <= i < |ts| => Body(ts[i]))
  }

  lemma OneMoreTyped(text: string, ts: seq<ResultData>, r: ResultData)
    requires r.payload.requestType.Some? && PlainWords(r)
    requires forall i | 0 <= i < |ts| :: ts[i].payload.requestType.Some?
    requires Pieces(text, '\n') == Bodies(ts) + [""]
    ensures Pieces(text + Line(r), '\n') == Bodies(ts + [r]) + [""]
  {
    LineReadsBack(r);
    ColumnsArePlain(r);
    JoinIsFree(Columns(r), ',', '\n');
    assert Bodies(ts + [r]) == Bodies(ts) + [Body(r)];
    OneMoreLine(text, Bodies(ts), Body(r));
  }

  lemma {:induction false} TextIsBodies(rs: seq<ResultData>)
    requires forall i | 0 <= i < |rs| :: PlainWords(rs[i])
    ensures Pieces(Text(rs), '\n') == Bodies(Typed(rs)) + [""]
  {
    if rs == [] {
      OnlyPiece("", '\n');
    } else {
      var init, r := rs[..|rs| - 1], rs[|rs| - 1];
      TextIsBodies(init);
      if r.payload.requestType.Some? {
        OneMoreTyped(Text(init), Typed(init), r);
      } else {
        assert Text(init) + "" == Text(init) && Typed(init) + [] == Typed(init);
      }
    }
  }

  lemma OneMoreLine(text: string, ls: seq<string>, body: string)
    requires Pieces(text, '\n') == ls + [""] && Free(body, '\n')
    ensures Pieces(text + (body + "\n"), '\n') == ls + [body] + [""]
  {
    PiecesAreFree(text, '\n');
    JoinOfPieces(text, '\n');
    JoinAppend(ls, "", body, '\n');
    assert "" + body == body;
    PiecesOfSwapped(text, ls, body);
    OneMorePiece(text + body, "", '\n');
    assert text + body + (['\n'] + "") == text + (body + "\n");
  }

  lemma PiecesOfSwapped(text: string, ls: seq<string>, body: string)
    requires AllFree(ls + [""], '\n') && Free(body, '\n') && JoinWith(ls + [body], '\n') == text + body
    ensures Pieces(text + body, '\n') == ls + [body]
  {
    forall i | 0 <= i < |ls| ensures Free(ls[i], '\n') {
      assert (ls + [""])[i] == ls[i];
    }
    PiecesOfJoin(ls + [body], '\n');
  }

  /** Split into lines, the text holds one line for each result that has a request type, in order, each reading
      as its result, and ends after the last newline. */
  lemma TextReadsBack(rs: seq<ResultData>)
    requires forall i | 0 <= i < |rs| :: PlainWords(rs[i])
    ensures var ls := Pieces(Text(rs), '\n');
            && |ls| == |Typed(rs)| + 1 && ls[|Typed(rs)|] == ""
            && forall i | 0 <= i < |Typed(rs)| :: ReadsAs(ls[i], Typed(rs)[i])
  {
    TextIsBodies(rs);
    forall i | 0 <= i < |Typed(rs)| ensures ReadsAs(Body(Typed(rs)[i]), Typed(rs)[i]) {
      LineReadsBack(Typed(rs)[i]);
    }
  }

  /** The file that the client writes, read back. */
  method SaveAndReadBack(pool: seq<seq<ResultData>>) returns (lines: seq<string>, sorted: seq<ResultData>)
    requires forall r | r in Flatten(pool) :: PlainWords(r)
    ensures SameResults(sorted, Flatten(pool)) && SortedByTimestamp(sorted)
    ensures |lines| == |Typed(sorted)| + 1 && lines[|Typed(sorted)|] == ""
    ensures forall i | 0 <= i < |Typed(sorted)| :: ReadsAs(lines[i], Typed(sorted)[i])
  {
    var writes;
    writes, sorted := SaveResults(pool);
    forall i | 0 <= i < |sorted| ensures PlainWords(sorted[i]) {
      assert sorted[i] in multiset(sorted) && sorted[i] in multiset(Flatten(pool));
    }
    TextReadsBack(sorted);
    lines := Pieces(Flatten(writes), '\n');
  }

  // ---- Lines as they stand in a file

  lemma GetLine()
    ensures Line(ResultData(Payload(Some(GET), Some("k1"), Some("v1"), None, None), 7)) == "7,GET,k1,v1\n"
  {
    assert ToString(7) == "7";
  }

  lemma FailedGetLine()
    ensures Line(ResultData(Payload(Some(GET), Some("k1"), None, None, Some("no")), 7)) == "7,GET,k1,no\n"
  {
    assert ToString(7) == "7";
  }

  lemma SetLine()
    ensures Line(ResultData(Payload(Some(SET), Some("k1"), Some("v1"), None, None), 7)) == "7,SET,k1,v1\n"
  {
    assert ToString(7) == "7";
  }

  lemma StatLine()
    ensures Line(ResultData(Payload(Some(STAT), None, None, Some(Stat(Some(2), Some(1), Some(0))), None), 7)) ==
            "7,STAT,2,1,0\n"
  {
    assert ToString(7) == "7" && ToString(2) == "2" && ToString(1) == "1" && ToString(0) == "0";
  }
}
