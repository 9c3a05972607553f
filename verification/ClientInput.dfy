/** The client's input: lines, comma-separated fields, trimming, and the requests they denote. */
module ClientInput {
  import opened Texts
  import opened Wrappers

  // ---- Trimming

  predicate IsSpace(c: char) {
    c in " \n\r\t\U{000C}\U{000B}"
  }

  /** Tab, line feed, vertical tab, form feed, carriage return and blank, by their codes. */
  lemma IsSpaceExactly(c: char)
    ensures IsSpace(c) <==> 9 <= c as int <= 13 || c as int == 32
  {}

  predicate AllSpace(s: string) {
    forall i | 0 <= i < |s| :: IsSpace(s[i])
  }

  /** Position of the first character that is not white space; the length when there is none. */
  function FirstNotOf(s: string): (r: nat)
    ensures r <= |s| && (forall i | 0 <= i < r :: IsSpace(s[i])) && (r < |s| ==> !IsSpace(s[r]))
  {
    if s == [] || !IsSpace(s[0]) then 0
    else
      var r := FirstNotOf(s[1..]);
      assert forall i | 1 <= i < r + 1 :: s[i] == s[1..][i - 1];
      r + 1
  }

  /** One past the position of the last character that is not white space; 0 when there is none. */
  function LastNotOf(s: string): (r: nat)
    ensures r <= |s| && (forall i | r <= i < |s| :: IsSpace(s[i])) && (r > 0 ==> !IsSpace(s[r - 1]))
  {
    if s == [] then 0
    else if !IsSpace(s[|s| - 1]) then |s|
    else
      var t := s[..|s| - 1];
      assert forall i | 0 <= i < |t| :: s[i] == t[i];
      LastNotOf(t)
  }

  function LTrim(s: string): string {
    s[FirstNotOf(s)..]
  }

  function RTrim(s: string): string {
    s[..LastNotOf(s)]
  }

  function Trim(s: string): string {
    RTrim(LTrim(s))
  }

  /** Neither end is white space. */
  predicate Trimmed(s: string) {
    s != [] && !IsSpace(s[0]) && !IsSpace(s[|s| - 1])
  }

  lemma FirstNotOfIs(s: string, k: nat)
    requires k < |s| && (forall i | 0 <= i < k :: IsSpace(s[i])) && !IsSpace(s[k])
    ensures FirstNotOf(s) == k
  {}

  lemma LastNotOfIs(s: string, k: nat)
    requires 0 < k <= |s| && (forall i | k <= i < |s| :: IsSpace(s[i])) && !IsSpace(s[k - 1])
    ensures LastNotOf(s) == k
  {}

  /** Trimming removes exactly the white space around a trimmed text. */
  lemma TrimPadded(before: string, field: string, after: string)
    requires AllSpace(before) && Trimmed(field) && AllSpace(after)
    ensures Trim(before + field + after) == field
  {
    var s, t := before + field + after, field + after;
    assert s[|before|] == field[0] && forall i | 0 <= i < |before| :: s[i] == before[i];
    FirstNotOfIs(s, |before|);
    assert LTrim(s) == t;
    assert t[|field| - 1] == field[|field| - 1] && forall i | |field| <= i < |t| :: t[i] == after[i - |field|];
    LastNotOfIs(t, |field|);
  }

  // ---- Tokens

  function SkipCommas(s: string): (r: string)
    ensures |r| <= |s| && (r != [] ==> r[0] != ',')
  {
    if s != [] && s[0] == ',' then SkipCommas(s[1..]) else s
  }

  /** The maximal comma-free pieces of a text, as `strtok_r` yields them. */
  function Tokens(s: string): seq<string>
    decreases |s|
  {
    var t := SkipCommas(s);
    if t == [] then []
    else
      var n := Until(t, ',');
      [t[..n]] + Tokens(t[n..])
  }

  function TrimAll(ts: seq<string>): seq<string> {
    seq(|ts|, i requires 0 <= i < |ts| => Trim(ts[i]))
  }

  /** The fields of a line; the text ends at its first NUL, as for any C string. */
  function Fields(line: string): seq<string> {
    TrimAll(Tokens(line[..Until(line, '\0')]))
  }

  function Commas(n: nat): string {
    seq(n, _ => ',')
  }

  /** A field with white space around it and a run of commas after it. */
  datatype Piece = Piece(before: string, field: string, after: string, commas: nat)

  predicate WellFormed(p: Piece) {
    && AllSpace(p.before) && AllSpace(p.after)
    && Trimmed(p.field) && Free(p.field, ',') && Free(p.field, '\0')
  }

  predicate AllWellFormed(ps: seq<Piece>) {
    && (forall i | 0 <= i < |ps| :: WellFormed(ps[i]))
    && forall i | 0 <= i < |ps| - 1 :: ps[i].commas > 0
  }

  function Body(p: Piece): string {
    p.before + p.field + p.after
  }

  function Render(ps: seq<Piece>): string {
    if ps == [] then [] else Body(ps[0]) + Commas(ps[0].commas) + Render(ps[1..])
  }

  function FieldsOf(ps: seq<Piece>): seq<string> {
    seq(|ps|, i requires 0 <= i < |ps| => ps[i].field)
  }

  lemma BodyIsOneToken(p: Piece)
    requires WellFormed(p)
    ensures Body(p) != [] && Free(Body(p), ',') && Free(Body(p), '\0') && Trim(Body(p)) == p.field
  {
    TrimPadded(p.before, p.field, p.after);
    forall i | 0 <= i < |Body(p)| ensures Body(p)[i] != ',' && Body(p)[i] != '\0' {
      if i < |p.before| {
        assert IsSpace(p.before[i]);
      } else if i < |p.before| + |p.field| {
        assert Body(p)[i] == p.field[i - |p.before|];
      } else {
        assert IsSpace(p.after[i - |p.before| - |p.field|]);
      }
    }
  }

  lemma {:induction false} SkipRun(n: nat, rest: string)
    requires rest == [] || rest[0] != ','
    ensures SkipCommas(Commas(n) + rest) == rest
  {
    if n == 0 {
      assert Commas(0) + rest == rest;
    } else {
      assert (Commas(n) + rest)[1..] == Commas(n - 1) + rest;
      SkipRun(n - 1, rest);
    }
  }

  /** Leading commas, then a comma-free text, then the rest: one token comes off. */
  lemma FirstToken(n: nat, body: string, rest: string)
    requires body != [] && Free(body, ',') && (rest == [] || rest[0] == ',')
    ensures Tokens(Commas(n) + (body + rest)) == [body] + Tokens(rest)
  {
    var t := body + rest;
    SkipRun(n, t);
    UntilFree(body, rest, ',');
    assert t[..|body|] == body && t[|body|..] == rest;
  }

  lemma TrimAllCons(t: string, ts: seq<string>)
    ensures TrimAll([t] + ts) == [Trim(t)] + TrimAll(ts)
  {}

  lemma RenderFirst(ps: seq<Piece>)
    requires ps != [] && AllWellFormed(ps)
    ensures var rest := Commas(ps[0].commas) + Render(ps[1..]);
            Render(ps) == Body(ps[0]) + rest && (rest == [] || rest[0] == ',')
    ensures FieldsOf(ps) == [ps[0].field] + FieldsOf(ps[1..]) && AllWellFormed(ps[1..])
  {
    var body, commas, tail := Body(ps[0]), Commas(ps[0].commas), Render(ps[1..]);
    assert body + commas + tail == body + (commas + tail);
    assert |ps| == 1 ==> tail == [];
  }

  /** Tokenising a rendering yields one token per piece, whatever the runs of commas. */
  lemma {:induction false} TokensOfRendering(n: nat, ps: seq<Piece>)
    requires AllWellFormed(ps)
    ensures TrimAll(Tokens(Commas(n) + Render(ps))) == FieldsOf(ps)
    decreases |ps|
  {
    if ps == [] {
      SkipRun(n, []);
    } else {
      var body, rest := Body(ps[0]), Commas(ps[0].commas) + Render(ps[1..]);
      BodyIsOneToken(ps[0]);
      RenderFirst(ps);
      FirstToken(n, body, rest);
      TokensOfRendering(ps[0].commas, ps[1..]);
      TrimAllCons(body, Tokens(rest));
    }
  }

  lemma {:induction false} RenderingHasNoNul(ps: seq<Piece>)
    requires AllWellFormed(ps)
    ensures Free(Render(ps), '\0')
  {
    if ps != [] {
      BodyIsOneToken(ps[0]);
      RenderingHasNoNul(ps[1..]);
      var c := Body(ps[0]) + Commas(ps[0].commas);
      assert Render(ps) == c + Render(ps[1..]);
    }
  }

  /** Round trip: joining trimmed comma-free fields with runs of commas and white space around each, and
      any commas in front, then splitting the line, gives the fields back. */
  lemma FieldsRoundTrip(n: nat, ps: seq<Piece>)
    requires AllWellFormed(ps)
    ensures Fields(Commas(n) + Render(ps)) == FieldsOf(ps)
  {
    var line := Commas(n) + Render(ps);
    RenderingHasNoNul(ps);
    assert Free(line, '\0');
    UntilFree(line, [], '\0');
    assert line + [] == line && line[..|line|] == line;
    TokensOfRendering(n, ps);
  }

  // ---- Requests

  datatype MessageType = GET | SET | STAT

  /** `kind` is absent where the code leaves the type unset. */
  datatype Message = Message(kind: Option<MessageType>, key: string, value: string)

  function ToUpper(c: char): char {
    if 'a' <= c <= 'z' then (c as int - 32) as char else c
  }

  predicate EqualIgnoringCase(s: string, t: string) {
    |s| == |t| && forall i | 0 <= i < |s| :: s[i] == t[i] || ToUpper(s[i]) == ToUpper(t[i])
  }

  /** Two letters that differ in case alone. */
  predicate OtherCase(upper: char, lower: char) {
    'A' <= upper <= 'Z' && lower as int - upper as int == 32
  }

  lemma SameUpperCaseExactly(a: char, b: char)
    ensures a == b || ToUpper(a) == ToUpper(b) <==> a == b || OtherCase(a, b) || OtherCase(b, a)
  {}

  /** Texts are equal when case is ignored exactly when they have equal length and each two characters are equal
      or differ in case alone. */
  lemma EqualIgnoringCaseExactly(s: string, t: string)
    ensures EqualIgnoringCase(s, t) <==>
            |s| == |t| && forall i | 0 <= i < |s| :: s[i] == t[i] || OtherCase(s[i], t[i]) || OtherCase(t[i], s[i])
  {
    if |s| == |t| {
      forall i | 0 <= i < |s|
        ensures s[i] == t[i] || ToUpper(s[i]) == ToUpper(t[i]) <==>
                s[i] == t[i] || OtherCase(s[i], t[i]) || OtherCase(t[i], s[i])
      {
        SameUpperCaseExactly(s[i], t[i]);
      }
    }
  }

  function ParseFields(fs: seq<string>): Message {
    if |fs| == 0 then Message(None, "", "")
    else if EqualIgnoringCase(fs[0], "GET") && |fs| >= 2 then Message(Some(GET), fs[1], "")
    else if EqualIgnoringCase(fs[0], "SET") && |fs| >= 3 then Message(Some(SET), fs[1], fs[2])
    else if EqualIgnoringCase(fs[0], "STAT") then Message(Some(STAT), "", "")
    else Message(None, "", "")
  }

  function ParseLine(line: string): Message {
    ParseFields(Fields(line))
  }

  function NameOf(k: MessageType): string {
    match k case GET => "GET" case SET => "SET" case STAT => "STAT"
  }

  /** The fields spell the request: its name in any case, then its key and value. Further fields are
      ignored. */
  predicate Spells(fs: seq<string>, m: Message) {
    m.kind.Some? && |fs| > 0 && EqualIgnoringCase(fs[0], NameOf(m.kind.value)) &&
    match m.kind.value
    case GET => |fs| >= 2 && fs[1] == m.key && m.value == ""
    case SET => |fs| >= 3 && fs[1] == m.key && fs[2] == m.value
    case STAT => m.key == "" && m.value == ""
  }

  /** The three names stay apart when case is ignored. */
  lemma NamesDiffer(s: string)
    ensures !(EqualIgnoringCase(s, "GET") && EqualIgnoringCase(s, "SET"))
    ensures !(EqualIgnoringCase(s, "STAT") && (EqualIgnoringCase(s, "GET") || EqualIgnoringCase(s, "SET")))
  {
    if |s| == 3 {
      assert EqualIgnoringCase(s, "GET") ==> ToUpper(s[0]) == ToUpper("GET"[0]);
      assert EqualIgnoringCase(s, "SET") ==> ToUpper(s[0]) == ToUpper("SET"[0]);
    }
  }

  lemma ParseSpelled(fs: seq<string>, m: Message)
    requires Spells(fs, m)
    ensures ParseFields(fs) == m
  {
    NamesDiffer(fs[0]);
  }

  /** The texts that name the three requests, letter by letter. */
  predicate NamesGet(s: string) {
    |s| == 3 && s[0] in "gG" && s[1] in "eE" && s[2] in "tT"
  }

  predicate NamesSet(s: string) {
    |s| == 3 && s[0] in "sS" && s[1] in "eE" && s[2] in "tT"
  }

  predicate NamesStat(s: string) {
    |s| == 4 && s[0] in "sS" && s[1] in "tT" && s[2] in "aA" && s[3] in "tT"
  }

  lemma NamesExactly(s: string)
    ensures EqualIgnoringCase(s, "GET") <==> NamesGet(s)
    ensures EqualIgnoringCase(s, "SET") <==> NamesSet(s)
    ensures EqualIgnoringCase(s, "STAT") <==> NamesStat(s)
  {
    EqualIgnoringCaseExactly(s, "GET");
    EqualIgnoringCaseExactly(s, "SET");
    EqualIgnoringCaseExactly(s, "STAT");
    if |s| == 3 {
      assert s[0] == 'G' || OtherCase(s[0], 'G') || OtherCase('G', s[0]) <==> s[0] in "gG";
      assert s[0] == 'S' || OtherCase(s[0], 'S') || OtherCase('S', s[0]) <==> s[0] in "sS";
    }
  }

  /** Which fields become which request: those that name it, in any case, with enough fields after; what it
      then holds; and nothing else becomes one. */
  lemma RequestsExactly(fs: seq<string>)
    ensures var m := ParseFields(fs);
            && (m.kind == Some(GET) <==> |fs| >= 2 && NamesGet(fs[0]))
            && (m.kind == Some(SET) <==> |fs| >= 3 && NamesSet(fs[0]))
            && (m.kind == Some(STAT) <==> |fs| >= 1 && NamesStat(fs[0]))
            && (m.kind == Some(GET) ==> m.key == fs[1] && m.value == "")
            && (m.kind == Some(SET) ==> m.key == fs[1] && m.value == fs[2])
            && (m.kind == Some(STAT) ==> m.key == "" && m.value == "")
  {
    if |fs| > 0 {
      NamesExactly(fs[0]);
    }
  }

  lemma TwoTokens(a: string, b: string)
    requires a != [] && b != [] && Free(a, ',') && Free(b, ',')
    ensures Tokens(a + "," + b) == [a, b]
  {
    FirstToken(0, a, "," + b);
    assert Commas(0) + (a + ("," + b)) == a + "," + b;
    FirstToken(1, b, "");
    assert Commas(1) + (b + "") == "," + b && Tokens("") == [];
  }

  lemma TrimmedStays(s: string)
    requires Trimmed(s)
    ensures Trim(s) == s
  {
    TrimPadded("", s, "");
    assert "" + s + "" == s;
  }

  lemma TwoFields(a: string, b: string)
    requires Trimmed(a) && Trimmed(b) && Free(a, ',') && Free(b, ',') && Free(a, '\0') && Free(b, '\0')
    ensures Fields(a + "," + b) == [a, b]
  {
    var line := a + "," + b;
    assert Free(line, '\0');
    UntilIs(line, |line|, '\0');
    assert line[..|line|] == line;
    TwoTokens(a, b);
    TrimmedStays(a);
    TrimmedStays(b);
  }

  /** A line in lower case, as a user may write it. */
  lemma LowerCaseGet()
    ensures ParseLine("get" + "," + "k1") == Message(Some(GET), "k1", "")
  {
    TwoFields("get", "k1");
    RequestsExactly(["get", "k1"]);
  }

  /** What follows a NUL on a line is not read. */
  lemma NulEndsLine(line: string, rest: string)
    requires Free(line, '\0')
    ensures Fields(line + "\0" + rest) == Fields(line)
  {
    var tail := "\0" + rest;
    assert line + "\0" + rest == line + tail;
    UntilFree(line, tail, '\0');
    UntilFree(line, [], '\0');
    assert line + [] == line && (line + tail)[..|line|] == line[..|line|];
  }

  /** A line gets a type exactly when its fields spell a request, and then it is read as that request. */
  lemma TypedExactly(fs: seq<string>)
    ensures ParseFields(fs).kind.Some? <==> exists m :: Spells(fs, m)
    ensures ParseFields(fs).kind.Some? ==> Spells(fs, ParseFields(fs))
  {
    if m :| Spells(fs, m) {
      ParseSpelled(fs, m);
    }
    if ParseFields(fs).kind.Some? {
      assert Spells(fs, ParseFields(fs));
    }
  }

  /** Every well-formed request line is recovered, whatever the case of its name and its spacing. */
  lemma RequestRoundTrip(n: nat, ps: seq<Piece>, m: Message)
    requires AllWellFormed(ps) && Spells(FieldsOf(ps), m)
    ensures ParseLine(Commas(n) + Render(ps)) == m
  {
    FieldsRoundTrip(n, ps);
    ParseSpelled(FieldsOf(ps), m);
  }

  // ---- Lines

  /** The lines that reading to the end of the file yields: one more than there are newlines. */
  function Lines(content: string): (ls: seq<string>)
    ensures |ls| > 0
  {
    Pieces(content, '\n')
  }

  function Join(ls: seq<string>): string
    requires |ls| > 0
  {
    JoinWith(ls, '\n')
  }

  lemma LinesOfJoin(ls: seq<string>)
    requires |ls| > 0 && AllFree(ls, '\n')
    ensures Lines(Join(ls)) == ls
  {
    PiecesOfJoin(ls, '\n');
  }

  lemma JoinOfLines(content: string)
    ensures Join(Lines(content)) == content
  {
    JoinOfPieces(content, '\n');
  }

  /** A newline at the end of the file adds a blank line. */
  lemma FinalNewlineAddsBlank(content: string)
    ensures Lines(content + "\n") == Lines(content) + [""]
  {
    OneMorePiece(content, "", '\n');
    assert ['\n'] + "" == "\n";
  }

  /** The request read from a blank line has no type. */
  lemma BlankLineHasNoType()
    ensures ParseLine("") == Message(None, "", "")
  {}

  function ParseAll(ls: seq<string>): seq<Message> {
    seq(|ls|, i requires 0 <= i < |ls| => ParseLine(ls[i]))
  }

  lemma ParseAllAppend(ls: seq<string>, line: string)
    ensures ParseAll(ls + [line]) == ParseAll(ls) + [ParseLine(line)]
  {}

  lemma TrimAllAppend(ts: seq<string>, t: string)
    ensures TrimAll(ts + [t]) == TrimAll(ts) + [Trim(t)]
  {}

  lemma TokensStep(s: string)
    ensures SkipCommas(s) == [] ==> Tokens(s) == []
    ensures SkipCommas(s) != [] ==>
              var t := SkipCommas(s); var n := Until(t, ',');
              0 < n && Tokens(s) == [t[..n]] + Tokens(t[n..])
  {}

  lemma TokenLoopStep(done: seq<string>, saveptr: string, all: seq<string>)
    requires SkipCommas(saveptr) != [] && done + Tokens(saveptr) == all
    ensures var rest := SkipCommas(saveptr); var n := Until(rest, ',');
            && 0 < n && (done + [rest[..n]]) + Tokens(rest[n..]) == all
            && TrimAll(done + [rest[..n]]) == TrimAll(done) + [Trim(rest[..n])]
  {
    var rest := SkipCommas(saveptr);
    var n := Until(rest, ',');
    TokensStep(saveptr);
    TrimAllAppend(done, rest[..n]);
    assert done + ([rest[..n]] + Tokens(rest[n..])) == (done + [rest[..n]]) + Tokens(rest[n..]);
  }

  /** The token loop over one line. */
  method SplitLine(line: string) returns (lineField: seq<string>)
    ensures lineField == Fields(line)
  {
    var str := line[..Until(line, '\0')];
    var saveptr := str;
    ghost var done: seq<string>, all := [], Tokens(str);
    lineField := [];
    var rest := SkipCommas(saveptr);
    while rest != []
      invariant rest == SkipCommas(saveptr) && done + Tokens(saveptr) == all
      invariant lineField == TrimAll(done)
      decreases |rest|
    {
      var n := Until(rest, ',');
      TokenLoopStep(done, saveptr, all);
      done := done + [rest[..n]];
      lineField := lineField + [Trim(rest[..n])];
      saveptr := rest[n..];
      rest := SkipCommas(saveptr);
    }
    TokensStep(saveptr);
    assert done + [] == done;
  }

  /** Reads lines to the end of the file and appends one message for each. */
  method ReadAndParse(content: string) returns (inputData: seq<Message>)
    ensures inputData == ParseAll(Lines(content))
  {
    var infile, eof := content, false;
    ghost var done: seq<string> := [];
    inputData := [];
    assert [] + Lines(content) == Lines(content);
    while !eof
      invariant inputData == ParseAll(done)
      invariant done + (if eof then [] else Lines(infile)) == Lines(content)
      decreases !eof, |infile|
    {
      ghost var ls := Lines(infile);
      var n := Until(infile, '\n');
      var line := infile[..n];
      assert n == |infile| ==> line == infile;
      eof := n == |infile|;
      if !eof {
        infile := infile[n + 1..];
        assert done + ls == done + [line] + Lines(infile);
      }
      var fields := SplitLine(line);
      inputData := inputData + [ParseFields(fields)];
      ParseAllAppend(done, line);
      done := done + [line];
    }
  }

  predicate AllTyped(ms: seq<Message>) {
    forall i | 0 <= i < |ms| :: ms[i].kind.Some?
  }

  /** The fields of the line spell some request. */
  ghost predicate SpellsARequest(line: string) {
    exists m :: Spells(Fields(line), m)
  }

  /** Every request read from a file has its type set exactly when every line spells a request. */
  lemma AllTypedExactly(content: string)
    ensures AllTyped(ParseAll(Lines(content))) <==>
            forall i | 0 <= i < |Lines(content)| :: SpellsARequest(Lines(content)[i])
  {
    var ls := Lines(content);
    forall i | 0 <= i < |ls| ensures ParseAll(ls)[i].kind.Some? <==> SpellsARequest(ls[i]) {
      TypedExactly(Fields(ls[i]));
    }
  }

  /** A file that ends in a newline never meets that condition. */
  lemma FinalNewlineNeverAllTyped(content: string)
    ensures !AllTyped(ParseAll(Lines(content + "\n")))
  {
    FinalNewlineAddsBlank(content);
    BlankLineHasNoType();
    var ms := ParseAll(Lines(content + "\n"));
    assert ms[|ms| - 1] == ParseLine("");
  }

  /** Nor does a file that is just "GET", which has no newline. */
  lemma BareGetIsNotTyped()
    ensures Lines("GET") == ["GET"] && !AllTyped(ParseAll(Lines("GET")))
  {
    var line := "GET";
    UntilIs(line, 3, '\n');
    UntilIs(line, 3, ',');
    UntilIs(line, 3, '\0');
    assert SkipCommas(line) == line && line[..3] == line && line[3..] == "";
    assert Tokens("") == [];
    assert Tokens(line) == ["GET"];
    assert ParseAll([line])[0] == ParseLine(line) && |Fields(line)| == 1;
  }

  predicate LineSpells(line: string, lead: nat, ps: seq<Piece>, m: Message) {
    && line == Commas(lead) + Render(ps) && Free(line, '\n')
    && AllWellFormed(ps) && Spells(FieldsOf(ps), m)
  }

  lemma SpelledLines(ls: seq<string>, lead: seq<nat>, pss: seq<seq<Piece>>, ms: seq<Message>)
    requires 0 < |ls| == |lead| == |pss| == |ms|
    requires forall i | 0 <= i < |ls| :: LineSpells(ls[i], lead[i], pss[i], ms[i])
    ensures Lines(Join(ls)) == ls && ParseAll(ls) == ms
  {
    forall i | 0 <= i < |ls| ensures Free(ls[i], '\n') && ParseLine(ls[i]) == ms[i] {
      assert LineSpells(ls[i], lead[i], pss[i], ms[i]);
      RequestRoundTrip(lead[i], pss[i], ms[i]);
    }
    LinesOfJoin(ls);
  }

  /** A file of well-formed request lines is read back as exactly those requests, in order, if and only
      if no newline follows the last line. */
  lemma FileRoundTrip(ls: seq<string>, lead: seq<nat>, pss: seq<seq<Piece>>, ms: seq<Message>, newline: bool)
    requires 0 < |ls| == |lead| == |pss| == |ms|
    requires forall i | 0 <= i < |ls| :: LineSpells(ls[i], lead[i], pss[i], ms[i])
    ensures ParseAll(Lines(Join(ls) + (if newline then "\n" else ""))) == ms <==> !newline
  {
    SpelledLines(ls, lead, pss, ms);
    if newline {
      FinalNewlineAddsBlank(Join(ls));
      assert |ParseAll(ls + [""])| == |ls| + 1;
    } else {
      assert Join(ls) + "" == Join(ls);
    }
  }
}
