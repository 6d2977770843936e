/** What a caller can see of a read that feeds the parser the unfinished bytes of a request again, compared with
    reading those bytes once: which pieces do no harm, and for the others a continuation that tells the difference. */
module HttpSecondRead {
  import opened Config
  import opened Bytes
  import opened HttpText
  import opened HttpParsing
  import opened HttpWords
  import opened HttpFragmentation
  import opened HttpPrinting
  import opened HttpPipeline
  import opened HttpReread

  /** What a pass shows: everything but the state of the parser inside a request that is still unfinished. */
  datatype View = View(queue: seq<Pending>, outcome: Outcome, shouldClose: bool, buffered: Text)

  function Shown(p: Pass): View { View(p.queue, p.outcome, p.shouldClose, p.buffered) }

  lemma SameShown(p: Parser, q: Parser, data: Text)
    requires p.Valid() && q.Valid() && data != []
    requires var r, s := Run(p, data), Run(q, data);
      r == s || (r.hasError && s.hasError) || (!r.hasError && !s.hasError && !r.isComplete && !s.isComplete)
    ensures Shown(ParseLoop(p, data, [], false)) == Shown(ParseLoop(q, data, [], false))
  {
    hide Run, ParseLoop;
    ParseStep(p, data, [], false);
    ParseStep(q, data, [], false);
  }

  lemma FirstShown(p: Parser, data: Text)
    requires p.Valid() && data != []
    ensures var r, queue := Run(p, data), ParseLoop(p, data, [], false).queue;
      if r.isComplete && !r.hasError then queue != [] && queue[0] == Recognised(r, data) else queue == []
  {
    hide Run, ParseLoop;
    ParseStep(p, data, [], false);
    var r := Run(p, data);
    if r.isComplete && !r.hasError {
      var item := Recognised(r, data);
      Units([item]);
      var items, rest := PassTiles(data[r.used..], [item], !item.request.keepAlive);
    }
  }

  // ---- The cut is inside the request line ----

  /** The piece has no word yet, or its first three words are complete, or its third word is unacceptable already. */
  predicate Settled(rest: Text) {
    var w := Words(rest);
    w == [] || |w| >= 4 || (|w| == 3 && (EndsInSpace(rest) || !GoodVersion(w[2])))
  }

  /** Two request lines that are both refused, or both accepted for the same request. */
  predicate AlikeLines(a: Text, b: Text) {
    var (x, r) := RequestLine(NEW_REQUEST, a);
    var (y, s) := RequestLine(NEW_REQUEST, b);
    x == y && (x ==> r == s)
  }

  /** How a piece determines the words of the whole line. */
  lemma Begins(rest: Text, more: Text)
    ensures var w, all := Words(rest), Words(rest + more);
      && |w| <= |all|
      && (|w| >= 4 || (|w| == 3 && EndsInSpace(rest)) ==> all[0] == w[0] && all[1] == w[1] && all[2] == w[2])
      && (|w| == 3 ==> all[0] == w[0] && all[1] == w[1] && w[2] <= all[2])
  {
    hide Words;
    var w := Words(rest);
    if rest == [] || more == [] || EndsInSpace(rest) || StartsWithSpace(more) {
      Separated(rest, more);
    } else {
      Merged(rest, more);
    }
  }

  lemma SettledIsAlike(rest: Text, line: Text)
    requires Settled(rest) && rest != [] && (rest <= line || rest == line + [CR])
    ensures AlikeLines(rest + line, line)
  {
    hide Words, RequestLine;
    LineByWords(rest + line);
    LineByWords(line);
    Begins(rest, line);
    if Words(rest) == [] {
      BlankHasNoWords(rest);
      assert rest[|rest| - 1] in rest;
      Separated(rest, line);
      Units(Words(line));
    } else if rest <= line {
      assert line == rest + line[|rest|..];
      Begins(rest, line[|rest|..]);
      StaysBad(rest, line);
      StaysBad(rest, line[|rest|..]);
    } else {
      Separated(line, [CR]);
      BlankHasNoWords([CR]);
      Units(Words(line));
      assert EndsInSpace(rest);
    }
  }

  lemma StaysBad(rest: Text, more: Text)
    ensures |Words(rest)| == 3 && !GoodVersion(Words(rest)[2]) ==>
              |Words(rest + more)| >= 3 && !GoodVersion(Words(rest + more)[2])
  {
    hide Words;
    Begins(rest, more);
    if |Words(rest)| == 3 && !GoodVersion(Words(rest)[2]) {
      var v, u := Words(rest)[2], Words(rest + more)[2];
      assert u[..|v|] == v;
      assert u[..5] == v[..5];
    }
  }

  /** Twice the piece: the copies are set off from each other, or a word is made of the last and the first. */
  lemma Doubled(rest: Text)
    requires Words(rest) != []
    ensures var w, all := Words(rest), Words(rest + rest);
      all == if EndsInSpace(rest) || StartsWithSpace(rest) then w + w
             else w[..|w| - 1] + ([w[|w| - 1] + w[0]] + w[1..])
  {
    hide Words;
    NoWords();
    if EndsInSpace(rest) || StartsWithSpace(rest) {
      Separated(rest, rest);
    } else {
      Merged(rest, rest);
    }
  }

  /** What comes behind a space is a word of its own. */
  lemma ThenWords(s: Text, u: Text)
    ensures Words(s + ([' '] + u)) == Words(s) + Words(u)
  {
    hide Words;
    Separated(s, [' '] + u);
    AnySpaceFirst(' ', u);
  }

  /** Otherwise some way to go on tells the two lines apart. */
  lemma UnsettledDiffers(rest: Text) returns (t: Text)
    requires !Settled(rest)
    ensures !AlikeLines(rest + (rest + t), rest + t)
    ensures t != [] && CR !in t && LF !in t
  {
    hide Words, RequestLine;
    var w := Words(rest);
    if |w| == 1 {
      t := OneWordDiffers(rest);
    } else if |w| == 2 {
      t := TwoWordsDiffer(rest);
    } else {
      t := ThreeWordsDiffer(rest);
    }
  }

  const OTHER: Text := "?"

  lemma OneWordDiffers(rest: Text) returns (t: Text)
    requires |Words(rest)| == 1
    ensures !AlikeLines(rest + (rest + t), rest + t)
    ensures t != [] && CR !in t && LF !in t
  {
    hide Words, RequestLine;
    var w := Words(rest)[0];
    var p: Text := if w == "?" then "!" else "?";
    var u := p + ([' '] + "?");
    t := [' '] + u;
    PairOfWords(p, "?");
    Doubled(rest);
    ThenWords(rest, u);
    ThenWords(rest + rest, u);
    Assoc(rest, rest, t);
    LineByWords(rest + t);
    LineByWords(rest + (rest + t));
    assert Words(rest) == [w];
    if !(EndsInSpace(rest) || StartsWithSpace(rest)) {
      assert Words(rest + rest) == [w + w];
      WordsAreWords(rest);
      assert w + w != w;
    }
  }

  lemma PairOfWords(p: Text, q: Text)
    requires IsWord(p) && IsWord(q)
    ensures Words(p + ([' '] + q)) == [p, q]
  {
    hide Words;
    WordsCons(p, [' '] + q);
    LastWord(q);
  }

  /** No word is empty. */
  lemma {:induction false} WordsAreWords(s: Text)
    ensures forall i | 0 <= i < |Words(s)| :: IsWord(Words(s)[i])
    decreases |s|
  {
    hide Words;
    if Words(s) != [] {
      var lead, w, rest := FirstWord(s);
      WordsAreWords(rest);
      assert forall i | 1 <= i < |Words(s)| :: Words(s)[i] == Words(rest)[i - 1];
    }
  }

  lemma TwoWordsDiffer(rest: Text) returns (t: Text)
    requires |Words(rest)| == 2
    ensures !AlikeLines(rest + (rest + t), rest + t)
    ensures t != [] && CR !in t && LF !in t
  {
    hide Words, RequestLine;
    var w := Words(rest);
    var v: Text := if w[0] == "?" then "!" else "?";
    t := [' '] + v;
    SingleWord(v);
    Doubled(rest);
    ThenWords(rest, v);
    ThenWords(rest + rest, v);
    Assoc(rest, rest, t);
    LineByWords(rest + t);
    LineByWords(rest + (rest + t));
    assert w == [w[0], w[1]];
    if !(EndsInSpace(rest) || StartsWithSpace(rest)) {
      WordsAreWords(rest);
      assert |w[1] + w[0]| > |w[1]|;
    }
  }

  lemma SingleWord(v: Text)
    requires IsWord(v)
    ensures Words(v) == [v]
  {
    hide Words;
    WordsCons(v, []);
    NoWords();
    Units(v);
  }

  lemma ThreeWordsDiffer(rest: Text) returns (t: Text)
    requires |Words(rest)| == 3 && !EndsInSpace(rest) && GoodVersion(Words(rest)[2])
    ensures !AlikeLines(rest + (rest + t), rest + t)
    ensures t != [] && CR !in t && LF !in t
  {
    hide Words, RequestLine;
    if StartsWithSpace(rest) {
      t := "?";
      LongerVersion(rest);
    } else {
      t := [' '];
      VersionAndMethod(rest);
    }
  }

  /** The first copy has a complete version, the second line goes on with it. */
  lemma LongerVersion(rest: Text)
    requires |Words(rest)| == 3 && !EndsInSpace(rest) && GoodVersion(Words(rest)[2]) && StartsWithSpace(rest)
    ensures !AlikeLines(rest + (rest + "?"), rest + "?")
  {
    hide Words, RequestLine, GoodVersion;
    var w, t: Text := Words(rest), "?";
    SingleWord(t);
    Merged(rest, t);
    Separated(rest, rest + t);
    LineByWords(rest + t);
    LineByWords(rest + (rest + t));
    var one, two := Words(rest + t), Words(rest + (rest + t));
    assert one[2] == w[2] + "?" && two[2] == w[2];
    assert |w[2] + "?"| > |w[2]|;
  }

  /** The version of the first copy runs into the method of the second. */
  lemma VersionAndMethod(rest: Text)
    requires |Words(rest)| == 3 && !EndsInSpace(rest) && GoodVersion(Words(rest)[2]) && !StartsWithSpace(rest)
    ensures !AlikeLines(rest + (rest + [' ']), rest + [' '])
  {
    hide Words, RequestLine, GoodVersion;
    var w, t: Text := Words(rest), [' '];
    NoWords();
    Units(t);
    ThenWords(rest, []);
    ThenWords(rest + rest, []);
    Units(w);
    Doubled(rest);
    Units(Words(rest + rest));
    Assoc(rest, rest, t);
    LineByWords(rest + t);
    LineByWords(rest + (rest + t));
    WordsAreWords(rest);
    assert Words(rest + (rest + t))[2] == w[2] + w[0];
    assert |w[2] + w[0]| > |w[2]|;
  }

  function LineParser(pending: Text): Parser { Parser(ExpectRequestLine, NEW_REQUEST, pending, 0) }

  lemma OnFirstLine(pending: Text, line: Text)
    ensures var (ok, req) := RequestLine(NEW_REQUEST, line);
      OnLine(LineParser(pending), line) == if ok then HeaderParser(req) else HeaderParser(req).(phase := Error)
  {
    hide RequestLine;
  }

  /** Bytes in front of the piece that have no effect: whatever becomes of the line, it reads as without them. */
  ghost predicate Absorbed(front: Text, rest: Text) {
    forall line: Text | rest <= line || rest == line + [CR] :: AlikeLines(front + line, line)
  }

  lemma NothingAbsorbed(rest: Text)
    ensures Absorbed([], rest)
  {
    hide RequestLine;
    forall line: Text ensures [] + line == line {
      Units(line);
    }
  }

  /** A settled piece is absorbed in its turn when it is read again. */
  lemma {:induction false} SettledIsAbsorbed(front: Text, rest: Text, b: Text)
    requires Absorbed(front, rest) && Settled(rest) && rest != [] && b != []
    ensures Absorbed(front + rest, rest + b)
    ensures forall line: Text | rest <= line || rest == line + [CR] :: AlikeLines(front + rest + line, line)
  {
    hide RequestLine, Settled;
    forall line: Text | rest <= line || rest == line + [CR]
      ensures AlikeLines(front + rest + line, line)
    {
      Assoc(front, rest, line);
      SettledIsAlike(rest, line);
      assert AlikeLines(front + (rest + line), rest + line);
    }
    forall line: Text | rest + b <= line || rest + b == line + [CR]
      ensures rest <= line
    {
      if rest + b == line + [CR] {
        assert line == (rest + b)[..|rest + b| - 1];
      } else {
        assert line[..|rest|] == rest;
      }
    }
  }

  lemma FirstLineHarmless(front: Text, rest: Text, b: Text)
    requires rest != [] && FindCrlf(rest).None? && Absorbed(front, rest) && Settled(rest) && b != []
    ensures var p, data := LineParser(front + rest), rest + b;
      var r, s := Run(p, data), Run(NEW_PARSER, data);
      if FindCrlf(data).None? then r == Result(OnPartialLine(p, data), |data|, false, false)
                                   && s == Result(OnPartialLine(NEW_PARSER, data), |data|, false, false)
      else r == s || (r.hasError && s.hasError)
  {
    hide Run, FindCrlf, OnLine, RequestLine, Settled, Absorbed, OnPartialLine;
    var p, data := LineParser(front + rest), rest + b;
    var f := FindCrlf(data);
    if f.None? {
      PartialRun(p, data);
      PartialRun(NEW_PARSER, data);
    } else {
      var line := data[..f.value];
      LineCoversRest(rest, b, f.value);
      SettledIsAbsorbed(front, rest, b);
      assert AlikeLines(front + rest + line, line);
      Units(line);
      RunAtCrlf(p, data, f.value);
      RunAtCrlf(NEW_PARSER, data, f.value);
      OnFirstLine(front + rest, front + rest + line);
      OnFirstLine([], line);
    }
  }

  lemma LineCoversRest(rest: Text, b: Text, i: nat)
    requires FindCrlf(rest).None? && FindCrlf(rest + b) == Some(i)
    ensures var line := (rest + b)[..i]; rest <= line || rest == line + [CR]
  {
    hide FindCrlf;
    var data := rest + b;
    assert forall j | 0 <= j && j + 1 < |rest| :: CrlfAt(data, j) <==> CrlfAt(rest, j);
    assert CrlfAt(data, i) && |rest| <= i + 1;
    if i < |rest| {
      assert rest == data[..i] + [CR];
    } else {
      assert data[..i][..|rest|] == rest;
    }
  }

  lemma FirstLineHarmful(front: Text, rest: Text) returns (b: Text)
    requires rest != [] && FindCrlf(rest).None? && LineParser(front + rest).Valid()
    requires Absorbed(front, rest) && !Settled(rest)
    ensures b != [] && Shown(ParseLoop(LineParser(front + rest), rest + b, [], false)) != Shown(FreshPass(rest + b))
  {
    hide Run, ParseLoop, FindCrlf, RequestLine, Settled;
    var t := UnsettledDiffers(rest);
    b := t + (CRLF + CRLF);
    var line := rest + t;
    assert AlikeLines(front + (rest + line), rest + line);
    Assoc(front, rest, line);
    Assoc(rest, t, CRLF + CRLF);
    NoCrlfAppended(rest, t);
    FirstLineAlone(front + rest, line);
    FirstLineAlone([], line);
    Units(line);
    FirstShown(LineParser(front + rest), rest + b);
    FirstShown(NEW_PARSER, rest + b);
    AlikeByRequest(front + rest + line, line);
  }

  lemma NoCrlfAppended(rest: Text, t: Text)
    requires FindCrlf(rest).None? && CR !in t && LF !in t
    ensures !HasCrlf(rest + t)
  {
    var s := rest + t;
    assert forall j | |rest| <= j < |s| :: s[j] == t[j - |rest|] && t[j - |rest|] in t;
    assert forall j | 0 <= j && j + 1 < |rest| :: CrlfAt(s, j) <==> CrlfAt(rest, j);
  }

  /** What is left of a request when it is compared: the parts of its request line. */
  lemma AlikeByRequest(a: Text, b: Text)
    ensures var (x, r) := RequestLine(NEW_REQUEST, a); var (y, s) := RequestLine(NEW_REQUEST, b);
      x && y && r.method_ == s.method_ && r.path == s.path && r.version == s.version ==> r == s
  {
    hide Words, RequestLine;
    LineByWords(a);
    LineByWords(b);
  }

  /** A request of nothing but a request line. */
  lemma FirstLineAlone(pending: Text, line: Text)
    requires !HasCrlf(line)
    ensures var r := Run(LineParser(pending), line + (CRLF + CRLF));
      var (ok, req) := RequestLine(NEW_REQUEST, pending + line);
      && r.hasError == !ok && r.isComplete == ok
      && (ok ==> r.parser.req.method_ == req.method_ && r.parser.req.path == req.path)
      && (ok ==> r.parser.req.version == req.version)
  {
    hide Run, OnLine, FindCrlf, RequestLine, CheckHeaders;
    var data := line + (CRLF + CRLF);
    Assoc(line, CRLF, CRLF);
    FindCrlfAt(line, CRLF);
    RunAtCrlf(LineParser(pending), data, |line|);
    assert data[..|line|] == line && data[|line| + 2..] == CRLF;
    OnFirstLine(pending, pending + line);
    var (ok, req) := RequestLine(NEW_REQUEST, pending + line);
    if ok {
      LineByWords(pending + line);
      EndOfHeaders(req, []);
      EmptyLine(req);
      Units(CRLF);
    } else {
      StaysPut(HeaderParser(req).(phase := Error), CRLF);
    }
  }

  // ---- The cut is inside the headers ----

  ghost predicate GoodRequest(req: Request) {
    req.body == [] && req.contentLength <= MAX_HTTP_BODY_SIZE && req.parserError == []
  }

  /** The empty line, then a body that is long enough: the request is complete. */
  lemma EndOfHeaders(req: Request, body: Text)
    requires GoodRequest(req) && req.contentLength <= |body|
    ensures var r := Run(HeaderParser(req), CRLF + body);
      r.isComplete && !r.hasError && r.parser.req == CheckHeaders(req).(body := body[..req.contentLength])
  {
    hide FindCrlf, Run, CheckHeaders;
    var data := CRLF + body;
    Units(CRLF);
    NoCrlfInNothing();
    FindCrlfAt([], body);
    RunAtCrlf(HeaderParser(req), data, 0);
    assert data[..0] == [] && data[2..] == body && body[..0] == [];
    EmptyLine(req);
    var q := OnLine(HeaderParser(req), []);
    if req.contentLength > 0 {
      WholeBody(q, body);
    } else {
      StaysPut(q, body);
    }
  }

  lemma NoCrlfInNothing()
    ensures !HasCrlf([])
  {
  }

  lemma EmptyLine(req: Request)
    ensures OnLine(HeaderParser(req), [])
         == Parser(if req.contentLength > 0 then ExpectBody else Complete, CheckHeaders(req), [], 0)
    ensures CheckHeaders(req).body == req.body && CheckHeaders(req).contentLength == req.contentLength
    ensures CheckHeaders(req).(body := req.body) == CheckHeaders(req) && CheckHeaders(req).headers == req.headers
    ensures CheckHeaders(req).method_ == req.method_ && CheckHeaders(req).path == req.path
    ensures CheckHeaders(req).version == req.version
  {
  }

  lemma WholeBody(q: Parser, body: Text)
    requires q.phase.ExpectBody? && q.req.body == [] && q.received == 0 && 0 < q.req.contentLength <= |body|
    ensures var r := Run(q, body);
      r.isComplete && !r.hasError && r.parser.req == q.req.(body := body[..q.req.contentLength])
  {
    hide Run;
    RunOnce(q, body);
    Units(body[..q.req.contentLength]);
    var s := Step(q, body);
    StaysPut(s.parser, body[s.used..]);
  }

  lemma PutIsGood(req: Request, f: Header)
    requires GoodRequest(req) && GoodField(f)
    ensures GoodRequest(Put(req, f))
  {
    hide Stoul, ToLower;
    PutShape(req, f);
  }

  lemma {:induction false} PutAllIsGood(req: Request, fs: seq<Header>)
    requires GoodRequest(req) && GoodFields(fs)
    ensures GoodRequest(PutAll(req, fs))
    decreases |fs|
  {
    hide Put, GoodField;
    if fs != [] {
      assert fs[0] in fs && forall h | h in fs[1..] :: h in fs;
      PutIsGood(req, fs[0]);
      PutAllIsGood(Put(req, fs[0]), fs[1..]);
    }
  }

  function NameIn(last: Text): Text
    requires ':' in last
  {
    Trim(last[..Find(last, ':').value])
  }

  /** The name of a field is settled once its colon is there. */
  lemma NameIsSettled(last: Text, more: Text)
    requires ':' in last
    ensures FieldOf(last + more).Some? ==> FieldOf(last + more).value.key == NameIn(last)
    ensures last + more != []
  {
    hide Trim, GoodField, Find;
    var c := Find(last, ':').value;
    SplitAround(last, c);
    Assoc(last[..c] + [':'], last[c + 1..], more);
    FindAt(last[..c], ':', last[c + 1..] + more);
    assert (last + more)[..c] == last[..c];
  }

  /** Every stray field is replaced: by a field that has been read, or by the line under way, whose name is settled. */
  ghost predicate Covered(strays: seq<Header>, fs: seq<Header>, last: Text) {
    forall f | f in strays :: Named(fs, f.key) || (':' in last && f.key == NameIn(last))
  }

  /** The request as the parser has it when stray fields came in before the header lines were read once more. */
  ghost function Strayed(x: Parts, strays: seq<Header>): Request { PutAll(PutAll(x.start, strays), x.fs) }

  lemma PartsAreGood(x: Parts, rest: Text)
    requires x.Of(rest)
    ensures x.start.headers == map[] && GoodFields(x.fs) && FindCrlf(x.last).None? && x.start.parserError == []
  {
    hide FindCrlf;
  }

  lemma RestIsNotEmpty(x: Parts, rest: Text)
    requires x.Of(rest)
    ensures rest != []
  {
  }

  /** Behind the header lines the two parsers differ only in fields the coming line replaces. */
  lemma LineBehind(start: Request, strays: seq<Header>, fs: seq<Header>, last: Text, b: Text)
    requires GoodFields(strays) && GoodFields(fs) && FindCrlf(last).None? && b != [] && Covered(strays, fs, last)
    ensures var p, q := HeaderParser(PutAll(PutAll(start, strays), fs)), HeaderParser(PutAll(start, fs));
      var data := last + b;
      var r, s := Run(p, data), Run(q, data);
      if FindCrlf(data).None? then r == Result(OnPartialLine(p, data), |data|, false, false)
                                   && s == Result(OnPartialLine(q, data), |data|, false, false)
      else r == s || (r.hasError && s.hasError)
  {
    hide Run, FindCrlf, FieldOf, Put, GoodField, PutAll, OnLine, OnPartialLine, Find, Trim, Covered, Named;
    var p, q, data := HeaderParser(PutAll(PutAll(start, strays), fs)), HeaderParser(PutAll(start, fs)), last + b;
    var e := FindCrlf(data);
    if e.None? {
      PartialRun(p, data);
      PartialRun(q, data);
    } else {
      var line := data[..e.value];
      RunAtCrlf(p, data, e.value);
      RunAtCrlf(q, data, e.value);
      Units(line);
      if line == [] {
        NoNameUnderWay(strays, fs, last, b);
        PrefixIsOverwritten(start, strays, fs);
      } else {
        HeaderOnLine(p, line);
        HeaderOnLine(q, line);
        FieldIsGood(line);
        if FieldOf(line).Some? {
          var g := FieldOf(line).value;
          NameComes(strays, fs, last, b, e.value);
          assert forall h | h in fs + [g] :: h in fs || h == g;
          PrefixIsOverwritten(start, strays, fs + [g]);
          PutAllBehind(PutAll(start, strays), fs, g);
          PutAllBehind(start, fs, g);
        }
      }
    }
  }

  lemma {:induction false} PutAllBehind(req: Request, fs: seq<Header>, g: Header)
    ensures PutAll(req, fs + [g]) == Put(PutAll(req, fs), g)
  {
    hide Put;
    PutAllAppend(req, fs, [g]);
    assert PutAll(PutAll(req, fs), [g]) == PutAll(Put(PutAll(req, fs), g), []);
  }

  lemma {:induction false} PutAllAppend(req: Request, fs: seq<Header>, gs: seq<Header>)
    ensures PutAll(req, fs + gs) == PutAll(PutAll(req, fs), gs)
    decreases |fs|
  {
    hide Put;
    if fs == [] {
      assert fs + gs == gs;
    } else {
      assert (fs + gs)[0] == fs[0] && (fs + gs)[1..] == fs[1..] + gs;
      PutAllAppend(Put(req, fs[0]), fs[1..], gs);
    }
  }

  /** The empty line: there was no name under way. */
  lemma NoNameUnderWay(strays: seq<Header>, fs: seq<Header>, last: Text, b: Text)
    requires FindCrlf(last).None? && FindCrlf(last + b) == Some(0) && Covered(strays, fs, last)
    ensures forall f | f in strays :: Named(fs, f.key)
  {
    hide FindCrlf, Named, Find, Trim;
    LineCoversRest(last, b, 0);
    assert last == [] || last == [] + [CR];
  }

  lemma NameComes(strays: seq<Header>, fs: seq<Header>, last: Text, b: Text, i: nat)
    requires FindCrlf(last).None? && FindCrlf(last + b) == Some(i) && Covered(strays, fs, last)
    requires FieldOf((last + b)[..i]).Some?
    ensures var g := FieldOf((last + b)[..i]).value; forall f | f in strays :: Named(fs + [g], f.key)
  {
    hide FindCrlf, FieldOf, Find, Trim;
    var g := FieldOf((last + b)[..i]).value;
    if ':' in last {
      NameOfLine(last, b, i);
    }
    forall f | f in strays ensures Named(fs + [g], f.key) {
      if Named(fs, f.key) {
        var j :| 0 <= j < |fs| && fs[j].key == f.key;
        assert (fs + [g])[j].key == f.key;
      } else {
        assert (fs + [g])[|fs|] == g;
      }
    }
  }

  lemma NameOfLine(last: Text, b: Text, i: nat)
    requires FindCrlf(last).None? && FindCrlf(last + b) == Some(i) && ':' in last
    ensures var line := (last + b)[..i];
      line != [] && (FieldOf(line).Some? ==> FieldOf(line).value.key == NameIn(last))
  {
    hide FindCrlf, FieldOf, Trim, Find;
    LineCoversRest(last, b, i);
    var line := (last + b)[..i];
    if last <= line {
      assert line == last + line[|last|..];
      NameIsSettled(last, line[|last|..]);
    } else {
      ColonBeforeCr(line, last);
      NameIsSettled(line, []);
      Units(line);
    }
  }

  lemma ColonBeforeCr(line: Text, last: Text)
    requires last == line + [CR] && ':' in last
    ensures ':' in line && Find(line, ':') == Find(last, ':')
    ensures last[..Find(last, ':').value] == line[..Find(line, ':').value]
  {
    var c := Find(last, ':').value;
    assert c < |line| && line[c] == ':';
    assert last[..c] == line[..c];
    SplitAround(line, c);
    FindAt(line[..c], ':', line[c + 1..]);
  }

  // ---- A header piece that does harm ----

  /** A long name, so that it is none of the names that have been seen or mean anything. */
  function LongName(n: nat): Text { seq(n + 20, _ => 'x') }

  lemma LongNameIsWord(n: nat)
    ensures IsWord(LongName(n)) && CR !in LongName(n) && LF !in LongName(n) && ':' !in LongName(n)
    ensures |LongName(n)| == n + 20
  {
  }

  /** White space in front goes, the name stays. */
  lemma {:induction false} TrimBefore(last: Text, name: Text)
    requires IsWord(name)
    ensures |Trim(last + name)| >= |name|
    decreases |last|
  {
    hide TrimEnd;
    if last == [] {
      Units(name);
      assert name[0] in name;
      NoTrimEnd(name);
    } else if IsSpace(last[0]) {
      assert (last + name)[1..] == last[1..] + name;
      TrimBefore(last[1..], name);
    } else {
      assert (last + name)[|last + name| - 1] == name[|name| - 1] && name[|name| - 1] in name;
      NoTrimEnd(last + name);
    }
  }

  lemma NoTrimEnd(s: Text)
    requires s != [] && !IsSpace(s[|s| - 1])
    ensures TrimEnd(s) == s
  {
  }

  /** The line made of the piece and the long name is a field that sets nothing but its own entry. */
  lemma LongField(last: Text, n: nat) returns (g: Header)
    requires ':' !in last
    ensures FieldOf(last + LongName(n) + [':']) == Some(g) && GoodField(g) && |g.key| >= n + 20
    ensures forall req: Request :: Put(req, g) == req.(headers := req.headers[g.key := g.value])
  {
    hide Find, Trim, Stoul, ToLower, Put, LongName;
    LongNameIsWord(n);
    var front := last + LongName(n);
    assert ':' !in front;
    FindAt(front, ':', []);
    Units(front + [':']);
    assert (front + [':'])[..|front|] == front && (front + [':'])[|front| + 1..] == [];
    g := Header(Trim(front), Trim([]));
    TrimBefore(last, LongName(n));
    LongIsPlain(g);
  }

  lemma LongIsPlain(g: Header)
    requires |g.key| >= 20
    ensures GoodField(g) && forall req: Request :: Put(req, g) == req.(headers := req.headers[g.key := g.value])
  {
    hide Stoul, ToLower, Put, SlotOf, Fill;
    assert |ToLower(g.key)| == |g.key|;
    PlainSlot(ToLower(g.key));
    forall req: Request ensures Put(req, g) == req.(headers := req.headers[g.key := g.value]) {
      PutShape(req, g);
      PlainFill(req, g.value);
    }
  }

  lemma PlainSlot(name: Text)
    requires |name| >= 20
    ensures SlotOf(name) == Plain && name != "content-length"
  {
    assert |"content-length"| == 14 && |"connection"| == 10 && |"host"| == 4;
    assert |"user-agent"| == 10 && |"content-type"| == 12;
  }

  lemma PlainFill(req: Request, value: Text)
    ensures Fill(req, Plain, value) == req
  {
  }

  /** A header line for each of two parsers, the end of the headers and a body: both complete a request. */
  lemma CompletesHeaders(req: Request, last: Text, g: Header, n: nat, body: Text)
    requires FindCrlf(last).None? && ':' !in last && GoodRequest(req) && GoodField(g)
    requires FieldOf(last + LongName(n) + [':']) == Some(g)
    requires Put(req, g) == req.(headers := req.headers[g.key := g.value]) && req.contentLength <= |body|
    ensures var r := Run(HeaderParser(req), last + (LongName(n) + [':'] + (CRLF + (CRLF + body))));
      r.isComplete && !r.hasError && r.parser.req.headers == req.headers[g.key := g.value]
  {
    hide Run, OnLine, FindCrlf, FieldOf, Put, CheckHeaders, LongName;
    LongNameIsWord(n);
    var name := LongName(n) + [':'];
    var line, back := last + name, CRLF + body;
    NoCrlfAppended(last, name);
    Assoc(last, name, CRLF + back);
    Assoc(line, CRLF, back);
    Assoc(last, LongName(n), [':']);
    FindCrlfAt(line, back);
    var data := line + CRLF + back;
    RunAtCrlf(HeaderParser(req), data, |line|);
    assert data[..|line|] == line && data[|line| + 2..] == back;
    Units(line);
    HeaderOnLine(HeaderParser(req), line);
    PutIsGood(req, g);
    EndOfHeaders(Put(req, g), body);
    EmptyLine(Put(req, g));
  }

  lemma HeadersHarmful(x: Parts, strays: seq<Header>, rest: Text) returns (b: Text)
    requires x.Of(rest) && HeaderParser(Strayed(x, strays)).(pendingLine := x.last).Valid()
    requires GoodFields(strays) && Covered(strays, x.fs, x.last)
    requires var f := FieldOf(x.last + x.line);
      f.Some? ==> f.value.key !in Strayed(x, strays).headers && ':' !in x.last
    ensures b != []
    ensures Shown(ParseLoop(HeaderParser(Strayed(x, strays)).(pendingLine := x.last), rest + b, [], false)) !=
            Shown(FreshPass(rest + b))
  {
    hide Run, ParseLoop, FindCrlf, FieldOf, Put, GoodField, PutAll, Parts.Of, OnPartialLine;
    var p, field := HeaderParser(Strayed(x, strays)).(pendingLine := x.last), FieldOf(x.last + x.line);
    PartsAreGood(x, rest);
    if field.None? {
      b := ['x'];
      FreshParts(x, rest, b);
      AgainParts(x, p.req, rest, b);
      NoCrlfWithX(x.last);
      PartialRun(HeaderParser(x.Req()), x.last + b);
      ParseStep(NEW_PARSER, rest + b, [], false);
      ParseStep(p, rest + b, [], false);
    } else {
      PrefixIsOverwritten(x.start, strays, x.fs);
      FieldIsGood(x.last + x.line);
      b := FieldStays(x, rest, field.value);
    }
  }

  /** A field that nothing replaces reaches the handler. */
  lemma FieldStays(x: Parts, rest: Text, f: Header) returns (b: Text)
    requires x.Of(rest) && HeaderParser(x.Req()).(pendingLine := x.last).Valid()
    requires FieldOf(x.last + x.line) == Some(f) && GoodField(f) && f.key !in x.Req().headers && ':' !in x.last
    ensures b != []
    ensures Shown(ParseLoop(HeaderParser(x.Req()).(pendingLine := x.last), rest + b, [], false)) !=
            Shown(FreshPass(rest + b))
  {
    hide Run, ParseLoop, FindCrlf, FieldOf, Put, GoodField, GoodRequest, PutAll, Parts.Of, LongName, Parts.Req, Shown;
    var p, req := HeaderParser(x.Req()).(pendingLine := x.last), x.Req();
    var again := PutAll(Put(req, f), x.fs);
    PartsAreGood(x, rest);
    StillThere(req, f, x.fs);
    var n := |f.key|;
    var g := LongField(x.last, n);
    var body := seq(req.contentLength + again.contentLength, _ => 'x');
    b := LongName(n) + [':'] + (CRLF + (CRLF + body));
    CompletesHeaders(req, x.last, g, n, body);
    CompletesHeaders(again, x.last, g, n, body);
    FreshParts(x, rest, b);
    AgainParts(x, x.Req(), rest, b);
    assert Run(NEW_PARSER, rest + b).parser.req.headers == req.headers[g.key := g.value];
    assert Run(p, rest + b).parser.req.headers == again.headers[g.key := g.value];
    HeadersShow(p, rest + b, f.key);
  }

  lemma StillThere(req: Request, f: Header, fs: seq<Header>)
    requires HeaderParser(req).Valid() && GoodField(f) && GoodFields(fs)
    ensures GoodRequest(req) && GoodRequest(PutAll(Put(req, f), fs)) && f.key in PutAll(Put(req, f), fs).headers
  {
    hide Put, PutAll, GoodField;
    PutIsGood(req, f);
    PutAllIsGood(Put(req, f), fs);
    PutRecords(req, f);
    NamesRecorded(Put(req, f), fs, f.key);
  }

  /** Two complete requests, one with a field of that name and one without. */
  lemma HeadersShow(p: Parser, data: Text, name: Text)
    requires p.Valid() && data != []
    requires var r, s := Run(p, data), Run(NEW_PARSER, data);
      && r.isComplete && !r.hasError && s.isComplete && !s.hasError
      && name in r.parser.req.headers && name !in s.parser.req.headers
    ensures Shown(ParseLoop(p, data, [], false)) != Shown(FreshPass(data))
  {
    hide Run, ParseLoop;
    FirstShown(p, data);
    FirstShown(NEW_PARSER, data);
  }

  // ---- The cut is inside the body, or behind an overlong piece ----

  lemma BodyHarmful(rest: Text) returns (b: Text)
    requires rest != [] && Run(NEW_PARSER, rest).parser.phase.ExpectBody?
    ensures Run(NEW_PARSER, rest).parser.Valid() && b != []
    ensures Shown(ParseLoop(Run(NEW_PARSER, rest).parser, rest + b, [], false)) != Shown(FreshPass(rest + b))
  {
    hide Run, ParseLoop;
    RunInvariant(NEW_PARSER, rest);
    var p := Run(NEW_PARSER, rest).parser;
    b := seq(p.req.contentLength - p.received, _ => 'x');
    ParseSplit(NEW_PARSER, rest, b);
    BodyRun(p, b);
    BodyRun(p, rest + b);
    FirstShown(p, rest + b);
    FirstShown(NEW_PARSER, rest + b);
    var need := p.req.contentLength - p.received;
    assert |ParseLoop(p, rest + b, [], false).queue[0].raw| == need;
    assert |FreshPass(rest + b).queue[0].raw| == |rest| + need;
  }

  /** A fresh parser gets over an overlong line when its end is there at once, and finds the line behind it. */
  lemma {:induction false} OverlongThenBad(p: Parser, a: Text)
    requires p.Valid() && Overflows(p, a)
    ensures Run(p, a + (CRLF + ([':'] + CRLF))).hasError
    decreases |a|
  {
    hide OnLine, OnBody, FindCrlf, Run, HeaderLine;
    var b := CRLF + ([':'] + CRLF);
    EmptyRun(p);
    if p.phase.Line() && FindCrlf(a).None? {
      OverlongLine(p, a);
    } else {
      if p.phase.ExpectBody? {
        BodyNeverOverflows(p, a);
      }
      EmptyRun(p);
      RunOnce(p, a);
      RunOnce(p, a + b);
      var s := Step(p, a);
      StepWithin(p, a, b);
      IfFinal(s.parser, a[s.used..]);
      OverlongThenBad(s.parser, a[s.used..]);
    }
  }

  lemma IfFinal(p: Parser, data: Text)
    ensures p.phase.Final() ==> Run(p, data) == Result(p, 0, false, false)
  {
  }

  lemma EmptyRun(p: Parser)
    ensures Run(p, []) == Result(p, 0, false, false)
  {
  }

  lemma OverlongLine(p: Parser, a: Text)
    requires p.Valid() && p.phase.Line() && FindCrlf(a).None? && a != []
    ensures Run(p, a + (CRLF + ([':'] + CRLF))).hasError
  {
    hide OnLine, FindCrlf, Run, HeaderLine;
    var back: Text := [':'] + CRLF;
    var data := a + CRLF + back;
    Assoc(a, CRLF, back);
    FindCrlfAt(a, back);
    RunAtCrlf(p, data, |a|);
    assert data[..|a|] == a && data[|a| + 2..] == back;
    NotTheEmptyLine(p, p.pendingLine + a);
    var q := OnLine(p, p.pendingLine + a);
    if !q.phase.Error? {
      ColonAlone();
      assert FindCrlf([':'] + CRLF + []) == Some(1) by {
        FindCrlfAt([':'], []);
      }
      Units(back);
      RunAtCrlf(q, back, 1);
      assert back[..1] == [':'];
      Units([':']);
      HeaderOnLine(q, [':']);
    }
  }

  lemma NotTheEmptyLine(p: Parser, line: Text)
    requires p.Valid() && p.phase.Line() && line != []
    ensures var q := OnLine(p, line);
      q.phase.Error? || (q.phase.ExpectHeader? && q.pendingLine == [] && q.received == 0)
  {
  }

  lemma ColonAlone()
    ensures FieldOf([':']).None? && !HasCrlf([':'])
  {
    var line: Text := [':'];
    assert line[..0] == [];
  }

  /** A parser that has given up, on an overlong piece or because it took the same piece in too often, shows nothing
      any more, where a fresh one finds something to refuse. */
  lemma OverlongHarmful(p: Parser, rest: Text) returns (b: Text)
    requires p.Valid() && p.phase.Error? && rest != []
    requires Overflows(NEW_PARSER, rest) || FindCrlf(rest).None?
    ensures b != [] && Shown(ParseLoop(p, rest + b, [], false)) != Shown(FreshPass(rest + b))
  {
    hide Run, ParseLoop, FindCrlf;
    b := CRLF + ([':'] + CRLF);
    if FindCrlf(rest).None? {
      OverlongLine(NEW_PARSER, rest);
    } else {
      OverlongThenBad(NEW_PARSER, rest);
    }
    ParseStep(NEW_PARSER, rest + b, [], false);
    ParseStep(p, rest + b, [], false);
    StaysPut(p, rest + b);
  }
}
