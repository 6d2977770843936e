/** HTTP requests that come in any number of reads, each of which feeds the parser the unfinished bytes again: exactly
    which cuts can be seen in what is dispatched, and what is dispatched when none can. */
module HttpManyReads {
  import opened Config
  import opened Bytes
  import opened HttpText
  import opened HttpParsing
  import opened HttpWords
  import opened HttpFragmentation
  import opened HttpPrinting
  import opened HttpPipeline
  import opened HttpReread
  import opened HttpSecondRead

  // ---- Harmless cuts ----

  /** The unfinished piece and the request line, read together as one header line, are an acceptable field, and its
      name has occurred already or is settled by the piece. */
  predicate FieldIsReplaced(p: Parser, rest: Text) {
    && FindCrlf(rest).Some?
    && var f := FieldOf(p.pendingLine + rest[..FindCrlf(rest).value]);
    f.Some? && (f.value.key in p.req.headers || ':' in p.pendingLine)
  }

  /** What a caller can check before the next read: nothing is unfinished; or the request line is cut where the
      piece already settles how it reads, or holds nothing yet; or the headers are cut where the field that the
      next reading makes of the piece and the request line is replaced by a real one. */
  predicate Harmless(p: Pass) {
    var rest := p.buffered;
    || rest == []
    || (p.parser.phase.ExpectRequestLine? && Settled(rest))
    || (p.parser.phase.ExpectHeader? && FieldIsReplaced(p.parser, rest))
  }

  /** The ordinary harmless cut: inside the value of a header with a name, other than the length of the body. */
  lemma InsideValueIsHarmless(p: Pass)
    requires p.parser.phase.ExpectHeader? && FindCrlf(p.buffered).Some? && ':' in p.parser.pendingLine
    requires var name := NameIn(p.parser.pendingLine); name != [] && !SameName(name, "content-length")
    ensures Harmless(p)
  {
    hide FindCrlf, Find, Trim, ToLower, Stoul, SameName;
    MatchesNames(NameIn(p.parser.pendingLine), []);
    var last, line := p.parser.pendingLine, p.buffered[..FindCrlf(p.buffered).value];
    var c := Find(last, ':').value;
    SplitAround(last, c);
    Assoc(last[..c] + [':'], last[c + 1..], line);
    FindAt(last[..c], ':', last[c + 1..] + line);
    assert (last + line)[..c] == last[..c];
  }

  // ---- A parser that is as good as a fresh one ----

  ghost predicate LineTwin(q: Parser, rest: Text) {
    && rest != [] && FindCrlf(rest).None?
    && exists front: Text :: q == LineParser(front + rest) && Absorbed(front, rest)
  }

  ghost predicate StrayTwin(q: Parser, rest: Text, x: Parts, strays: seq<Header>) {
    && x.Of(rest) && GoodFields(strays) && Covered(strays, x.fs, x.last)
    && q == HeaderParser(Strayed(x, strays)).(pendingLine := x.last)
  }

  ghost predicate HeadTwin(q: Parser, rest: Text) {
    exists x: Parts, strays: seq<Header> :: StrayTwin(q, rest, x, strays)
  }

  /** The parser has taken in the unfinished bytes `rest`, some of them more than once, and differs from one that has
      taken them in once only in what has no effect or is still to be replaced. */
  ghost predicate Twin(q: Parser, rest: Text) {
    var n := Run(NEW_PARSER, rest);
    && q.Valid() && !n.hasError && !n.isComplete
    && (rest == [] ==> q == NEW_PARSER)
    && match q.phase
       case ExpectRequestLine => rest == [] || LineTwin(q, rest)
       case ExpectHeader => HeadTwin(q, rest)
       case ExpectBody => q == n.parser
       case Error => Overflows(NEW_PARSER, rest) || FindCrlf(rest).None?
       case Complete => false
  }

  lemma FreshIsTwin(rest: Text)
    requires var n := Run(NEW_PARSER, rest); !n.hasError && !n.isComplete
    ensures Twin(Run(NEW_PARSER, rest).parser, rest)
  {
    hide Run, FindCrlf, Absorbed, Parts.Of, Covered, OnPartialLine;
    RunInvariant(NEW_PARSER, rest);
    CompleteOrNot(rest);
    var q := Run(NEW_PARSER, rest).parser;
    if rest != [] && q.phase.ExpectRequestLine? {
      NoneInFirstLine(rest);
      PartialRun(NEW_PARSER, rest);
      FreshLine(rest);
      NothingAbsorbed(rest);
    } else if q.phase.ExpectHeader? {
      var x := PartsOf(rest);
      NoStrays(x);
      assert StrayTwin(q, rest, x, []);
    }
  }

  lemma FreshLine(rest: Text)
    requires OnPartialLine(NEW_PARSER, rest).phase.ExpectRequestLine?
    ensures OnPartialLine(NEW_PARSER, rest) == LineParser([] + rest)
  {
  }

  lemma NoStrays(x: Parts)
    ensures Strayed(x, []) == x.Req() && Covered([], x.fs, x.last)
  {
  }

  ghost predicate Unfinished(r: Result) { !r.hasError && !r.isComplete }

  /** Two calls of which nothing can be told apart so far. */
  ghost predicate Similar(r: Result, s: Result) {
    r == s || (r.hasError && s.hasError) || (Unfinished(r) && Unfinished(s))
  }

  /** The next read after a harmless cut. */
  lemma TwinGoesOn(q: Parser, rest: Text, b: Text)
    requires Twin(q, rest) && Harmless(Pass(q, rest, [], false, Alive)) && b != []
    ensures var r, s := Run(q, rest + b), Run(NEW_PARSER, rest + b);
      Similar(r, s) && (Unfinished(r) ==> Twin(r.parser, rest + b))
  {
    hide Run, LineTwin, HeadTwin, FieldIsReplaced, Settled, Twin;
    RunInvariant(q, rest + b) by { TwinIsValid(q, rest); }
    TwinIsValid(q, rest);
    if rest == [] {
      if Unfinished(Run(NEW_PARSER, rest + b)) {
        FreshIsTwin(rest + b);
      }
    } else if q.phase.ExpectRequestLine? {
      LineGoesOn(q, rest, b);
    } else {
      HeadGoesOn(q, rest, b);
    }
  }

  lemma TwinIsValid(q: Parser, rest: Text)
    requires Twin(q, rest)
    ensures q.Valid() && Unfinished(Run(NEW_PARSER, rest)) && (rest == [] ==> q == NEW_PARSER)
    ensures rest != [] && q.phase.ExpectRequestLine? ==> LineTwin(q, rest)
    ensures q.phase.ExpectHeader? ==> HeadTwin(q, rest)
  {
    hide Run, LineTwin, HeadTwin, FindCrlf;
  }

  lemma LineGoesOn(q: Parser, rest: Text, b: Text)
    requires q.Valid() && LineTwin(q, rest) && Settled(rest) && b != []
    ensures var r, s := Run(q, rest + b), Run(NEW_PARSER, rest + b);
      Similar(r, s) && (Unfinished(r) ==> Twin(r.parser, rest + b))
  {
    hide Run, FindCrlf, Absorbed, Settled, Twin, OnPartialLine;
    var front: Text :| q == LineParser(front + rest) && Absorbed(front, rest);
    var r, data := Run(q, rest + b), rest + b;
    RunInvariant(q, data);
    FirstLineHarmless(front, rest, b);
    if FindCrlf(data).None? {
      SettledIsAbsorbed(front, rest, b);
      StillInLine(front + rest, data);
    } else if Unfinished(r) {
      FreshIsTwin(data);
    }
  }

  lemma StillInLine(front: Text, data: Text)
    requires data != [] && FindCrlf(data).None? && Absorbed(front, data) && LineParser(front).Valid()
    requires Unfinished(Run(NEW_PARSER, data))
    ensures Twin(OnPartialLine(LineParser(front), data), data)
  {
    hide Run, FindCrlf, Absorbed;
    assert front + data != [];
  }

  lemma HeadGoesOn(q: Parser, rest: Text, b: Text)
    requires q.Valid() && HeadTwin(q, rest) && FieldIsReplaced(q, rest) && b != []
    ensures var r, s := Run(q, rest + b), Run(NEW_PARSER, rest + b);
      Similar(r, s) && (Unfinished(r) ==> Twin(r.parser, rest + b))
  {
    hide Run, FindCrlf, Twin, OnPartialLine, FieldOf, Covered, Put, PutAll, GoodField, Parts.Of;
    var x: Parts, strays: seq<Header> :| StrayTwin(q, rest, x, strays);
    var f := FirstLineAsField(q, x, rest);
    var more := strays + (x.fs + [f]);
    RunInvariant(q, rest + b);
    FreshParts(x, rest, b);
    AgainParts(x, q.req, rest, b);
    PartsAreGood(x, rest);
    OneMoreStray(x, strays, f);
    StrayIsCovered(x, strays, f);
    LineBehind(x.start, more, x.fs, x.last, b);
    if FindCrlf(x.last + b).None? {
      StillInHead(x, more, rest, b);
    } else if Unfinished(Run(q, rest + b)) {
      FreshIsTwin(rest + b);
    }
  }

  lemma FirstLineAsField(q: Parser, x: Parts, rest: Text) returns (f: Header)
    requires x.Of(rest) && q.pendingLine == x.last && FieldIsReplaced(q, rest)
    ensures FieldOf(x.last + x.line) == Some(f) && GoodField(f)
    ensures f.key in q.req.headers || ':' in x.last
    ensures ':' in x.last ==> f.key == NameIn(x.last)
  {
    hide FindCrlf, FieldOf, NameIn;
    assert rest[..|x.line|] == x.line;
    f := FieldOf(x.last + x.line).value;
    FieldIsGood(x.last + x.line);
    if ':' in x.last {
      NameIsSettled(x.last, x.line);
    }
  }

  /** What the parser has then taken in are the header lines, once, behind one stray more. */
  lemma OneMoreStray(x: Parts, strays: seq<Header>, f: Header)
    ensures PutAll(Put(Strayed(x, strays), f), x.fs) == Strayed(x, strays + (x.fs + [f]))
  {
    hide Put, PutAll;
    PutAllAppend(x.start, strays, x.fs + [f]);
    PutAllBehind(PutAll(x.start, strays), x.fs, f);
  }

  lemma StrayIsCovered(x: Parts, strays: seq<Header>, f: Header)
    requires x.start.headers == map[] && GoodFields(strays) && GoodFields(x.fs) && GoodField(f)
    requires Covered(strays, x.fs, x.last)
    requires f.key in Strayed(x, strays).headers || ':' in x.last
    requires ':' in x.last ==> f.key == NameIn(x.last)
    ensures Covered(strays + (x.fs + [f]), x.fs, x.last) && GoodFields(strays + (x.fs + [f]))
  {
    hide PutAll, NameIn, GoodField;
    var more := strays + (x.fs + [f]);
    NamesRecorded(x.start, strays, f.key);
    NamesRecorded(PutAll(x.start, strays), x.fs, f.key);
    forall g | g in more
      ensures Named(x.fs, g.key) || (':' in x.last && g.key == NameIn(x.last))
      ensures GoodField(g)
    {
      if g in x.fs {
        var i :| 0 <= i < |x.fs| && x.fs[i] == g;
        assert x.fs[i].key == g.key;
      } else if g !in strays && Named(strays, f.key) {
        var i :| 0 <= i < |strays| && strays[i].key == f.key;
        assert strays[i] in strays;
      }
    }
  }

  lemma StillInHead(x: Parts, strays: seq<Header>, rest: Text, b: Text)
    requires x.Of(rest) && GoodFields(strays) && Covered(strays, x.fs, x.last)
    requires FindCrlf(x.last + b).None? && b != []
    requires Run(NEW_PARSER, rest + b).parser == OnPartialLine(HeaderParser(x.Req()), x.last + b)
    requires Unfinished(Run(NEW_PARSER, rest + b))
    requires OnPartialLine(HeaderParser(Strayed(x, strays)), x.last + b).Valid()
    ensures Twin(OnPartialLine(HeaderParser(Strayed(x, strays)), x.last + b), rest + b)
  {
    hide Run, FindCrlf, PutAll, Covered, GoodField, IsBlock, OnLine;
    var y := x.(last := x.last + b);
    var q := OnPartialLine(HeaderParser(Strayed(x, strays)), x.last + b);
    FindCrlfWithin(rest, b);
    Assoc(x.line + CRLF, x.block + x.last, b);
    Assoc(x.block, x.last, b);
    assert y.Of(rest + b);
    StillCovered(strays, x.fs, x.last, b);
    if q.phase.ExpectHeader? {
      assert StrayTwin(q, rest + b, y, strays);
    }
  }

  lemma StillCovered(strays: seq<Header>, fs: seq<Header>, last: Text, b: Text)
    requires Covered(strays, fs, last)
    ensures Covered(strays, fs, last + b)
  {
    hide Named, Trim, Find;
    if ':' in last {
      var c := Find(last, ':').value;
      SplitAround(last, c);
      Assoc(last[..c] + [':'], last[c + 1..], b);
      FindAt(last[..c], ':', last[c + 1..] + b);
      assert (last + b)[..c] == last[..c];
    }
  }

  // ---- One read ----

  /** A read behind a harmless cut shows what a fresh pass over the unfinished bytes and the new ones would, and
      leaves a parser that is as good as fresh. */
  lemma TwinPass(p: Pass, b: Text)
    requires p.outcome.Alive? && Twin(p.parser, p.buffered) && Harmless(p) && b != []
    ensures p.parser.Valid()
    ensures var n := NextPass(p, b);
      Shown(n) == Shown(FreshPass(p.buffered + b)) && (n.outcome.Alive? ==> Twin(n.parser, n.buffered))
  {
    hide Run, ParseLoop, Twin, Harmless, Shown;
    var q, data := p.parser, p.buffered + b;
    TwinIsValid(q, p.buffered);
    SameCut(p);
    TwinGoesOn(q, p.buffered, b);
    SameShown(q, NEW_PARSER, data);
    ParseStep(q, data, [], false);
    var r := Run(q, data);
    if !r.hasError && r.isComplete {
      SameRunSamePass(q, NEW_PARSER, data);
      if FreshPass(data).outcome.Alive? {
        WholePass(data, []);
        FreshIsTwin(FreshPass(data).buffered);
      }
    }
  }

  lemma SameCut(p: Pass)
    ensures Harmless(Pass(p.parser, p.buffered, [], false, Alive)) == Harmless(p)
  {
    hide FieldIsReplaced, Settled;
  }

  /** A cut that is not harmless is seen by some next read. */
  lemma TwinTells(p: Pass) returns (b: Text)
    requires p.outcome.Alive? && Twin(p.parser, p.buffered) && !Harmless(p)
    ensures p.parser.Valid() && b != []
    ensures Shown(NextPass(p, b)) != Shown(FreshPass(p.buffered + b))
  {
    hide Run, ParseLoop, FindCrlf, Shown, Settled, Absorbed, FieldOf, PutAll, Covered, Parts.Of;
    var q, rest := p.parser, p.buffered;
    if q.phase.ExpectRequestLine? {
      var front: Text :| q == LineParser(front + rest) && Absorbed(front, rest);
      b := FirstLineHarmful(front, rest);
    } else if q.phase.ExpectHeader? {
      var x: Parts, strays: seq<Header> :| StrayTwin(q, rest, x, strays);
      LineOfParts(x, rest);
      b := HeadersHarmful(x, strays, rest);
    } else if q.phase.ExpectBody? {
      b := BodyHarmful(rest);
    } else {
      b := OverlongHarmful(q, rest);
    }
  }

  lemma LineOfParts(x: Parts, rest: Text)
    requires x.Of(rest)
    ensures FindCrlf(rest) == Some(|x.line|) && |x.line| <= |rest| && rest[..|x.line|] == x.line
  {
    hide FindCrlf;
  }

  // ---- Any number of reads ----

  /** Before the first read. */
  const START := Pass(NEW_PARSER, [], [], false, Alive)

  lemma StartIsTwin()
    ensures START.parser.Valid() && Twin(START.parser, START.buffered) && Harmless(START)
  {
    hide Run;
    CompleteOrNot([]);
    FreshIsTwin([]);
  }

  /** The pass of the last read. */
  function Reads(p: Pass, chunks: seq<Text>): (last: Pass)
    requires p.parser.Valid()
    ensures last.parser.Valid()
    decreases |chunks|
  {
    if chunks == [] then p else Reads(NextPass(p, chunks[0]), chunks[1..])
  }

  /** Everything dispatched on the way. */
  function Dispatches(p: Pass, chunks: seq<Text>): seq<Pending>
    requires p.parser.Valid()
    decreases |chunks|
  {
    if chunks == [] then []
    else
      var n := NextPass(p, chunks[0]);
      n.Dispatched() + Dispatches(n, chunks[1..])
  }

  /** No read is empty, and each one but the last leaves the connection alive with a harmless cut. */
  predicate Undisturbed(p: Pass, chunks: seq<Text>)
    requires p.parser.Valid()
    decreases |chunks|
  {
    chunks == []
    || (p.outcome.Alive? && Harmless(p) && chunks[0] != [] && Undisturbed(NextPass(p, chunks[0]), chunks[1..]))
  }

  lemma {:induction false} ReadsStayTwins(p: Pass, chunks: seq<Text>)
    requires p.parser.Valid() && (p.outcome.Alive? ==> Twin(p.parser, p.buffered)) && Undisturbed(p, chunks)
    ensures var last := Reads(p, chunks); last.outcome.Alive? ==> Twin(last.parser, last.buffered)
    decreases |chunks|
  {
    hide Twin, Harmless, NextPass, Shown;
    if chunks != [] {
      TwinPass(p, chunks[0]);
      ReadsStayTwins(NextPass(p, chunks[0]), chunks[1..]);
    }
  }

  /** After any number of reads with harmless cuts between them: whatever the next read brings, the same requests are
      queued, the pass ends the same way and the same bytes are kept as if the unfinished bytes had been read once,
      if and only if this cut is harmless too. Inside the body and behind an overlong piece it never is. */
  lemma NextReadExact(chunks: seq<Text>)
    requires Undisturbed(START, chunks) && Reads(START, chunks).outcome.Alive?
    ensures var p := Reads(START, chunks);
      (forall b: Text | b != [] :: Shown(NextPass(p, b)) == Shown(FreshPass(p.buffered + b))) <==> Harmless(p)
  {
    hide Twin, Harmless, NextPass, Shown, Reads, Undisturbed, FreshPass;
    StartIsTwin();
    ReadsStayTwins(START, chunks);
    var p := Reads(START, chunks);
    if Harmless(p) {
      forall b: Text | b != [] ensures Shown(NextPass(p, b)) == Shown(FreshPass(p.buffered + b)) {
        TwinPass(p, b);
      }
    } else {
      var b := TwinTells(p);
    }
  }

  /** The same for the read behind the first. */
  lemma SecondReadExact(a: Text)
    requires FreshPass(a).outcome.Alive?
    ensures var p := FreshPass(a);
      (forall b: Text | b != [] :: Shown(NextPass(p, b)) == Shown(FreshPass(p.buffered + b))) <==> Harmless(p)
  {
    hide ParseLoop, Harmless, Shown, Run;
    if a == [] {
      EmptyPass();
      NextReadExact([]);
    } else {
      StartIsTwin();
      Units(a);
      OneRead(a);
      NextReadExact([a]);
    }
  }

  lemma OneRead(a: Text)
    requires a != [] && FreshPass(a).outcome.Alive?
    ensures Undisturbed(START, [a]) && Reads(START, [a]) == FreshPass(a)
  {
    hide ParseLoop, Harmless;
    StartIsTwin();
    Units(a);
    var n := NextPass(START, a);
    assert [a][1..] == [] && [a][0] == a;
    assert Undisturbed(n, []) && Reads(n, []) == n;
  }

  lemma EmptyPass()
    ensures FreshPass([]) == START
  {
  }

  // ---- What is dispatched over all reads ----

  /** What is dispatched while no cut does harm are the complete requests of the stream, one after the other, and the
      unfinished rest is in the buffer. */
  lemma {:induction false} ReadsTile(p: Pass, chunks: seq<Text>)
    requires p.parser.Valid() && p.outcome.Alive? && Twin(p.parser, p.buffered)
    requires Undisturbed(p, chunks) && Reads(p, chunks).outcome.Alive?
    ensures var items, last := Dispatches(p, chunks), Reads(p, chunks);
      Tiles(items) && p.buffered + Concat(chunks) == RawText(items) + last.buffered
    decreases |chunks|
  {
    hide Twin, Harmless, NextPass, FreshPass, IsTile;
    if chunks == [] {
      Units(p.buffered);
      assert RawText([]) == [];
    } else {
      var n := NextPass(p, chunks[0]);
      TwinPass(p, chunks[0]);
      StayedAlive(n, chunks[1..]);
      WholePass(p.buffered + chunks[0], []);
      ReadsTile(n, chunks[1..]);
      var more := Dispatches(n, chunks[1..]);
      TilesAppend(n.queue, more);
      RawTextAppend(n.queue, more);
      Assoc(p.buffered, chunks[0], Concat(chunks[1..]));
      Assoc(RawText(n.queue), n.buffered, Concat(chunks[1..]));
      Assoc(RawText(n.queue), RawText(more), Reads(p, chunks).buffered);
    }
  }

  lemma StayedAlive(p: Pass, chunks: seq<Text>)
    requires p.parser.Valid() && Undisturbed(p, chunks) && Reads(p, chunks).outcome.Alive?
    ensures p.outcome.Alive?
  {
    hide Harmless, NextPass;
  }

  lemma DispatchedTile(chunks: seq<Text>)
    requires Undisturbed(START, chunks) && Reads(START, chunks).outcome.Alive?
    ensures var items, last := Dispatches(START, chunks), Reads(START, chunks);
      && Tiles(items) && Concat(chunks) == RawText(items) + last.buffered
      && Unfinished(Run(NEW_PARSER, last.buffered))
  {
    hide Twin, Harmless, NextPass, IsTile, Run, Undisturbed, Reads, Dispatches;
    StartIsTwin();
    ReadsTile(START, chunks);
    ReadsStayTwins(START, chunks);
    TwinIsValid(Reads(START, chunks).parser, Reads(START, chunks).buffered);
    Units(Concat(chunks));
  }

  /** There is one way only to take complete requests off a stream until an unfinished rest is left. */
  lemma {:induction false} SplitIsUnique(xs: seq<Pending>, r: Text, ys: seq<Pending>, t: Text)
    requires Tiles(xs) && Tiles(ys) && RawText(xs) + r == RawText(ys) + t
    requires Unfinished(Run(NEW_PARSER, r)) && Unfinished(Run(NEW_PARSER, t))
    ensures xs == ys && r == t
    decreases |xs|
  {
    hide Run, IsTile;
    Units(r);
    Units(t);
    if xs != [] {
      HeadCompletes(xs, r);
    }
    if ys != [] {
      HeadCompletes(ys, t);
    }
    if xs != [] && ys != [] {
      SameHead(xs, r, ys, t);
      Assoc(xs[0].raw, RawText(xs[1..]), r);
      Assoc(ys[0].raw, RawText(ys[1..]), t);
      SameTail(xs[0].raw, RawText(xs[1..]) + r, RawText(ys[1..]) + t);
      SplitIsUnique(xs[1..], r, ys[1..], t);
      assert xs == [xs[0]] + xs[1..] && ys == [ys[0]] + ys[1..];
    }
  }

  lemma SameTail(a: Text, b: Text, c: Text)
    requires a + b == a + c
    ensures b == c
  {
    assert (a + b)[|a|..] == b && (a + c)[|a|..] == c;
  }

  lemma HeadCompletes(xs: seq<Pending>, r: Text)
    requires Tiles(xs) && xs != []
    ensures var s := Run(NEW_PARSER, RawText(xs) + r); s.isComplete && s.used == |xs[0].raw|
  {
    hide Run;
    assert xs[0] in xs;
    CompleteHasNoError(NEW_PARSER, xs[0].raw);
    assert xs[0].raw[..|xs[0].raw|] == xs[0].raw;
    Assoc(xs[0].raw, RawText(xs[1..]), r);
    PrefixThenAnything(NEW_PARSER, xs[0].raw, RawText(xs[1..]) + r);
  }

  lemma SameHead(xs: seq<Pending>, r: Text, ys: seq<Pending>, t: Text)
    requires Tiles(xs) && Tiles(ys) && xs != [] && ys != [] && RawText(xs) + r == RawText(ys) + t
    ensures xs[0] == ys[0]
  {
    hide Run;
    HeadCompletes(xs, r);
    HeadCompletes(ys, t);
    var s, n := RawText(xs) + r, |xs[0].raw|;
    assert s[..n] == xs[0].raw && s[..n] == ys[0].raw;
    assert xs[0] in xs && ys[0] in ys;
  }

  /** Fragmented arrival, over whole connections: however a stream is cut, as long as every cut is harmless the same
      requests are dispatched in the same order and the same bytes are left. */
  lemma HarmlessCutsDoNotMatter(one: seq<Text>, other: seq<Text>)
    requires Concat(one) == Concat(other)
    requires Undisturbed(START, one) && Reads(START, one).outcome.Alive?
    requires Undisturbed(START, other) && Reads(START, other).outcome.Alive?
    ensures Dispatches(START, one) == Dispatches(START, other)
    ensures Reads(START, one).buffered == Reads(START, other).buffered
  {
    hide Undisturbed, Reads, Dispatches, Tiles, RawText, Unfinished;
    DispatchedTile(one);
    DispatchedTile(other);
    SplitIsUnique(Dispatches(START, one), Reads(START, one).buffered,
                  Dispatches(START, other), Reads(START, other).buffered);
  }

  /** In particular many reads dispatch what one read of everything does, up to the limit of 100 for one read. */
  lemma ManyReadsAreOne(chunks: seq<Text>)
    requires Undisturbed(START, chunks) && Reads(START, chunks).outcome.Alive?
    requires |Dispatches(START, chunks)| <= MAX_HTTP_PIPELINE
    ensures var p := FreshPass(Concat(chunks));
      p.Dispatched() == Dispatches(START, chunks) && p.buffered == Reads(START, chunks).buffered && p.outcome.Alive?
  {
    hide Undisturbed, Reads, Dispatches, Tiles, RawText, Run;
    DispatchedTile(chunks);
    PassIsGreedySplit(Dispatches(START, chunks), Reads(START, chunks).buffered);
  }

  // ---- A cut in the body ----

  /** What the first read of a message leaves when it ends `k` bytes into the body. */
  function InBody(m: Message, k: nat): Parser
    requires k <= |m.body|
  {
    Parser(ExpectBody, m.Parsed().(body := m.body[..k]), [], k)
  }

  lemma FirstReadInBody(m: Message, k: nat)
    requires m.WellFormed() && k < |m.body|
    ensures var a := m.Head() + m.body[..k]; FreshPass(a) == Pass(InBody(m, k), a, [], false, Alive)
    ensures InBody(m, k).Valid()
  {
    hide Run, ParseLoop, Message.Head, Message.Parsed;
    var a, piece := m.Head() + m.body[..k], m.body[..k];
    HeadRead(m, piece);
    ParsedBody(m);
    RunInvariant(NEW_PARSER, a);
    PieceOfBody(m, k);
    HeadIsNotEmpty(m);
    ParseStep(NEW_PARSER, a, [], false);
  }

  lemma HeadIsNotEmpty(m: Message)
    ensures |m.Head()| > 0
  {
  }

  lemma PieceOfBody(m: Message, k: nat)
    requires k < |m.body|
    ensures Run(AtBody(m), m.body[..k]) == Result(InBody(m, k), k, false, false)
  {
    hide Message.Parsed;
    ParsedBody(m);
    var piece := m.body[..k];
    Units(piece);
    if k > 0 {
      assert piece[..k] == piece && piece[k..] == [];
      assert Step(AtBody(m), piece) == Result(InBody(m, k), k, false, false);
    }
  }

  /** The second read fills the body up with the head of the request itself. */
  lemma BodyFilledUp(m: Message, k: nat, data: Text)
    requires k < |m.body| <= |data| + k
    ensures var n := |m.body| - k;
      Run(InBody(m, k), data)
      == Result(Parser(Complete, m.Parsed().(body := m.body[..k] + data[..n]), [], |m.body|), n, false, true)
  {
    hide Message.Parsed;
    ParsedBody(m);
    var n := |m.body| - k;
    RunOnce(InBody(m, k), data);
    var s := Step(InBody(m, k), data);
    StaysPut(s.parser, data[n..]);
  }

  /** Fragmented arrival fails for every request with a body, wherever in the body the first read ends: one read of
      everything dispatches the request; from two reads the first thing queued has the start of the request itself
      where the rest of its body should be, and the request is not dispatched as it was sent. */
  lemma CutInBodyFails(m: Message, k: nat)
    requires m.WellFormed() && k < |m.body|
    ensures FreshPass(m.Print()).Dispatched() == Printed([m])
    ensures var first := FreshPass(m.Head() + m.body[..k]);
      && first.outcome.Alive? && first.parser.Valid() && !Harmless(first)
      && var second, n := NextPass(first, m.body[k..]), |m.body| - k;
      && n <= |m.Print()| && second.queue != []
      && second.queue[0] == Pending(m.Parsed().(body := m.body[..k] + m.Print()[..n], parseSuccess := true),
                                    m.Print()[..n])
      && second.Dispatched() != Printed([m])
  {
    hide Run, ParseLoop, Message.Head, Message.Print, Message.Parsed, FreshPass;
    PrintedAlone(m);
    FirstReadInBody(m, k);
    HeadThenBody(m);
    HeadIsNotEmpty(m);
    Assoc(m.Head(), m.body[..k], m.body[k..]);
    assert m.body[..k] + m.body[k..] == m.body;
    var data, n := m.Print(), |m.body| - k;
    BodyFilledUp(m, k, data);
    FirstShown(InBody(m, k), data);
    assert Printed([m])[0].raw == data;
    assert |data[..n]| < |data|;
  }
}
