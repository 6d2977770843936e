/** How `HttpParser::parse` behaves when the bytes come in pieces. */
module HttpFragmentation {
  import opened Config
  import opened Bytes
  import opened HttpParsing

  /** The size limit was hit: the one way into Error that leaves `has_error` unset. */
  ghost predicate Overflows(p: Parser, a: Text) {
    !p.phase.Final() && Run(p, a).parser.phase.Error? && !Run(p, a).hasError
  }

  ghost predicate PendingCr(p: Parser, a: Text) {
    Run(p, a).parser.phase.Line() && a != [] && a[|a| - 1] == CR
  }

  /** Nothing is lost at this cut, whatever follows. */
  ghost predicate SafeCut(p: Parser, a: Text) {
    !Overflows(p, a) && !PendingCr(p, a)
  }

  /** Nothing is lost at this cut when `b` follows: the CRLF search is not fooled across it. */
  ghost predicate CleanCut(p: Parser, a: Text, b: Text) {
    !Overflows(p, a) && !(PendingCr(p, a) && b != [] && b[0] == LF)
  }

  lemma FirstCrlf(s: Text, i: nat)
    requires CrlfAt(s, i) && forall j | 0 <= j < i :: !CrlfAt(s, j)
    ensures FindCrlf(s) == Some(i)
  {
  }

  lemma FindCrlfWithin(a: Text, b: Text)
    requires FindCrlf(a).Some?
    ensures FindCrlf(a + b) == FindCrlf(a)
  {
    var i := FindCrlf(a).value;
    assert forall j | 0 <= j <= i :: CrlfAt(a + b, j) <==> CrlfAt(a, j);
    FirstCrlf(a + b, i);
  }

  lemma FindCrlfAcross(a: Text, b: Text)
    requires FindCrlf(a).None?
    requires !(a != [] && a[|a| - 1] == CR && b != [] && b[0] == LF)
    ensures FindCrlf(a + b) == match FindCrlf(b) case None => None case Some(j) => Some(|a| + j)
  {
    hide FindCrlf;
    forall i ensures CrlfAt(a + b, i) <==> |a| <= i && CrlfAt(b, i - |a|) {
      CrlfInConcat(a, b, i);
    }
    var f := FindCrlf(b);
    if f.Some? {
      FirstCrlf(a + b, |a| + f.value);
    }
  }

  lemma CrlfInConcat(a: Text, b: Text, i: int)
    requires !CrlfAt(a, i)
    requires !(a != [] && a[|a| - 1] == CR && b != [] && b[0] == LF)
    ensures CrlfAt(a + b, i) <==> |a| <= i && CrlfAt(b, i - |a|)
  {
  }

  /** A line or a body that ends within `a` is not affected by what follows. */
  lemma StepWithin(p: Parser, a: Text, b: Text)
    requires p.Valid() && a != [] && !p.phase.Final()
    requires p.phase.Line() ==> FindCrlf(a).Some?
    requires p.phase.ExpectBody? ==> p.req.contentLength - p.received <= |a|
    ensures var s := Step(p, a); Step(p, a + b) == s && (a + b)[s.used..] == a[s.used..] + b
  {
    hide OnLine, OnBody, FindCrlf;
    if p.phase.Line() {
      FindCrlfWithin(a, b);
      CutConcat(a, b, FindCrlf(a).value);
    } else {
      CutConcat(a, b, BodyTake(p, a));
    }
    CutConcat(a, b, Step(p, a).used);
  }

  lemma PartialRun(p: Parser, a: Text)
    requires p.phase.Line() && a != [] && FindCrlf(a).None?
    ensures Run(p, a) == Result(OnPartialLine(p, a), |a|, false, false)
  {
    assert a[|a|..] == [];
  }

  lemma RunAtCrlf(p: Parser, data: Text, i: nat)
    requires p.phase.Line() && FindCrlf(data) == Some(i)
    ensures var q := OnLine(p, p.pendingLine + data[..i]);
      Run(p, data) == Result(q, i + 2, q.phase.Error?, q.phase.Complete?).Then(Run(q, data[i + 2..]))
  {
    hide OnLine;
  }

  lemma CutRun(p: Parser, a: Text)
    requires p.phase.Line() && a != [] && FindCrlf(a) == Some(|a| - 2)
    ensures Run(p, a).parser == OnLine(p, p.pendingLine + a[..|a| - 2])
  {
    assert a[|a|..] == [];
  }

  /** Feeding `a` and then `b` is feeding `a + b`: same parser, same request, same number of bytes consumed,
      same flags. In particular a call that completed or failed is not changed by what follows. */
  lemma {:induction false} ParseSplit(p: Parser, a: Text, b: Text)
    requires p.Valid() && CleanCut(p, a, b)
    ensures Run(p, a + b) == Run(p, a).Then(Run(Run(p, a).parser, b))
    decreases |a|
  {
    hide OnLine, OnBody, OnPartialLine, FindCrlf;
    Units(a);
    Units(b);
    if a != [] && b != [] && !p.phase.Final() {
      if p.phase.Line() && FindCrlf(a).None? {
        LastPartialLine(p, a, b);
      } else if p.phase.ExpectBody? && p.req.contentLength - p.received > |a| {
        BodyPieces(p, a, b);
      } else {
        var s := Step(p, a);
        StepWithin(p, a, b);
        ParseSplit(s.parser, a[s.used..], b);
      }
    }
  }

  lemma LastPartialLine(p: Parser, a: Text, b: Text)
    requires p.Valid() && CleanCut(p, a, b) && a != [] && b != []
    requires p.phase.Line() && FindCrlf(a).None?
    ensures Run(p, a + b) == Run(p, a).Then(Run(Run(p, a).parser, b))
  {
    var q := OnPartialLine(p, a);
    PartialRun(p, a);
    FindCrlfAcross(a, b);
    if FindCrlf(b).None? {
      PartialRun(p, a + b);
      PartialRun(q, b);
      Assoc(p.pendingLine, a, b);
    } else {
      LastLineEnds(p, a, b);
    }
  }

  lemma LastLineEnds(p: Parser, a: Text, b: Text)
    requires p.phase.Line() && OnPartialLine(p, a).phase.Line() && a != [] && b != []
    requires FindCrlf(b).Some? && FindCrlf(a + b) == Some(|a| + FindCrlf(b).value)
    ensures Run(p, a + b) == Result(OnPartialLine(p, a), |a|, false, false).Then(Run(OnPartialLine(p, a), b))
  {
    var q := OnPartialLine(p, a);
    hide OnLine, Run, Step, FindCrlf;
    var j := FindCrlf(b).value;
    var line := q.pendingLine + b[..j];
    CutBehind(a, b, j);
    CutBehind(a, b, j + 2);
    Assoc(p.pendingLine, a, b[..j]);
    LineForgetsPending(p, q, line);
    RunAtCrlf(q, b, j);
    RunAtCrlf(p, a + b, |a| + j);
    assert p.pendingLine + (a + b)[..|a| + j] == line;
  }

  lemma LineForgetsPending(p: Parser, q: Parser, line: Text)
    requires p.phase.Line() && q == p.(pendingLine := q.pendingLine)
    ensures OnLine(q, line) == OnLine(p, line)
  {
  }

  lemma BodyPieces(p: Parser, a: Text, b: Text)
    requires p.Valid() && a != [] && b != []
    requires p.phase.ExpectBody? && p.req.contentLength - p.received > |a|
    ensures Run(p, a + b) == Run(p, a).Then(Run(Run(p, a).parser, b))
  {
    hide OnLine, OnPartialLine, FindCrlf, OnBody, Run;
    var q := OnBody(p, a);
    BodyTaken(p, a);
    var y := Step(q, b);
    CutBehind(a, b, y.used);
    BodyTwice(p, a, b[..y.used]);
    assert Step(p, a + b) == Result(y.parser, |a| + y.used, false, y.isComplete);
    RunOnce(p, a + b);
    RunOnce(q, b);
  }

  lemma RunOnce(p: Parser, data: Text)
    requires data != [] && !p.phase.Final()
    ensures var s := Step(p, data); Run(p, data) == s.Then(Run(s.parser, data[s.used..]))
  {
    hide Step;
  }

  lemma BodyTaken(p: Parser, a: Text)
    requires p.Valid() && a != [] && p.phase.ExpectBody? && p.req.contentLength - p.received > |a|
    ensures OnBody(p, a).phase.ExpectBody? && OnBody(p, a).Valid()
    ensures OnBody(p, a).req.contentLength == p.req.contentLength && OnBody(p, a).received == p.received + |a|
    ensures Run(p, a) == Result(OnBody(p, a), |a|, false, false)
  {
    assert a[..|a|] == a && a[|a|..] == [];
  }

  lemma BodyTwice(p: Parser, a: Text, b: Text)
    requires p.req.contentLength - p.received > |a|
    ensures OnBody(OnBody(p, a), b) == OnBody(p, a + b)
  {
    Assoc(p.req.body, a, b);
  }

  /** Exactly which cuts are invisible to every continuation: a caller can tell from the parser's state and
      the last byte fed. */
  lemma SafeCutExact(p: Parser, a: Text)
    requires p.Valid()
    ensures (forall b: Text :: Run(p, a + b) == Run(p, a).Then(Run(Run(p, a).parser, b))) <==> SafeCut(p, a)
  {
    if SafeCut(p, a) {
      forall b: Text ensures Run(p, a + b) == Run(p, a).Then(Run(Run(p, a).parser, b)) {
        ParseSplit(p, a, b);
      }
    } else if Overflows(p, a) {
      OverflowLosesBytes(p, a);
      assert Run(p, a + ['x']) != Run(p, a).Then(Run(Run(p, a).parser, ['x']));
    } else {
      SplitCrlfIsMissed(p, a);
      assert Run(p, a + [LF]) != Run(p, a).Then(Run(Run(p, a).parser, [LF]));
    }
  }

  /** A piece without the end of its line is too much if and only if it makes the line longer than 128 KiB. */
  lemma LineLimitExact(p: Parser, a: Text)
    requires p.Valid() && p.phase.Line() && a != [] && !HasCrlf(a)
    ensures Overflows(p, a) <==> |p.pendingLine| + |a| > 131072
    ensures !Overflows(p, a) ==> Run(p, a).parser == p.(pendingLine := p.pendingLine + a)
  {
    hide FindCrlf, Run;
    PartialRun(p, a);
  }

  /** Cut after an overlong partial line, the next byte is refused; uncut it is consumed. */
  lemma {:induction false} OverflowLosesBytes(p: Parser, a: Text)
    requires p.Valid() && Overflows(p, a)
    ensures Run(p, a).used == |a| && Run(p, a + ['x']).used == |a| + 1
    ensures Run(p, a + ['x']).parser.pendingLine == Run(p, a).parser.pendingLine + ['x']
    ensures Run(p, a + ['x']).parser.phase.Error? && !Run(p, a + ['x']).hasError
    decreases |a|
  {
    hide OnLine, OnBody, FindCrlf;
    if p.phase.Line() && FindCrlf(a).None? {
      FindCrlfAcross(a, ['x']);
      PartialRun(p, a);
      PartialRun(p, a + ['x']);
    } else {
      if p.phase.ExpectBody? {
        BodyNeverOverflows(p, a);
      }
      var s := Step(p, a);
      StepWithin(p, a, ['x']);
      OverflowLosesBytes(s.parser, a[s.used..]);
    }
  }

  lemma BodyNeverOverflows(p: Parser, a: Text)
    requires p.Valid() && p.phase.ExpectBody?
    ensures !Run(p, a).parser.phase.Error? && !Run(p, a).parser.phase.Line()
  {
    if a != [] {
      var s := Step(p, a);
      assert s.parser.phase.ExpectBody? ==> a[s.used..] == [];
    }
  }

  /** Cut between CR and LF the end of the line is not seen. */
  lemma {:induction false} SplitCrlfIsMissed(p: Parser, a: Text)
    requires p.Valid() && PendingCr(p, a)
    ensures Run(p, a + [LF]).parser.pendingLine == []
    ensures Run(Run(p, a).parser, [LF]).parser.pendingLine != []
    decreases |a|
  {
    hide OnLine, OnBody, FindCrlf;
    var whole := a + [LF];
    if p.phase.Line() && FindCrlf(a).None? {
      PartialRun(p, a);
      assert forall i | 0 <= i < |a| - 1 :: CrlfAt(whole, i) <==> CrlfAt(a, i);
      FirstCrlf(whole, |a| - 1);
      CutRun(p, whole);
      PartialRun(Run(p, a).parser, [LF]);
    } else {
      if p.phase.ExpectBody? {
        BodyNeverOverflows(p, a);
      }
      var s := Step(p, a);
      StepWithin(p, a, [LF]);
      SplitCrlfIsMissed(s.parser, a[s.used..]);
    }
  }

  /** The calls of `parse` on one chunk after the other. */
  function RunAll(p: Parser, chunks: seq<Text>): Result
    decreases |chunks|
  {
    if chunks == [] then Result(p, 0, false, false)
    else Run(p, chunks[0]).Then(RunAll(Run(p, chunks[0]).parser, chunks[1..]))
  }

  ghost predicate CleanCuts(p: Parser, chunks: seq<Text>)
    decreases |chunks|
  {
    chunks == [] ||
    (CleanCut(p, chunks[0], Concat(chunks[1..])) && CleanCuts(Run(p, chunks[0]).parser, chunks[1..]))
  }

  /** Fragmentation invariance: feeding chunks equals feeding their concatenation. */
  lemma {:induction false} FragmentationInvariance(p: Parser, chunks: seq<Text>)
    requires p.Valid() && CleanCuts(p, chunks)
    ensures RunAll(p, chunks) == Run(p, Concat(chunks))
    decreases |chunks|
  {
    if chunks != [] {
      RunInvariant(p, chunks[0]);
      ParseSplit(p, chunks[0], Concat(chunks[1..]));
      FragmentationInvariance(Run(p, chunks[0]).parser, chunks[1..]);
    }
  }

  /** The bytes behind the end of a request play no part in it: the consumed prefix alone, or followed by
      anything else, gives the same result. */
  lemma {:induction false} PrefixDecides(p: Parser, data: Text)
    requires p.Valid()
    ensures Run(p, data[..Run(p, data).used]) == Run(p, data)
    decreases |data|
  {
    hide Step;
    var r := Run(p, data);
    var d := data[..r.used];
    if data != [] && !p.phase.Final() {
      var s := Step(p, data);
      PrefixDecides(s.parser, data[s.used..]);
      CutTwice(data, s.used, r.used);
      StepPrefix(p, data, r.used);
    }
  }

  lemma StepPrefix(p: Parser, data: Text, n: nat)
    requires p.Valid() && data != [] && !p.phase.Final()
    requires Step(p, data).used <= n <= |data|
    ensures Step(p, data[..n]) == Step(p, data)
  {
    hide OnLine, OnBody, FindCrlf;
    var d, s := data[..n], Step(p, data);
    if p.phase.Line() && FindCrlf(data).Some? {
      var i := FindCrlf(data).value;
      assert forall j | 0 <= j <= i :: CrlfAt(d, j) <==> CrlfAt(data, j);
      FirstCrlf(d, i);
      CutTwice(data, i, n);
    } else if p.phase.Line() {
      assert d == data;
    } else {
      CutTwice(data, s.used, n);
    }
  }

  lemma PrefixThenAnything(p: Parser, data: Text, other: Text)
    requires p.Valid() && !p.phase.Final() && Run(p, data).isComplete
    ensures Run(p, data[..Run(p, data).used] + other) == Run(p, data)
  {
    PrefixDecides(p, data);
    RunInvariant(p, data);
    ParseSplit(p, data[..Run(p, data).used], other);
  }
}
