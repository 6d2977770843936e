/** The HTTP branch of `EpollConnection::handle_read`: requests are parsed off the input buffer one after the
    other, queued, and dispatched at the end of the pass. */
module HttpPipeline {
  import opened Config
  import opened Bytes
  import opened HttpText
  import opened HttpParsing
  import opened HttpFragmentation
  import opened HttpPrinting

  datatype Pending = Pending(request: Request, raw: Text)

  datatype Outcome = Alive | BadRequest | TooDeep

  /** What a pass leaves behind; `buffered` is the input buffer, which a shutdown clears. */
  datatype Pass = Pass(parser: Parser, buffered: Text, queue: seq<Pending>, shouldClose: bool, outcome: Outcome) {
    /** Requests handed to the handler: none when the pass shut the connection down. */
    function Dispatched(): seq<Pending> { if outcome.Alive? then queue else [] }
  }

  function Recognised(r: Result, data: Text): Pending
    requires r.used <= |data|
  {
    Pending(r.parser.req.(parseSuccess := true), data[..r.used])
  }

  /** The parsing loop. Only a complete request is removed from the buffer. */
  function ParseLoop(parser: Parser, buffered: Text, queue: seq<Pending>, shouldClose: bool): (p: Pass)
    requires parser.Valid()
    ensures p.parser.Valid()
    decreases |buffered|
  {
    if buffered == [] then Pass(parser, buffered, queue, shouldClose, Alive)
    else
      RunInvariant(parser, buffered);
      var r := Run(parser, buffered);
      if r.hasError then Pass(r.parser, [], queue, shouldClose, BadRequest)
      else if !r.isComplete then Pass(r.parser, buffered, queue, shouldClose, Alive)
      else
        var item := Recognised(r, buffered);
        if |queue| + 1 > MAX_HTTP_PIPELINE then Pass(NEW_PARSER, [], queue + [item], shouldClose, TooDeep)
        else
          ParseLoop(NEW_PARSER, buffered[r.used..], queue + [item], shouldClose || !item.request.keepAlive)
  }

  /** What one round of the parsing loop adds to the whole. */
  lemma ParseStep(p: Parser, data: Text, queue: seq<Pending>, shouldClose: bool)
    requires p.Valid() && data != []
    ensures var r, all := Run(p, data), ParseLoop(p, data, queue, shouldClose);
      && (r.hasError ==> all == Pass(r.parser, [], queue, shouldClose, BadRequest))
      && (!r.hasError && !r.isComplete ==> all == Pass(r.parser, data, queue, shouldClose, Alive))
      && (!r.hasError && r.isComplete ==>
          && 0 < r.used && r.parser.phase.Complete?
          && var item := Recognised(r, data);
          all == if |queue| + 1 > MAX_HTTP_PIPELINE then Pass(NEW_PARSER, [], queue + [item], shouldClose, TooDeep)
                 else ParseLoop(NEW_PARSER, data[r.used..], queue + [item], shouldClose || !item.request.keepAlive))
  {
    RunInvariant(p, data);
  }

  /** A pass over `buffered` with a fresh parser and an empty queue. */
  function FreshPass(buffered: Text): Pass { ParseLoop(NEW_PARSER, buffered, [], false) }

  /** Taken by itself the raw text is one request, all of it, and that request. */
  ghost predicate IsTile(item: Pending) {
    var r := Run(NEW_PARSER, item.raw);
    r.isComplete && !r.hasError && r.used == |item.raw| && item.request == r.parser.req.(parseSuccess := true)
  }

  ghost predicate Tiles(queue: seq<Pending>) { forall item | item in queue :: IsTile(item) }

  function RawText(queue: seq<Pending>): Text {
    if queue == [] then [] else queue[0].raw + RawText(queue[1..])
  }

  predicate AnyCloses(queue: seq<Pending>) {
    queue != [] && (!queue[0].request.keepAlive || AnyCloses(queue[1..]))
  }

  lemma RawTextAppend(xs: seq<Pending>, ys: seq<Pending>)
    ensures RawText(xs + ys) == RawText(xs) + RawText(ys)
  {
    if xs == [] {
      assert xs + ys == ys;
    } else {
      assert (xs + ys)[1..] == xs[1..] + ys && (xs + ys)[0] == xs[0];
      RawTextAppend(xs[1..], ys);
      Assoc(xs[0].raw, RawText(xs[1..]), RawText(ys));
    }
  }

  lemma AnyClosesAppend(xs: seq<Pending>, ys: seq<Pending>)
    ensures AnyCloses(xs + ys) == (AnyCloses(xs) || AnyCloses(ys))
  {
    if xs == [] {
      assert xs + ys == ys;
    } else {
      assert (xs + ys)[1..] == xs[1..] + ys;
      AnyClosesAppend(xs[1..], ys);
    }
  }

  lemma TilesAppend(xs: seq<Pending>, ys: seq<Pending>)
    requires Tiles(xs) && Tiles(ys)
    ensures Tiles(xs + ys)
  {
    hide IsTile;
  }

  lemma CompleteHasNoError(p: Parser, data: Text)
    requires p.Valid() && !p.phase.Final() && Run(p, data).isComplete
    ensures !Run(p, data).hasError && Run(p, data).used > 0
  {
    RunInvariant(p, data);
  }

  /** One complete request at the head of the buffer goes to the queue, if there is space. */
  lemma TakeTile(item: Pending, rest: Text, queue: seq<Pending>, shouldClose: bool)
    requires IsTile(item)
    ensures ParseLoop(NEW_PARSER, item.raw + rest, queue, shouldClose)
         == if |queue| < MAX_HTTP_PIPELINE
            then ParseLoop(NEW_PARSER, rest, queue + [item], shouldClose || !item.request.keepAlive)
            else Pass(NEW_PARSER, [], queue + [item], shouldClose, TooDeep)
  {
    hide Run;
    var raw := item.raw;
    CompleteHasNoError(NEW_PARSER, raw);
    assert raw[..|raw|] == raw;
    PrefixThenAnything(NEW_PARSER, raw, rest);
    CutConcat(raw, rest, |raw|);
  }

  lemma {:induction false} TakeTiles(items: seq<Pending>, rest: Text, queue: seq<Pending>, shouldClose: bool)
    requires Tiles(items) && |queue| + |items| <= MAX_HTTP_PIPELINE
    ensures ParseLoop(NEW_PARSER, RawText(items) + rest, queue, shouldClose)
         == ParseLoop(NEW_PARSER, rest, queue + items, shouldClose || AnyCloses(items))
    decreases |items|
  {
    hide ParseLoop, IsTile;
    Units(rest);
    Units(queue);
    if items != [] {
      assert items[0] in items;
      Assoc(items[0].raw, RawText(items[1..]), rest);
      TakeTile(items[0], RawText(items[1..]) + rest, queue, shouldClose);
      TakeTiles(items[1..], rest, queue + [items[0]], shouldClose || !items[0].request.keepAlive);
      assert queue + [items[0]] + items[1..] == queue + items;
    }
  }

  /** The pass, determined from outside: if the buffer is some complete requests followed by something that
      is not one, those requests are the queue. A parse error or a 101st request dispatches none of them. */
  lemma PassIsGreedySplit(items: seq<Pending>, rest: Text)
    requires Tiles(items) && |items| <= MAX_HTTP_PIPELINE && !Run(NEW_PARSER, rest).isComplete
    ensures var p := FreshPass(RawText(items) + rest);
      p == if Run(NEW_PARSER, rest).hasError
           then Pass(Run(NEW_PARSER, rest).parser, [], items, AnyCloses(items), BadRequest)
           else Pass(Run(NEW_PARSER, rest).parser, rest, items, AnyCloses(items), Alive)
  {
    hide Run, Step;
    TakeTiles(items, rest, [], false);
    Units(items);
    CompleteOrNot(rest);
  }

  lemma PassOverflows(items: seq<Pending>, rest: Text)
    requires Tiles(items) && |items| == MAX_HTTP_PIPELINE + 1
    ensures var p := FreshPass(RawText(items) + rest); p.outcome.TooDeep? && p.queue == items && p.Dispatched() == []
  {
    hide ParseLoop, IsTile;
    var front, last := items[..MAX_HTTP_PIPELINE], items[MAX_HTTP_PIPELINE];
    assert items == front + [last] && last in items;
    RawTextAppend(front, [last]);
    assert RawText([last]) == last.raw + RawText([]);
    Units(last.raw);
    Assoc(RawText(front), last.raw, rest);
    TakeTiles(front, last.raw + rest, [], false);
    Units(front);
    TakeTile(last, rest, front, AnyCloses(front));
  }

  /** Conversely every pass splits its buffer this way: the raw views tile what was taken off it, each of
      them parses alone to its request, and the pass ends in one of the three ways above. */
  lemma {:induction false} PassTiles(buffered: Text, queue: seq<Pending>, shouldClose: bool)
    returns (items: seq<Pending>, rest: Text)
    requires |queue| <= MAX_HTTP_PIPELINE
    ensures var p := ParseLoop(NEW_PARSER, buffered, queue, shouldClose);
      && p.queue == queue + items && Tiles(items) && buffered == RawText(items) + rest
      && (p.outcome.TooDeep? <==> |p.queue| == MAX_HTTP_PIPELINE + 1)
      && (p.outcome.TooDeep? || |p.queue| <= MAX_HTTP_PIPELINE)
      && (!p.outcome.TooDeep? ==>
          && !Run(NEW_PARSER, rest).isComplete && p.parser == Run(NEW_PARSER, rest).parser
          && (p.outcome.BadRequest? <==> Run(NEW_PARSER, rest).hasError)
          && p.shouldClose == (shouldClose || AnyCloses(items)))
      && (p.outcome.Alive? ==> p.buffered == rest)
    decreases |buffered|
  {
    hide Run, IsTile;
    var r := Run(NEW_PARSER, buffered);
    if buffered == [] || r.hasError || !r.isComplete {
      CompleteOrNot(buffered);
      items, rest := [], buffered;
      Units(queue);
      Units(rest);
    } else {
      var item := Recognised(r, buffered);
      CompleteIsTile(buffered);
      var later := buffered[r.used..];
      assert buffered == item.raw + later;
      if |queue| + 1 > MAX_HTTP_PIPELINE {
        items, rest := [item], later;
        assert RawText(items) == item.raw + RawText([]);
        Units(item.raw);
      } else {
        var moreItems;
        moreItems, rest := PassTiles(later, queue + [item], shouldClose || !item.request.keepAlive);
        items := [item] + moreItems;
        assert items[1..] == moreItems;
        Assoc(item.raw, RawText(moreItems), rest);
        Assoc(queue, [item], moreItems);
      }
    }
  }

  lemma CompleteIsTile(data: Text)
    requires Run(NEW_PARSER, data).isComplete
    ensures IsTile(Recognised(Run(NEW_PARSER, data), data)) && Run(NEW_PARSER, data).used > 0
  {
    hide Run;
    CompleteHasNoError(NEW_PARSER, data);
    PrefixDecides(NEW_PARSER, data);
  }

  lemma CompleteOrNot(data: Text)
    ensures Run(NEW_PARSER, data).hasError ==> !Run(NEW_PARSER, data).isComplete
    ensures data == [] ==> Run(NEW_PARSER, data) == Result(NEW_PARSER, 0, false, false)
  {
    RunInvariant(NEW_PARSER, data);
  }

  /** Pipelined printed requests (section 9.3.2 of RFC 9112) are dispatched one for one, in order. */
  function Printed(ms: seq<Message>): seq<Pending> {
    if ms == [] then [] else [Pending(ms[0].Parsed().(parseSuccess := true), ms[0].Print())] + Printed(ms[1..])
  }

  lemma {:induction false} PrintedTiles(ms: seq<Message>)
    requires forall m | m in ms :: m.WellFormed()
    ensures Tiles(Printed(ms)) && |Printed(ms)| == |ms|
  {
    if ms != [] {
      assert ms[0] in ms;
      PrintedRequestParses(ms[0], []);
      assert ms[0].Print() + [] == ms[0].Print();
      PrintedTiles(ms[1..]);
    }
  }

  lemma PipelinedRequestsDispatched(ms: seq<Message>)
    requires |ms| <= MAX_HTTP_PIPELINE && forall m | m in ms :: m.WellFormed()
    ensures var p := FreshPass(RawText(Printed(ms)));
      p.Dispatched() == Printed(ms) && p.buffered == [] && p.parser == NEW_PARSER && p.outcome.Alive?
  {
    hide Printed, Run;
    PrintedTiles(ms);
    CompleteOrNot([]);
    PassIsGreedySplit(Printed(ms), []);
    Units(RawText(Printed(ms)));
  }

  // ---- Two reads ----

  /** A second read adds `more` to what the first left in the buffer and goes on with the parser as it is. */
  function NextPass(p: Pass, more: Text): (n: Pass)
    requires p.parser.Valid()
    ensures n.parser.Valid()
  {
    ParseLoop(p.parser, p.buffered + more, [], false)
  }

  /** One read of everything goes on, behind what a first read of a part of it would queue, with the bytes that
      read would leave. */
  lemma WholePass(a: Text, b: Text)
    requires FreshPass(a).outcome.Alive?
    ensures var p := FreshPass(a);
      && |p.queue| <= MAX_HTTP_PIPELINE && Tiles(p.queue) && a == RawText(p.queue) + p.buffered
      && p.shouldClose == AnyCloses(p.queue) && p.parser == Run(NEW_PARSER, p.buffered).parser
      && !Run(NEW_PARSER, p.buffered).isComplete && !Run(NEW_PARSER, p.buffered).hasError
      && FreshPass(a + b) == ParseLoop(NEW_PARSER, p.buffered + b, p.queue, p.shouldClose)
  {
    hide ParseLoop, Run, IsTile;
    var items, rest := PassTiles(a, [], false);
    Units(items);
    Assoc(RawText(items), rest, b);
    TakeTiles(items, rest + b, [], false);
  }

  /** When the first read ends on a request boundary, the second one sees a fresh pass, and two reads dispatch what
      one read of everything does if and only if they do not have more than 100 requests between them; otherwise the
      one read closes and dispatches nothing. */
  lemma ReadsAtBoundary(a: Text, b: Text)
    requires var p := FreshPass(a); p.outcome.Alive? && p.buffered == []
    ensures var p, q, whole := FreshPass(a), FreshPass(b), FreshPass(a + b);
      && p.parser == NEW_PARSER && NextPass(p, b) == q
      && (|p.queue| + |q.queue| <= MAX_HTTP_PIPELINE ==>
          whole == Pass(q.parser, q.buffered, p.queue + q.queue, p.shouldClose || q.shouldClose, q.outcome))
      && (|p.queue| + |q.queue| > MAX_HTTP_PIPELINE ==> whole.outcome.TooDeep? && whole.Dispatched() == [])
  {
    hide ParseLoop, Run, IsTile;
    var xs := FreshPass(a).queue;
    WholePass(a, b);
    CompleteOrNot([]);
    Units(b);
    Units(RawText(xs));
    var ys, rest := PassTiles(b, [], false);
    Units(ys);
    RawTextAppend(xs, ys);
    AnyClosesAppend(xs, ys);
    TilesAppend(xs, ys);
    Assoc(RawText(xs), RawText(ys), rest);
    if |xs| + |ys| <= MAX_HTTP_PIPELINE {
      PassIsGreedySplit(xs + ys, rest);
      PassIsGreedySplit(ys, rest);
    } else {
      TooManyTiles(xs + ys, rest);
    }
  }

  lemma TooManyTiles(items: seq<Pending>, rest: Text)
    requires Tiles(items) && |items| > MAX_HTTP_PIPELINE
    ensures FreshPass(RawText(items) + rest).outcome.TooDeep?
  {
    hide ParseLoop, Run, IsTile;
    var front, back := items[..MAX_HTTP_PIPELINE + 1], items[MAX_HTTP_PIPELINE + 1..];
    assert items == front + back;
    RawTextAppend(front, back);
    Assoc(RawText(front), RawText(back), rest);
    PassOverflows(front, RawText(back) + rest);
  }

  /** When it does not, the unfinished bytes stay in the buffer although the parser has taken them in, so the
      next read parses them a second time: it sees `rest + rest + more`. */
  lemma UnfinishedBytesAreReadTwice(a: Text, more: Text)
    requires FreshPass(a).outcome.Alive? && CleanCut(NEW_PARSER, FreshPass(a).buffered, FreshPass(a).buffered)
    ensures var p := FreshPass(a);
      var second, doubled := Run(p.parser, p.buffered + more), Run(NEW_PARSER, p.buffered + (p.buffered + more));
      && second.parser == doubled.parser && second.isComplete == doubled.isComplete
      && second.hasError == doubled.hasError && |p.buffered| + second.used == doubled.used
  {
    hide ParseLoop, Run;
    var items, rest := PassTiles(a, [], false);
    CompleteOrNot(rest);
    NotCompleteYet(rest);
    assert rest != [] ==> (rest + more)[0] == rest[0];
    ParseSplit(NEW_PARSER, rest, rest + more);
  }

  lemma NotCompleteYet(rest: Text)
    requires !Run(NEW_PARSER, rest).isComplete && !Run(NEW_PARSER, rest).hasError && !Overflows(NEW_PARSER, rest)
    ensures !Run(NEW_PARSER, rest).parser.phase.Final() && Run(NEW_PARSER, rest).used == |rest|
  {
    hide Run;
    RunInvariant(NEW_PARSER, rest);
  }

  /** So fragmented arrival breaks the driver, for a whole family of requests: cut 1 to 4 bytes into the
      version, one read dispatches the request and two reads answer 400 and close. */
  lemma CutInVersionFails(m: Message, k: nat)
    requires m.WellFormed() && |m.version| >= 5 && '/' !in m.method_
    requires 1 <= k <= 4 && |m.method_| + k >= 5 && |m.FirstLine()| <= MAX_HTTP_HEADER_SIZE
    ensures FreshPass(m.Print()).Dispatched() == Printed([m])
    ensures Fragment(m, k) <= m.Print()
    ensures var first := FreshPass(Fragment(m, k));
      first.outcome.Alive? && NextPass(first, m.Print()[|Fragment(m, k)|..]).outcome.BadRequest?
  {
    PrintedAlone(m);
    CutReadFirst(m, k);
    CutReadSecond(m, k);
    CutReads(m, k);
  }

  lemma PrintedAlone(m: Message)
    requires m.WellFormed()
    ensures FreshPass(m.Print()).Dispatched() == Printed([m])
  {
    hide ParseLoop, Message.Print, Message.Parsed;
    PipelinedRequestsDispatched([m]);
    assert Printed([m]) == [Pending(m.Parsed().(parseSuccess := true), m.Print())] + Printed([]);
    assert RawText(Printed([m])) == m.Print() + RawText([]);
    Units(m.Print());
  }

  lemma CutReads(m: Message, k: nat)
    requires k <= |m.version| && Fragment(m, k) <= m.Print()
    requires FreshPass(Fragment(m, k)) ==
             Pass(OnPartialLine(NEW_PARSER, Fragment(m, k)), Fragment(m, k), [], false, Alive)
    requires OnPartialLine(NEW_PARSER, Fragment(m, k)).Valid()
    requires Run(OnPartialLine(NEW_PARSER, Fragment(m, k)), m.Print()).hasError
    ensures NextPass(FreshPass(Fragment(m, k)), m.Print()[|Fragment(m, k)|..]).outcome.BadRequest?
  {
    hide Run, Message.Print, OnPartialLine;
    var f, text := Fragment(m, k), m.Print();
    assert f + text[|f|..] == text;
  }

  /** What the first read of the cut request sees. */
  function Fragment(m: Message, k: nat): Text
    requires k <= |m.version|
  {
    m.method_ + [' '] + m.target + [' '] + m.version[..k]
  }

  lemma CutReadFirst(m: Message, k: nat)
    requires m.WellFormed() && 1 <= k <= 4 && |m.version| >= 5 && |m.FirstLine()| <= MAX_HTTP_HEADER_SIZE
    ensures var f := Fragment(m, k);
      && f <= m.Print() && |f| <= MAX_HTTP_HEADER_SIZE
      && FreshPass(f) == Pass(OnPartialLine(NEW_PARSER, f), f, [], false, Alive)
      && OnPartialLine(NEW_PARSER, f).phase == ExpectRequestLine
  {
    hide Run;
    var f := Fragment(m, k);
    assert m.FirstLine() == f + m.version[k..];
    FirstLineHasNoCr(m);
    forall i ensures !CrlfAt(f, i) {
      assert CrlfAt(f, i) ==> CrlfAt(m.FirstLine(), i);
    }
    assert FindCrlf(f).None?;
    PartialRun(NEW_PARSER, f);
  }

  lemma CutReadSecond(m: Message, k: nat)
    requires m.WellFormed() && |m.version| >= 5 && '/' !in m.method_
    requires 1 <= k <= 4 && |m.method_| + k >= 5 && |Fragment(m, k)| <= MAX_HTTP_HEADER_SIZE
    ensures Run(OnPartialLine(NEW_PARSER, Fragment(m, k)), m.Print()).hasError
  {
    hide Run, RequestLine, FindCrlf;
    var f, line := Fragment(m, k), m.FirstLine();
    var p := OnPartialLine(NEW_PARSER, f);
    var later := HeadersText(m.headers) + (CRLF + m.body);
    Units(f);
    FirstLineHasNoCr(m);
    FindCrlfAt(line, later);
    RunAtCrlf(p, m.Print(), |line|);
    assert m.Print()[..|line|] == line;
    GarbledLine(m, k);
    LineForgetsPending(NEW_PARSER, p, f + line);
  }

  lemma GarbledText(a: Text, s: Text, b: Text, v: Text, c: Text, tail: Text)
    ensures (a + s + b + s + v) + (c + tail) == a + (s + b + (s + (v + c) + tail))
  {
    var front := a + s + b + s;
    Assoc(front + v, c, tail);
    Assoc(front, v, c);
    Assoc(front, v + c, tail);
    Regroup(a, s, b, s, (v + c) + tail);
    Assoc(s, v + c, tail);
  }

  /** The line made of the fragment and the whole first line has a version that is not HTTP/. */
  lemma GarbledLine(m: Message, k: nat)
    requires m.WellFormed() && |m.version| >= 5 && '/' !in m.method_
    requires 1 <= k <= 4 && |m.method_| + k >= 5
    ensures !RequestLine(NEW_REQUEST, Fragment(m, k) + m.FirstLine()).0
  {
    hide RequestLine, Words, StripCr;
    var sp: Text := [' '];
    var version := m.version[..k] + m.method_;
    var tail := sp + m.target + sp + m.version;
    var line := Fragment(m, k) + m.FirstLine();
    assert m.FirstLine() == m.method_ + tail by {
      Assoc(m.method_, sp, m.target);
      Assoc(m.method_, sp + m.target, sp);
      Assoc(m.method_, sp + m.target + sp, m.version);
    }
    FirstLineHasNoCr(m);
    assert line[|line| - 1] == m.FirstLine()[|m.FirstLine()| - 1];
    assert line == m.method_ + (sp + m.target + (sp + version + tail)) by {
      GarbledText(m.method_, sp, m.target, m.version[..k], m.method_, tail);
    }
    GarbledWords(m.method_, m.target, version, tail, m.version[..k]);
    GarbledVersion(m, k);
    WrongVersionFails(line);
  }

  lemma WrongVersionFails(line: Text)
    requires line != [] && line[|line| - 1] != CR
    requires var w := Words(line); |w| >= 3 && |w[2]| >= 5 && w[2][..5] != "HTTP/"
    ensures !RequestLine(NEW_REQUEST, line).0
  {
    hide Words;
  }

  lemma GarbledWords(a: Text, b: Text, version: Text, tail: Text, v: Text)
    requires IsWord(a) && IsWord(b) && version == v + a && (forall c | c in v :: !IsSpace(c))
    requires tail != [] && IsSpace(tail[0])
    ensures Words(a + ([' '] + b + ([' '] + version + tail))) == [a] + ([b] + ([version] + Words(tail)))
  {
    hide Words;
    assert forall c | c in version :: c in v || c in a;
    assert IsWord(version);
    var sp: Text := [' '];
    WordsCons(version, tail);
    WordsCons(b, sp + version + tail);
    WordsCons(a, sp + b + (sp + version + tail));
  }

  lemma GarbledVersion(m: Message, k: nat)
    requires |m.version| >= 5 && '/' !in m.method_ && 1 <= k <= 4 && |m.method_| + k >= 5
    ensures var version := m.version[..k] + m.method_; |version| >= 5 && version[..5] != "HTTP/"
  {
    var version := m.version[..k] + m.method_;
    assert version[..5][4] == version[4] == m.method_[4 - k] && m.method_[4 - k] in m.method_;
    assert "HTTP/"[4] == '/';
  }
}
