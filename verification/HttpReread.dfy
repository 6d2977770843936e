/** What becomes of a request whose bytes come in two reads: the driver leaves the unfinished bytes in the buffer,
    although the parser has taken them in, and feeds them to the same parser again. */
module HttpReread {
  import opened Config
  import opened Bytes
  import opened HttpText
  import opened HttpParsing
  import opened HttpFragmentation
  import opened HttpPrinting
  import opened HttpPipeline

  // ---- Header fields, independently of the request they are added to ----

  predicate GoodField(f: Header) {
    ToLower(f.key) == "content-length" ==> Stoul(f.value).Some? && Stoul(f.value).value <= MAX_HTTP_BODY_SIZE
  }

  /** The field a header line stands for, if it is one. */
  function FieldOf(line: Text): Option<Header> {
    match Find(line, ':')
    case None => None
    case Some(c) =>
      var f := Header(Trim(line[..c]), Trim(line[c + 1..]));
      if f.key != [] && GoodField(f) then Some(f) else None
  }

  function Put(req: Request, f: Header): Request { ApplyHeader(req, f.key, f.value).1 }

  lemma FieldLine(req: Request, line: Text)
    ensures HeaderLine(req, line).0 <==> FieldOf(line).Some?
    ensures FieldOf(line).Some? ==> HeaderLine(req, line).1 == Put(req, FieldOf(line).value)
  {
    hide Find, Trim, Stoul, ToLower;
  }

  function PutAll(req: Request, fs: seq<Header>): Request
    decreases |fs|
  {
    if fs == [] then req else PutAll(Put(req, fs[0]), fs[1..])
  }

  ghost predicate GoodFields(fs: seq<Header>) { forall f | f in fs :: GoodField(f) }

  ghost predicate Named(fs: seq<Header>, name: Text) { exists i | 0 <= i < |fs| :: fs[i].key == name }

  // ---- Putting the same fields again changes nothing ----

  /** The part of a request besides the header map that a field sets. */
  datatype Slot = Length | Connection | Host | Agent | Type | Plain

  function SlotOf(name: Text): Slot {
    if name == "content-length" then Length
    else if name == "connection" then Connection
    else if name == "host" then Host
    else if name == "user-agent" then Agent
    else if name == "content-type" then Type
    else Plain
  }

  function Fill(req: Request, slot: Slot, value: Text): Request {
    match slot
    case Length => if Stoul(value).Some? then req.(contentLength := Stoul(value).value) else req
    case Connection => req.(keepAlive := ToLower(value) != "close")
    case Host => req.(host := value)
    case Agent => req.(userAgent := value)
    case Type => req.(contentType := value)
    case Plain => req
  }

  lemma PutShape(req: Request, f: Header)
    requires GoodField(f)
    ensures Put(req, f) == Fill(req, SlotOf(ToLower(f.key)), f.value).(headers := req.headers[f.key := f.value])
  {
    hide Stoul, ToLower;
    var name := ToLower(f.key);
    if name == "content-length" {
    } else if name == "connection" {
    } else if name == "host" {
    } else if name == "user-agent" {
    } else if name == "content-type" {
    }
  }

  lemma FillTwice(req: Request, s: Slot, v: Text, t: Slot, w: Text)
    ensures s != t || s.Plain? ==> Fill(Fill(req, s, v), t, w) == Fill(Fill(req, t, w), s, v)
    ensures s == t && (s.Length? ==> Stoul(w).Some?) ==> Fill(Fill(req, s, v), t, w) == Fill(req, t, w)
  {
    hide Stoul, ToLower;
  }

  lemma FillBesideHeaders(req: Request, s: Slot, v: Text, m: map<Text, Text>)
    ensures Fill(req.(headers := m), s, v) == Fill(req, s, v).(headers := m) && Fill(req, s, v).headers == req.headers
  {
    hide Stoul, ToLower;
  }

  lemma SameSlot(a: Text, b: Text)
    ensures SlotOf(a) == SlotOf(b) && !SlotOf(a).Plain? ==> a == b
  {
  }

  lemma NotesCommute(m: map<Text, Text>, k: Text, v: Text, l: Text, w: Text)
    ensures m[k := v][l := w] == if k == l then m[l := w] else m[l := w][k := v]
  {
  }

  /** A field, then another: the first is forgotten if the names agree; only the header map remembers it if they
      agree but for case; otherwise the order does not matter. */
  lemma PutOver(req: Request, f: Header, g: Header)
    requires GoodField(f) && GoodField(g)
    ensures f.key == g.key ==> Put(Put(req, f), g) == Put(req, g)
    ensures f.key != g.key && ToLower(f.key) == ToLower(g.key) ==>
              Put(Put(req, f), g) == Put(req, g).(headers := Put(req, g).headers[f.key := f.value])
    ensures ToLower(f.key) != ToLower(g.key) ==> Put(Put(req, f), g) == Put(Put(req, g), f)
  {
    hide Stoul, ToLower, Put, Fill, SlotOf;
    var s, t := SlotOf(ToLower(f.key)), SlotOf(ToLower(g.key));
    PutShape(req, f);
    PutShape(req, g);
    PutShape(Put(req, f), g);
    PutShape(Put(req, g), f);
    FillBesideHeaders(Fill(req, s, f.value), t, g.value, req.headers[f.key := f.value]);
    FillBesideHeaders(Fill(req, t, g.value), s, f.value, req.headers[g.key := g.value]);
    FillTwice(req, s, f.value, t, g.value);
    SameSlot(ToLower(f.key), ToLower(g.key));
    LengthIsGood(g);
    NotesCommute(req.headers, f.key, f.value, g.key, g.value);
  }

  lemma LengthIsGood(g: Header)
    requires GoodField(g)
    ensures SlotOf(ToLower(g.key)).Length? ==> Stoul(g.value).Some?
  {
    hide Stoul, ToLower;
  }

  lemma {:induction false} NoteIsOverwritten(req: Request, f: Header, fs: seq<Header>)
    requires Named(fs, f.key) && GoodFields(fs)
    ensures PutAll(req.(headers := req.headers[f.key := f.value]), fs) == PutAll(req, fs)
    decreases |fs|
  {
    hide ApplyHeader, GoodField;
    var g := fs[0];
    assert g in fs && forall h | h in fs[1..] :: h in fs;
    PutKeepsNote(req, f, g);
    if f.key != g.key {
      NamedBehind(fs, f.key);
      NoteIsOverwritten(Put(req, g), f, fs[1..]);
    }
  }

  lemma PutKeepsNote(req: Request, f: Header, g: Header)
    requires GoodField(g)
    ensures var noted := req.(headers := req.headers[f.key := f.value]);
      Put(noted, g) == if f.key == g.key then Put(req, g)
                       else Put(req, g).(headers := Put(req, g).headers[f.key := f.value])
  {
    hide Stoul, ToLower, Put, Fill, SlotOf;
    var noted := req.(headers := req.headers[f.key := f.value]);
    PutShape(noted, g);
    PutShape(req, g);
    FillBesideHeaders(req, SlotOf(ToLower(g.key)), g.value, noted.headers);
    NotesCommute(req.headers, f.key, f.value, g.key, g.value);
  }

  lemma NamedBehind(fs: seq<Header>, name: Text)
    requires Named(fs, name) && fs[0].key != name
    ensures Named(fs[1..], name)
  {
    var i :| 0 <= i < |fs| && fs[i].key == name;
    assert fs[1..][i - 1].key == name;
  }

  /** A field is forgotten when one of the same name follows. */
  lemma {:induction false} FieldIsOverwritten(req: Request, f: Header, fs: seq<Header>)
    requires GoodField(f) && GoodFields(fs) && Named(fs, f.key)
    ensures PutAll(Put(req, f), fs) == PutAll(req, fs)
    decreases |fs|
  {
    hide ApplyHeader, GoodField, ToLower;
    var g := fs[0];
    assert g in fs;
    PutOver(req, f, g);
    if f.key != g.key {
      NamedBehind(fs, f.key);
      if ToLower(f.key) == ToLower(g.key) {
        NoteIsOverwritten(Put(req, g), f, fs[1..]);
      } else {
        assert forall h | h in fs[1..] :: h in fs;
        FieldIsOverwritten(Put(req, g), f, fs[1..]);
      }
    }
  }

  lemma {:induction false} PrefixIsOverwritten(req: Request, gs: seq<Header>, fs: seq<Header>)
    requires GoodFields(gs) && GoodFields(fs) && forall g | g in gs :: Named(fs, g.key)
    ensures PutAll(PutAll(req, gs), fs) == PutAll(req, fs)
    decreases |gs|
  {
    hide ApplyHeader, GoodField, Named;
    if gs != [] {
      assert gs[0] in gs && forall h | h in gs[1..] :: h in gs;
      PrefixIsOverwritten(Put(req, gs[0]), gs[1..], fs);
      FieldIsOverwritten(req, gs[0], fs);
    }
  }

  lemma PutAgain(req: Request, fs: seq<Header>)
    requires GoodFields(fs)
    ensures PutAll(PutAll(req, fs), fs) == PutAll(req, fs)
  {
    hide ApplyHeader, GoodField;
    forall f | f in fs ensures Named(fs, f.key) {
      var i :| 0 <= i < |fs| && fs[i] == f;
      assert fs[i].key == f.key;
    }
    PrefixIsOverwritten(req, fs, fs);
  }

  lemma {:induction false} NamesRecorded(req: Request, fs: seq<Header>, name: Text)
    ensures name in PutAll(req, fs).headers <==> name in req.headers || Named(fs, name)
    decreases |fs|
  {
    hide ApplyHeader;
    if fs != [] {
      PutRecords(req, fs[0]);
      NamesRecorded(Put(req, fs[0]), fs[1..], name);
      if Named(fs, name) && fs[0].key != name {
        NamedBehind(fs, name);
      }
      if Named(fs[1..], name) {
        var i :| 0 <= i < |fs[1..]| && fs[1..][i].key == name;
        assert fs[i + 1].key == name;
      }
      assert fs[0].key == name ==> Named(fs, name);
    }
  }

  lemma PutRecords(req: Request, f: Header)
    ensures Put(req, f).headers == req.headers[f.key := f.value]
  {
    hide Stoul, ToLower;
  }

  /** One more field in front, and then all of them again: the request is the same if and only if the name of the
      one in front is among them. */
  lemma ExtraFieldExact(start: Request, f: Header, fs: seq<Header>)
    requires start.headers == map[] && GoodField(f) && GoodFields(fs)
    ensures var req := PutAll(start, fs);
      PutAll(Put(req, f), fs) == req <==> f.key in req.headers
  {
    hide ApplyHeader, GoodField, PutAll, Named;
    var req := PutAll(start, fs);
    NamesRecorded(start, fs, f.key);
    if f.key in req.headers {
      FieldIsOverwritten(req, f, fs);
      PutAgain(start, fs);
    } else {
      PutRecords(req, f);
      NamesRecorded(Put(req, f), fs, f.key);
    }
  }

  lemma {:induction false} PutAllKeeps(req: Request, fs: seq<Header>)
    requires GoodFields(fs)
    ensures PutAll(req, fs).parserError == req.parserError
    decreases |fs|
  {
    hide ApplyHeader, GoodField;
    if fs != [] {
      assert fs[0] in fs && forall h | h in fs[1..] :: h in fs;
      PutKeeps(req, fs[0]);
      PutAllKeeps(Put(req, fs[0]), fs[1..]);
    }
  }

  lemma PutKeeps(req: Request, f: Header)
    requires GoodField(f)
    ensures Put(req, f).parserError == req.parserError
  {
    hide Stoul, ToLower;
    PutShape(req, f);
  }

  // ---- Header lines in the input ----

  function HeaderParser(req: Request): Parser { Parser(ExpectHeader, req, [], 0) }

  /** Whole header lines, and the fields they stand for. */
  ghost predicate IsBlock(s: Text, fs: seq<Header>)
    decreases |fs|
  {
    if fs == [] then s == []
    else
      && FindCrlf(s).Some?
      && var i := FindCrlf(s).value;
      i > 0 && FieldOf(s[..i]) == Some(fs[0]) && IsBlock(s[i + 2..], fs[1..])
  }

  lemma HeaderOnLine(p: Parser, line: Text)
    requires p.phase.ExpectHeader? && p.received == 0 && line != []
    ensures OnLine(p, line).phase.Error? <==> FieldOf(line).None?
    ensures FieldOf(line).Some? ==> OnLine(p, line) == HeaderParser(Put(p.req, FieldOf(line).value))
  {
    hide HeaderLine, FieldOf;
    FieldLine(p.req, line);
  }

  lemma {:induction false} BlockRun(req: Request, s: Text, fs: seq<Header>, u: Text)
    requires IsBlock(s, fs)
    ensures var q := HeaderParser(PutAll(req, fs));
      Run(HeaderParser(req), s + u) == Result(q, |s|, false, false).Then(Run(q, u))
    decreases |fs|
  {
    hide Run, OnLine, FieldOf, FindCrlf, Put;
    if fs == [] {
      Units(u);
    } else {
      var p, i := HeaderParser(req), FindCrlf(s).value;
      FindCrlfWithin(s, u);
      RunAtCrlf(p, s + u, i);
      CutConcat(s, u, i);
      CutConcat(s, u, i + 2);
      Units(s[..i]);
      HeaderOnLine(p, s[..i]);
      BlockRun(Put(req, fs[0]), s[i + 2..], fs[1..], u);
    }
  }

  lemma {:induction false} NoLineAgain(p: Parser, data: Text)
    requires !p.phase.Line()
    ensures !Run(p, data).parser.phase.Line()
    decreases |data|, !p.phase.Final()
  {
    if data != [] && !p.phase.Final() {
      NoLineAgain(Step(p, data).parser, data[Step(p, data).used..]);
    }
  }

  /** While the parser is still in the headers, everything up to the last CRLF was header lines. */
  lemma {:induction false} BlockOf(req: Request, t: Text) returns (fs: seq<Header>, h: nat)
    requires Run(HeaderParser(req), t).parser.phase.ExpectHeader?
    ensures h <= |t| && IsBlock(t[..h], fs) && GoodFields(fs) && FindCrlf(t[h..]).None?
    decreases |t|
  {
    hide Run, OnLine, FieldOf, FindCrlf, Put, GoodField, IsBlock;
    EmptyBlock();
    var f := FindCrlf(t);
    if f.None? {
      fs, h := [], 0;
      assert t[0..] == t;
    } else {
      var i := f.value;
      RunAtCrlf(HeaderParser(req), t, i);
      Units(t[..i]);
      var q := OnLine(HeaderParser(req), t[..i]);
      NoLineAgainUnlessLine(q, t[i + 2..]);
      EmptyLineEnds(HeaderParser(req));
      HeaderOnLine2(HeaderParser(req), t[..i]);
      var g := FieldOf(t[..i]).value;
      FieldIsGood(t[..i]);
      var gs, k := BlockOf(Put(req, g), t[i + 2..]);
      fs, h := [g] + gs, i + 2 + k;
      OneMoreInBlock(t, i, k, g, gs);
      DropDrop(t, i + 2, k);
    }
  }

  lemma OneMoreInBlock(t: Text, i: nat, k: nat, g: Header, gs: seq<Header>)
    requires FindCrlf(t) == Some(i) && 0 < i && i + 2 + k <= |t|
    requires FieldOf(t[..i]) == Some(g) && IsBlock(t[i + 2..][..k], gs)
    ensures IsBlock(t[..i + 2 + k], [g] + gs)
  {
    hide FindCrlf, FieldOf;
    var h := i + 2 + k;
    PrefixCrlf(t, i, h);
    CutTwice(t, i, h);
    CutTwice(t, i + 2, h);
    assert ([g] + gs)[1..] == gs;
  }

  lemma EmptyBlock()
    ensures IsBlock([], [])
  {
  }

  lemma NoLineAgainUnlessLine(q: Parser, data: Text)
    ensures Run(q, data).parser.phase.Line() ==> q.phase.Line()
  {
    hide Run;
    if !q.phase.Line() {
      NoLineAgain(q, data);
    }
  }

  lemma EmptyLineEnds(p: Parser)
    requires p.phase.ExpectHeader?
    ensures !OnLine(p, []).phase.Line()
  {
  }

  lemma HeaderOnLine2(p: Parser, line: Text)
    requires p.phase.ExpectHeader? && p.received == 0 && OnLine(p, line).phase.Line()
    ensures line != [] && FieldOf(line).Some? && OnLine(p, line) == HeaderParser(Put(p.req, FieldOf(line).value))
  {
    hide OnLine, FieldOf, Put;
    EmptyLineEnds(p);
    if line != [] {
      HeaderOnLine(p, line);
    }
  }

  lemma FieldIsGood(line: Text)
    ensures FieldOf(line).Some? ==> GoodField(FieldOf(line).value)
  {
  }

  lemma PrefixCrlf(t: Text, i: nat, h: nat)
    requires FindCrlf(t) == Some(i) && i + 2 <= h <= |t|
    ensures FindCrlf(t[..h]) == Some(i)
  {
    hide FindCrlf;
    assert forall j | 0 <= j <= i :: CrlfAt(t[..h], j) <==> CrlfAt(t, j);
    FirstCrlf(t[..h], i);
  }

  // ---- A first read that ends inside the headers ----

  /** Its parts: request line, whole header lines with their fields, the rest of a line. */
  datatype Parts = Parts(line: Text, start: Request, block: Text, fs: seq<Header>, last: Text) {
    ghost predicate Of(rest: Text) {
      && FindCrlf(rest) == Some(|line|) && rest == line + CRLF + (block + last) && line != []
      && OnLine(NEW_PARSER, line) == HeaderParser(start) && start.headers == map[] && start.parserError == []
      && IsBlock(block, fs) && GoodFields(fs) && FindCrlf(last).None?
    }

    ghost function Req(): Request { PutAll(start, fs) }

    function Len(): nat { |line| + 2 + |block| }
  }

  lemma PartsOf(rest: Text) returns (x: Parts)
    requires Run(NEW_PARSER, rest).parser.phase.ExpectHeader?
    ensures x.Of(rest) && Run(NEW_PARSER, rest).parser == HeaderParser(x.Req()).(pendingLine := x.last)
  {
    hide Run, OnLine, FindCrlf, IsBlock, GoodField;
    StillFirstLine(rest);
    var i := FindCrlf(rest).value;
    RunAtCrlf(NEW_PARSER, rest, i);
    Units(rest[..i]);
    var q, t := OnLine(NEW_PARSER, rest[..i]), rest[i + 2..];
    NoLineAgainUnlessLine(q, t);
    FirstLineTaken(rest[..i]);
    var fs, h := BlockOf(q.req, t);
    x := Parts(rest[..i], q.req, t[..h], fs, t[h..]);
    assert CrlfAt(rest, i);
    assert rest == rest[..i] + CRLF + t;
    assert t == t[..h] + t[h..];
    BlockRun(q.req, t[..h], fs, t[h..]);
    LastLine(HeaderParser(x.Req()), x.last);
  }

  lemma StillFirstLine(rest: Text)
    ensures FindCrlf(rest).None? ==> !Run(NEW_PARSER, rest).parser.phase.ExpectHeader?
  {
    hide Run, FindCrlf;
    if rest == [] {
      CompleteOrNot(rest);
    } else if FindCrlf(rest).None? {
      PartialRun(NEW_PARSER, rest);
    }
  }

  lemma FirstLineTaken(line: Text)
    requires OnLine(NEW_PARSER, line).phase.Line()
    ensures var q := OnLine(NEW_PARSER, line);
      q == HeaderParser(q.req) && q.req.headers == map[] && q.req.parserError == [] && line != []
  {
  }

  lemma LastLine(p: Parser, last: Text)
    requires p.phase.ExpectHeader? && p.pendingLine == [] && FindCrlf(last).None?
    ensures Run(p, last).parser.phase.ExpectHeader? ==> Run(p, last).parser == p.(pendingLine := last)
  {
    hide FindCrlf, Run;
    Units(last);
    if last == [] {
      NothingToDo(p);
    } else {
      PartialRun(p, last);
    }
  }

  lemma NothingToDo(p: Parser)
    ensures Run(p, []) == Result(p, 0, false, false)
  {
  }

  /** One read of everything gets through the header lines and goes on with the last piece. */
  lemma FreshParts(x: Parts, rest: Text, b: Text)
    requires x.Of(rest)
    ensures var q := HeaderParser(x.Req());
      Run(NEW_PARSER, rest + b) == Result(q, x.Len(), false, false).Then(Run(q, x.last + b))
  {
    hide Run, OnLine, FindCrlf, IsBlock;
    ThroughBlock(NEW_PARSER, x, rest, b);
    Units(x.line);
    BlockRun(x.start, x.block, x.fs, x.last + b);
  }

  lemma ThroughBlock(p: Parser, x: Parts, rest: Text, b: Text)
    requires x.Of(rest) && p.phase.Line()
    ensures var q := OnLine(p, p.pendingLine + x.line);
      Run(p, rest + b) ==
      Result(q, |x.line| + 2, q.phase.Error?, q.phase.Complete?).Then(Run(q, x.block + (x.last + b)))
  {
    hide Run, OnLine, FindCrlf, IsBlock;
    FindCrlfWithin(rest, b);
    RunAtCrlf(p, rest + b, |x.line|);
    Assoc(x.line + CRLF, x.block + x.last, b);
    Assoc(x.block, x.last, b);
    assert (rest + b)[..|x.line|] == x.line && (rest + b)[|x.line| + 2..] == x.block + (x.last + b);
  }

  /** The second read takes the last piece and the request line together for a header line. */
  lemma AgainParts(x: Parts, req: Request, rest: Text, b: Text)
    requires x.Of(rest)
    ensures var p := HeaderParser(req).(pendingLine := x.last);
      match FieldOf(x.last + x.line)
      case None => Run(p, rest + b).hasError
      case Some(f) =>
        var q := HeaderParser(PutAll(Put(req, f), x.fs));
        Run(p, rest + b) == Result(q, x.Len(), false, false).Then(Run(q, x.last + b))
  {
    hide Run, OnLine, FindCrlf, IsBlock, FieldOf, Put;
    var p := HeaderParser(req).(pendingLine := x.last);
    ThroughBlock(p, x, rest, b);
    HeaderOnLine(p, x.last + x.line);
    var field := FieldOf(x.last + x.line);
    if field.Some? {
      BlockRun(Put(req, field.value), x.block, x.fs, x.last + b);
    }
  }

  // ---- The second read ----

  /** The unfinished piece and the request line, read together as one header line, are an acceptable field whose
      name has occurred already. */
  predicate ReadsAsKnownField(p: Parser, rest: Text) {
    && FindCrlf(rest).Some?
    && var f := FieldOf(p.pendingLine + rest[..FindCrlf(rest).value]);
    f.Some? && f.value.key in p.req.headers
  }

  lemma SameRunSamePass(p: Parser, q: Parser, data: Text)
    requires p.Valid() && q.Valid() && data != [] && Run(p, data) == Run(q, data)
    ensures ParseLoop(p, data, [], false) == ParseLoop(q, data, [], false)
  {
    hide Run, ParseLoop;
    ParseStep(p, data, [], false);
    ParseStep(q, data, [], false);
  }

  lemma HeadersReread(rest: Text)
    requires Run(NEW_PARSER, rest).parser.phase.ExpectHeader?
    ensures Run(NEW_PARSER, rest).parser.Valid()
    ensures var p := Run(NEW_PARSER, rest).parser;
      (forall b: Text | b != [] :: ParseLoop(p, rest + b, [], false) == FreshPass(rest + b))
      <==> ReadsAsKnownField(p, rest)
  {
    hide Run, ParseLoop, FindCrlf, FieldOf, Put, GoodField, PutAll;
    RunInvariant(NEW_PARSER, rest);
    var p := Run(NEW_PARSER, rest).parser;
    var x := PartsOf(rest);
    var field := FieldOf(x.last + x.line);
    assert rest[..|x.line|] == x.line;
    FieldIsGood(x.last + x.line);
    if field.Some? {
      ExtraFieldExact(x.start, field.value, x.fs);
    }
    if ReadsAsKnownField(p, rest) {
      forall b: Text | b != [] ensures ParseLoop(p, rest + b, [], false) == FreshPass(rest + b) {
        FreshParts(x, rest, b);
        AgainParts(x, x.Req(), rest, b);
        SameRunSamePass(p, NEW_PARSER, rest + b);
      }
    } else {
      HeadersDiffer(x, rest);
      assert ParseLoop(p, rest + ['x'], [], false) != FreshPass(rest + ['x']);
    }
  }

  lemma HeadersDiffer(x: Parts, rest: Text)
    requires x.Of(rest) && HeaderParser(x.Req()).(pendingLine := x.last).Valid()
    requires var field := FieldOf(x.last + x.line);
      field.Some? ==> GoodField(field.value) && PutAll(Put(x.Req(), field.value), x.fs) != x.Req()
    ensures ParseLoop(HeaderParser(x.Req()).(pendingLine := x.last), rest + ['x'], [], false) != FreshPass(rest + ['x'])
  {
    hide Run, ParseLoop, FindCrlf, FieldOf, Put, GoodField, OnPartialLine, OnLine, IsBlock;
    var p, b := HeaderParser(x.Req()).(pendingLine := x.last), ['x'];
    FreshParts(x, rest, b);
    AgainParts(x, x.Req(), rest, b);
    ParseStep(NEW_PARSER, rest + b, [], false);
    ParseStep(p, rest + b, [], false);
    NoCrlfWithX(x.last);
    PartialRun(HeaderParser(x.Req()), x.last + b);
    var field := FieldOf(x.last + x.line);
    if field.Some? {
      var again := PutAll(Put(x.Req(), field.value), x.fs);
      PartialRun(HeaderParser(again), x.last + b);
      PutKeeps(x.Req(), field.value);
      PutAllKeeps(Put(x.Req(), field.value), x.fs);
      PartialTells(HeaderParser(x.Req()), HeaderParser(again), x.last + b);
    }
  }

  lemma NoCrlfWithX(last: Text)
    requires FindCrlf(last).None?
    ensures FindCrlf(last + ['x']).None?
  {
    hide FindCrlf;
    FindCrlfAcross(last, ['x']);
    assert !CrlfAt(['x'], 0);
  }

  lemma PartialTells(p: Parser, q: Parser, piece: Text)
    requires p.phase == q.phase && p.req != q.req && p.req.parserError == q.req.parserError
    ensures OnPartialLine(p, piece) != OnPartialLine(q, piece)
  {
    assert p.req.(parserError := "Header too large") != q.req.(parserError := "Header too large");
  }

  /** Inside the request line the second read finds the piece twice. */
  lemma FirstLineReread(rest: Text)
    requires rest != [] && Run(NEW_PARSER, rest).parser.phase.ExpectRequestLine?
    ensures Run(NEW_PARSER, rest).parser.Valid()
    ensures ParseLoop(Run(NEW_PARSER, rest).parser, rest + ['x'], [], false) != FreshPass(rest + ['x'])
  {
    hide Run, ParseLoop, FindCrlf, OnLine;
    RunInvariant(NEW_PARSER, rest);
    var p, b := Run(NEW_PARSER, rest).parser, rest + ['x'];
    NoneInFirstLine(rest);
    NoCrlfWithX(rest);
    PartialRun(NEW_PARSER, rest);
    PartialRun(NEW_PARSER, b);
    PartialRun(p, b);
    ParseStep(NEW_PARSER, b, [], false);
    ParseStep(p, b, [], false);
  }

  lemma NoneInFirstLine(rest: Text)
    requires Run(NEW_PARSER, rest).parser.phase.ExpectRequestLine?
    ensures FindCrlf(rest).None?
  {
    hide Run, FindCrlf, OnLine;
    if FindCrlf(rest).Some? {
      var i := FindCrlf(rest).value;
      RunAtCrlf(NEW_PARSER, rest, i);
      NeverBack(OnLine(NEW_PARSER, NEW_PARSER.pendingLine + rest[..i]), rest[i + 2..]);
    }
  }

  lemma {:induction false} NeverBack(p: Parser, data: Text)
    requires !p.phase.ExpectRequestLine?
    ensures !Run(p, data).parser.phase.ExpectRequestLine?
    decreases |data|, !p.phase.Final()
  {
    hide OnLine, FindCrlf;
    if data != [] && !p.phase.Final() {
      var s := Step(p, data);
      NeverBack(s.parser, data[s.used..]);
    }
  }

  /** Inside the body the head of the request is taken for body. */
  lemma BodyReread(rest: Text)
    requires rest != [] && Run(NEW_PARSER, rest).parser.phase.ExpectBody?
    ensures Run(NEW_PARSER, rest).parser.Valid()
    ensures ParseLoop(Run(NEW_PARSER, rest).parser, rest + ['x'], [], false) != FreshPass(rest + ['x'])
  {
    hide Run, ParseLoop;
    var p, x := Run(NEW_PARSER, rest).parser, ['x'];
    RunInvariant(NEW_PARSER, rest);
    ParseSplit(NEW_PARSER, rest, x);
    ParseStep(NEW_PARSER, rest + x, [], false);
    ParseStep(p, rest + x, [], false);
    BodyRun(p, x);
    BodyRun(p, rest + x);
    if Run(p, rest + x).isComplete {
      QueueStarts(p, rest + x);
      if Run(p, x).isComplete {
        QueueStarts(NEW_PARSER, rest + x);
      }
    }
  }

  lemma BodyRun(p: Parser, data: Text)
    requires p.Valid() && p.phase.ExpectBody? && data != []
    ensures var r, need := Run(p, data), p.req.contentLength - p.received;
      && !r.hasError && (r.isComplete <==> need <= |data|)
      && (r.isComplete ==> r.used == need)
      && (!r.isComplete ==> r.parser.received == p.received + |data|)
  {
    var s := Step(p, data);
    assert !s.isComplete ==> data[s.used..] == [];
  }

  lemma QueueStarts(p: Parser, data: Text)
    requires p.Valid() && data != [] && Run(p, data).isComplete && !Run(p, data).hasError
    ensures var queue := ParseLoop(p, data, [], false).queue; queue != [] && |queue[0].raw| == Run(p, data).used
  {
    hide Run, ParseLoop;
    ParseStep(p, data, [], false);
    var r := Run(p, data);
    var item := Recognised(r, data);
    Units([item]);
    var items, rest := PassTiles(data[r.used..], [item], !item.request.keepAlive);
  }

  /** Behind an overlong piece the parser does not move any more. */
  lemma OverlongReread(rest: Text)
    requires Overflows(NEW_PARSER, rest)
    ensures Run(NEW_PARSER, rest).parser.Valid()
    ensures ParseLoop(Run(NEW_PARSER, rest).parser, rest + ['x'], [], false) != FreshPass(rest + ['x'])
  {
    hide Run, ParseLoop;
    RunInvariant(NEW_PARSER, rest);
    RunInvariant(NEW_PARSER, rest + ['x']);
    var p := Run(NEW_PARSER, rest).parser;
    OverflowLosesBytes(NEW_PARSER, rest);
    ParseStep(NEW_PARSER, rest + ['x'], [], false);
    ParseStep(p, rest + ['x'], [], false);
    StaysPut(p, rest + ['x']);
  }

  lemma StaysPut(p: Parser, data: Text)
    requires p.phase.Final()
    ensures Run(p, data) == Result(p, 0, false, false)
  {
  }

  /** When the second read, whatever it brings, leaves the very pass that reading the unfinished bytes once would,
      down to the state of the parser: nothing was left unfinished, or the cut is inside the headers and the
      unfinished piece and the request line, read together as one header line, are an acceptable field whose name has
      occurred already. */
  lemma SameStateExact(a: Text)
    requires FreshPass(a).outcome.Alive?
    ensures var p := FreshPass(a);
      (forall b: Text | b != [] :: NextPass(p, b) == FreshPass(p.buffered + b))
      <==> p.buffered == [] || (p.parser.phase.ExpectHeader? && ReadsAsKnownField(p.parser, p.buffered))
  {
    hide Run, ParseLoop, ReadsAsKnownField;
    WholePass(a, []);
    var p := FreshPass(a);
    var rest := p.buffered;
    RunInvariant(NEW_PARSER, rest);
    if rest == [] {
      CompleteOrNot(rest);
      forall b: Text ensures NextPass(p, b) == FreshPass(rest + b) {}
    } else if p.parser.phase.ExpectHeader? {
      HeadersReread(rest);
    } else {
      if p.parser.phase.ExpectRequestLine? {
        FirstLineReread(rest);
      } else if p.parser.phase.ExpectBody? {
        BodyReread(rest);
      } else {
        OverlongReread(rest);
      }
      assert NextPass(p, ['x']) != FreshPass(rest + ['x']);
    }
  }
}
