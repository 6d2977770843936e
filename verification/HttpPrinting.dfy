/** The requests a peer prints (sections 3, 5 and 6.2 of RFC 9112), and that the parser reads them back. */
module HttpPrinting {
  import opened Config
  import opened Bytes
  import opened HttpText
  import opened HttpParsing
  import opened HttpWords
  import opened HttpFragmentation

  datatype Header = Header(key: Text, value: Text)

  /** A request to be printed: method, target, version, header fields in order, body. */
  datatype Message = Message(method_: Text, target: Text, version: Text, headers: seq<Header>, body: Text) {
    function FirstLine(): Text { method_ + [' '] + target + [' '] + version }

    function Print(): Text { FirstLine() + CRLF + (HeadersText(headers) + (CRLF + body)) }

    /** Everything in front of the body. */
    function Head(): Text { FirstLine() + CRLF + (HeadersText(headers) + CRLF) }

    ghost predicate WellFormed() {
      && IsWord(method_) && IsWord(target) && IsWord(version)
      && (|version| >= 5 ==> version[..5] == "HTTP/")
      && (forall h | h in headers :: GoodHeader(h))
      && |body| <= MAX_HTTP_BODY_SIZE
      && (forall h | h in headers && SameName(h.key, "content-length") :: h.value == Decimal(|body|))
      && (body == [] || LastValue(headers, "content-length").Some?)
    }

    /** What the parser should make of the header fields `hs` of this message. */
    function Seen(hs: seq<Header>): Request {
      NEW_REQUEST.(
      method_ := method_, path := target, version := version,
      headers := HeaderMap(hs),
      keepAlive := match LastValue(hs, "connection") case None => true case Some(v) => !SameName(v, "close"),
      contentLength := if LastValue(hs, "content-length").Some? then |body| else 0,
      host := OrEmpty(LastValue(hs, "host")),
      userAgent := OrEmpty(LastValue(hs, "user-agent")),
      contentType := OrEmpty(LastValue(hs, "content-type")))
    }

    /** The request the message stands for: HTTP/1.0 keeps the connection only when told to. */
    function Parsed(): Request {
      var seen := Seen(headers);
      var m := HeaderMap(headers);
      seen.(
      keepAlive := if version == "HTTP/1.0" then "Connection" in m && SameName(m["Connection"], "keep-alive")
                   else seen.keepAlive,
      contentLength := |body|,
      body := body)
    }
  }

  ghost predicate GoodHeader(h: Header) {
    && h.key != [] && Trimmed(h.key) && ':' !in h.key && !HasCrlf(h.key)
    && Trimmed(h.value) && !HasCrlf(h.value)
  }

  function HeaderText(h: Header): Text { h.key + [':'] + ([' '] + h.value) }

  function HeadersText(hs: seq<Header>): Text {
    if hs == [] then [] else HeaderText(hs[0]) + CRLF + HeadersText(hs[1..])
  }

  /** The value of the last field of that name, in any mixture of case. */
  function LastValue(hs: seq<Header>, name: Text): Option<Text> {
    if hs == [] then None
    else if SameName(hs[|hs| - 1].key, name) then Some(hs[|hs| - 1].value)
    else LastValue(hs[..|hs| - 1], name)
  }

  /** Fields by their exact key; the last one wins. */
  function HeaderMap(hs: seq<Header>): map<Text, Text> {
    if hs == [] then map[] else HeaderMap(hs[..|hs| - 1])[hs[|hs| - 1].key := hs[|hs| - 1].value]
  }

  function OrEmpty(v: Option<Text>): Text { match v case None => [] case Some(s) => s }

  lemma HeaderLineReads(req: Request, h: Header)
    requires GoodHeader(h)
    ensures HeaderLine(req, HeaderText(h)) == ApplyHeader(req, h.key, h.value)
  {
    var line := HeaderText(h);
    var tail := [' '] + h.value;
    FindAt(h.key, ':', tail);
    assert line[..|h.key|] == h.key && line[|h.key| + 1..] == tail;
    TrimOfTrimmed(h.key);
    TrimOfTrimmed(h.value);
  }

  lemma HeaderTextIsLine(h: Header)
    requires GoodHeader(h)
    ensures var line := HeaderText(h); line != [] && !HasCrlf(line) && line[|line| - 1] != CR
  {
    var line := HeaderText(h);
    var k := |h.key|;
    assert line[k] == ':' && line[k + 1] == ' ';
    forall i ensures !CrlfAt(line, i) {
      if CrlfAt(line, i) {
        if i + 1 < k {
          assert CrlfAt(h.key, i);
        } else if i > k + 1 {
          assert line[i] == h.value[i - k - 2] && line[i + 1] == h.value[i - k - 1];
          assert CrlfAt(h.value, i - k - 2);
        }
      }
    }
    assert h.value != [] ==> line[|line| - 1] == h.value[|h.value| - 1];
  }

  lemma SeenNext(m: Message, hs: seq<Header>, h: Header)
    requires SameName(h.key, "content-length") ==> h.value == Decimal(|m.body|)
    requires |m.body| <= MAX_HTTP_BODY_SIZE
    ensures ApplyHeader(m.Seen(hs), h.key, h.value) == (true, m.Seen(hs + [h]))
  {
    hide Stoul, ToLower, LastValue, HeaderMap, Decimal, SameName;
    StoulOfDecimal(|m.body|);
    LastOfAppend(hs, h);
    DistinctNames();
    MatchesNames(h.key, h.value);
  }

  lemma MatchesNames(key: Text, value: Text)
    ensures ToLower(key) == "content-length" <==> SameName(key, "content-length")
    ensures ToLower(key) == "connection" <==> SameName(key, "connection")
    ensures ToLower(key) == "host" <==> SameName(key, "host")
    ensures ToLower(key) == "user-agent" <==> SameName(key, "user-agent")
    ensures ToLower(key) == "content-type" <==> SameName(key, "content-type")
    ensures ToLower(value) == "close" <==> SameName(value, "close")
    ensures ToLower(value) == "keep-alive" <==> SameName(value, "keep-alive")
  {
    hide ToLower, SameName;
    MatchesExact(key, "content-length");
    MatchesExact(key, "connection");
    MatchesExact(key, "host");
    MatchesExact(key, "user-agent");
    MatchesExact(key, "content-type");
    MatchesExact(value, "close");
    MatchesExact(value, "keep-alive");
  }

  lemma LastOfAppend(hs: seq<Header>, h: Header)
    ensures forall n: Text :: LastValue(hs + [h], n) == if SameName(h.key, n) then Some(h.value) else LastValue(hs, n)
    ensures HeaderMap(hs + [h]) == HeaderMap(hs)[h.key := h.value]
  {
    var next := hs + [h];
    assert next[..|next| - 1] == hs && next[|next| - 1] == h;
  }

  lemma DistinctNames()
    ensures "content-length" != "connection" && "content-length" != "host" && "content-length" != "user-agent"
    ensures "content-length" != "content-type" && "connection" != "host" && "connection" != "user-agent"
    ensures "connection" != "content-type" && "host" != "user-agent" && "host" != "content-type"
    ensures "user-agent" != "content-type"
  {
    assert |"content-length"| == 14 && |"connection"| == 10 && |"host"| == 4 && |"user-agent"| == 10;
    assert |"content-type"| == 12 && "connection"[0] == 'c' && "user-agent"[0] == 'u';
  }

  function Awaiting(m: Message, n: nat): Parser
    requires n <= |m.headers|
  {
    Parser(ExpectHeader, m.Seen(m.headers[..n]), [], 0)
  }

  /** The result the message should give, `used` bytes into the call. */
  function Done(m: Message, used: nat): Result {
    Result(Parser(Complete, m.Parsed(), [], |m.body|), used, false, true)
  }

  /** The parser behind the headers of the message. */
  function AtBody(m: Message): Parser {
    Parser(if m.body == [] then Complete else ExpectBody, m.Parsed().(body := []), [], 0)
  }

  lemma {:induction false} HeadersRead(m: Message, n: nat, data: Text)
    requires m.WellFormed() && n <= |m.headers|
    ensures var text := HeadersText(m.headers[n..]) + CRLF;
      Run(Awaiting(m, n), text + data)
      == Result(AtBody(m), |text|, false, m.body == []).Then(Run(AtBody(m), data))
    decreases |m.headers| - n
  {
    hide Run, Step, OnLine, FindCrlf, AtBody;
    var p := Awaiting(m, n);
    var hs := m.headers[n..];
    var text := HeadersText(hs) + CRLF;
    if hs == [] {
      assert m.headers[..n] == m.headers;
      assert text == CRLF;
      EndRead(m, data);
    } else {
      var h := m.headers[n];
      assert hs[0] == h && hs[1..] == m.headers[n + 1..] && h in m.headers;
      var line := HeaderText(h);
      var later := HeadersText(m.headers[n + 1..]) + CRLF;
      HeaderTextIsLine(h);
      assert text + data == line + CRLF + (later + data) by {
        Assoc(line + CRLF, HeadersText(m.headers[n + 1..]), CRLF);
        Assoc(line + CRLF, later, data);
      }
      FindCrlfAt(line, later + data);
      HeaderStep(m, n, line);
      LineThenRest(p, line, later + data);
      HeadersRead(m, n + 1, data);
    }
  }

  lemma HeaderStep(m: Message, n: nat, line: Text)
    requires m.WellFormed() && n < |m.headers| && line == HeaderText(m.headers[n])
    ensures OnLine(Awaiting(m, n), line) == Awaiting(m, n + 1)
  {
    hide ApplyHeader, HeaderLine, Message.Seen;
    var h := m.headers[n];
    assert h in m.headers;
    HeaderTextIsLine(h);
    HeaderLineReads(m.Seen(m.headers[..n]), h);
    SeenNext(m, m.headers[..n], h);
    assert m.headers[..n] + [h] == m.headers[..n + 1];
  }

  /** A line the CRLF search finds whole is processed and the call goes on behind it. */
  lemma LineThenRest(p: Parser, line: Text, rest: Text)
    requires p.phase.Line() && p.pendingLine == []
    requires FindCrlf(line + CRLF + rest) == Some(|line|)
    ensures var q := OnLine(p, line);
      Run(p, line + CRLF + rest) == Result(q, |line| + 2, q.phase.Error?, q.phase.Complete?).Then(Run(q, rest))
  {
    hide OnLine, FindCrlf;
    var data := line + CRLF + rest;
    RunAtCrlf(p, data, |line|);
    assert data[..|line|] == line && data[|line| + 2..] == rest && [] + line == line;
  }

  /** The empty line ends the headers: the body comes next, unless there is none. */
  lemma HeadersEnd(m: Message)
    requires m.WellFormed()
    ensures OnLine(Awaiting(m, |m.headers|), []) == AtBody(m)
  {
    assert m.headers[..|m.headers|] == m.headers;
    assert m.Seen(m.headers).contentLength == |m.body|;
  }

  lemma EndRead(m: Message, data: Text)
    requires m.WellFormed()
    ensures Run(Awaiting(m, |m.headers|), CRLF + data)
         == Result(AtBody(m), 2, false, m.body == []).Then(Run(AtBody(m), data))
  {
    hide OnLine, FindCrlf, Message.Parsed, Message.Seen, Run;
    FindCrlfAt([], data);
    Units(CRLF);
    LineThenRest(Awaiting(m, |m.headers|), [], data);
    HeadersEnd(m);
  }

  lemma ParsedBody(m: Message)
    ensures m.Parsed().contentLength == |m.body| && m.Parsed().body == m.body
  {
  }

  lemma BodyRead(m: Message, suffix: Text)
    ensures Result(AtBody(m), 0, false, m.body == []).Then(Run(AtBody(m), m.body + suffix)) == Done(m, |m.body|)
  {
    hide Message.Parsed, Message.Seen;
    ParsedBody(m);
    if m.body != [] {
      var rest := m.body + suffix;
      CutConcat(m.body, suffix, |m.body|);
      Units(m.body);
      assert Step(AtBody(m), rest) == Done(m, |m.body|);
      assert Run(AtBody(m), rest) == Done(m, |m.body|);
    }
  }

  lemma FirstLineReads(m: Message)
    requires m.WellFormed()
    ensures OnLine(NEW_PARSER, m.FirstLine()) == Awaiting(m, 0)
  {
    FirstLineHasNoCr(m);
    ThreeWords(m.method_, m.target, m.version);
    assert m.headers[..0] == [];
    assert Words(StripCr(m.FirstLine())) == [m.method_, m.target, m.version];
  }

  lemma FirstLineHasNoCr(m: Message)
    requires IsWord(m.method_) && IsWord(m.target) && IsWord(m.version)
    ensures !HasCrlf(m.FirstLine()) && m.FirstLine() != [] && m.FirstLine()[|m.FirstLine()| - 1] != CR
  {
    var line := m.FirstLine();
    var front := m.method_ + [' '] + m.target + [' '];
    assert line == front + m.version;
    forall i | 0 <= i < |line| ensures line[i] != CR {
      if i < |front| {
        assert line[i] == front[i];
        assert front[i] in m.method_ || front[i] == ' ' || front[i] in m.target;
      } else {
        assert line[i] == m.version[i - |front|] && line[i] in m.version;
      }
    }
  }

  lemma HeadRead(m: Message, data: Text)
    requires m.WellFormed()
    ensures Run(NEW_PARSER, m.Head() + data)
         == Result(AtBody(m), |m.Head()|, false, m.body == []).Then(Run(AtBody(m), data))
  {
    hide Run, Step, OnLine, FindCrlf, AtBody;
    var line := m.FirstLine();
    var later := HeadersText(m.headers) + CRLF;
    FirstLineReads(m);
    FirstLineHasNoCr(m);
    Assoc(line + CRLF, later, data);
    FindCrlfAt(line, later + data);
    LineThenRest(NEW_PARSER, line, later + data);
    assert m.headers[0..] == m.headers;
    HeadersRead(m, 0, data);
  }

  lemma HeadThenBody(m: Message)
    ensures m.Print() == m.Head() + m.body
  {
    hide Message.FirstLine;
    Assoc(HeadersText(m.headers), CRLF, m.body);
    Assoc(m.FirstLine() + CRLF, HeadersText(m.headers) + CRLF, m.body);
  }

  /** A printed request, whatever comes behind it, is parsed in one call into exactly its parts, and exactly
      its bytes are consumed. */
  lemma PrintedRequestParses(m: Message, suffix: Text)
    requires m.WellFormed()
    ensures Run(NEW_PARSER, m.Print() + suffix) == Done(m, |m.Print()|)
  {
    hide Run, AtBody, Message.Head, Message.Print, Message.Parsed;
    HeadThenBody(m);
    Assoc(m.Head(), m.body, suffix);
    HeadRead(m, m.body + suffix);
    BodyRead(m, suffix);
  }

  // ---- Which lines stop the parser ----

  /** A request line the parser goes on from: three words set off by white space, with an acceptable version. */
  ghost predicate AcceptableFirst(line: Text) {
    exists m: Text, t: Text, v: Text :: IsFirstLine(line, m, t, v) && GoodVersion(v)
  }

  /** A name that is not blank; and if it is Content-Length in any mixture of case, a number within the limit. */
  ghost predicate AcceptableField(key: Text, value: Text) {
    && ':' !in key
    && exists name: Text, core: Text ::
         && IsCore(key, name) && name != [] && IsCore(value, core)
         && (SameName(name, "content-length") ==> exists n: nat :: IsNumber(core, n) && n <= MAX_HTTP_BODY_SIZE)
  }

  /** A header line it goes on from: a name, a colon, a value. */
  ghost predicate AcceptableHeader(line: Text) {
    exists key: Text, value: Text :: line == key + [':'] + value && AcceptableField(key, value)
  }

  lemma FirstLineExact(line: Text)
    requires !HasCrlf(line)
    ensures Run(NEW_PARSER, line + CRLF).hasError <==> !AcceptableFirst(line)
  {
    hide Run, RequestLine, AcceptableFirst;
    LineAlone(NEW_PARSER, line);
    Units(line);
    FirstAccepted(line);
  }

  lemma FirstAccepted(line: Text)
    ensures RequestLine(NEW_REQUEST, line).0 <==> AcceptableFirst(line)
  {
    hide RequestLine, IsFirstLine, GoodVersion;
    RequestLineExact(line);
  }

  lemma HeaderLineExact(p: Parser, line: Text)
    requires p.Valid() && p.phase.ExpectHeader? && p.pendingLine + line != [] && !HasCrlf(line)
    ensures Run(p, line + CRLF).hasError <==> !AcceptableHeader(p.pendingLine + line)
  {
    hide Run, HeaderLine, AcceptableHeader;
    LineAlone(p, line);
    HeaderAccepted(p.req, p.pendingLine + line);
  }

  lemma HeaderAccepted(req: Request, line: Text)
    ensures HeaderLine(req, line).0 <==> AcceptableHeader(line)
  {
    hide HeaderLine, AcceptableField;
    if AcceptableHeader(line) {
      var key, value :| line == key + [':'] + value && AcceptableField(key, value);
      FieldAccepted(req, key, value);
    }
    var colon := Find(line, ':');
    if colon.None? {
      NoColon(req, line);
    } else {
      SplitAround(line, colon.value);
      FieldAccepted(req, line[..colon.value], line[colon.value + 1..]);
    }
  }

  lemma NoColon(req: Request, line: Text)
    requires ':' !in line
    ensures !HeaderLine(req, line).0
  {
  }

  lemma FieldAccepted(req: Request, key: Text, value: Text)
    ensures AcceptableField(key, value) ==> HeaderLine(req, key + [':'] + value).0
    ensures ':' !in key && HeaderLine(req, key + [':'] + value).0 ==> AcceptableField(key, value)
  {
    hide Stoul, ToLower, Trim, Find, IsCore, IsNumber, SameName, AcceptableField;
    FieldByParts(key, value);
    if ':' !in key {
      var line := key + [':'] + value;
      FindAt(key, ':', value);
      assert line[..|key|] == key && line[|key| + 1..] == value;
    }
  }

  lemma FieldByParts(key: Text, value: Text)
    ensures AcceptableField(key, value) <==>
            && ':' !in key && Trim(key) != []
            && (ToLower(Trim(key)) == "content-length" ==>
                Stoul(Trim(value)).Some? && Stoul(Trim(value)).value <= MAX_HTTP_BODY_SIZE)
  {
    hide Stoul, ToLower, Trim, IsCore, IsNumber, SameName;
    var name, core := Trim(key), Trim(value);
    forall r: Text ensures IsCore(key, r) <==> r == name {
      TrimExact(key, r);
    }
    forall r: Text ensures IsCore(value, r) <==> r == core {
      TrimExact(value, r);
    }
    MatchesNames(name, core);
    forall n: nat ensures IsNumber(core, n) <==> Stoul(core) == Some(n) {
      StoulExact(core, n);
    }
    assert IsCore(key, name) && IsCore(value, core);
  }

  /** What an acceptable header line does: the trimmed value is recorded under the trimmed name, and five names have
      a further effect in any mixture of case. */
  lemma HeaderEffect(req: Request, key: Text, value: Text, name: Text, core: Text)
    requires AcceptableField(key, value) && IsCore(key, name) && IsCore(value, core)
    ensures var (ok, r) := HeaderLine(req, key + [':'] + value);
      && ok && r.headers == req.headers[name := core]
      && (if SameName(name, "content-length") then IsNumber(core, r.contentLength)
          else r.contentLength == req.contentLength)
      && r.keepAlive == (if SameName(name, "connection") then !SameName(core, "close") else req.keepAlive)
      && r.host == (if SameName(name, "host") then core else req.host)
      && r.userAgent == (if SameName(name, "user-agent") then core else req.userAgent)
      && r.contentType == (if SameName(name, "content-type") then core else req.contentType)
  {
    hide Stoul, ToLower, Trim, Find, IsCore, IsNumber, SameName, AcceptableField;
    FieldByParts(key, value);
    TrimExact(key, name);
    TrimExact(value, core);
    MatchesNames(name, core);
    DistinctNames();
    var line := key + [':'] + value;
    FindAt(key, ':', value);
    assert line[..|key|] == key && line[|key| + 1..] == value;
    if ToLower(name) == "content-length" {
      StoulExact(core, Stoul(core).value);
    }
  }

  /** One line by itself is one round. */
  lemma LineAlone(p: Parser, line: Text)
    requires p.phase.Line() && !HasCrlf(line)
    ensures Run(p, line + CRLF).hasError == OnLine(p, p.pendingLine + line).phase.Error?
  {
    hide OnLine, FindCrlf;
    Units(line + CRLF);
    FindCrlfAt(line, []);
    CutConcat(line, CRLF, |line|);
    assert line[..|line|] == line;
    RunAtCrlf(p, line + CRLF, |line|);
    assert (line + CRLF)[|line| + 2..] == [];
  }
}
