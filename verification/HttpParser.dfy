/** src/http/http_types.cpp: the incremental HTTP/1.1 request parser. `Run` says what one call of `parse`
    does to the parser's fields; the class carries the loop out. */
module HttpParsing {
  import opened Config
  import opened Bytes
  import opened HttpText

  datatype Request = Request(
    method_: Text,
    path: Text,
    version: Text,
    headers: map<Text, Text>,
    keepAlive: bool,
    contentLength: nat,
    host: Text,
    userAgent: Text,
    contentType: Text,
    body: Text,
    parseSuccess: bool,
    parserError: Text)

  const NEW_REQUEST := Request([], [], [], map[], true, 0, [], [], [], [], false, [])

  datatype Phase = ExpectRequestLine | ExpectHeader | ExpectBody | Complete | Error {
    predicate Line() { ExpectRequestLine? || ExpectHeader? }

    predicate Final() { Complete? || Error? }
  }

  /** The fields of the parser; `pendingLine` is `temp_buffer_`. */
  datatype Parser = Parser(phase: Phase, req: Request, pendingLine: Text, received: nat) {
    /** Holds of every parser that was constructed or reset and then fed any data. */
    ghost predicate Valid() {
      && (phase.Line() ==> req.body == [] && received == 0 && |pendingLine| <= MAX_HTTP_HEADER_SIZE)
      && (phase.ExpectRequestLine? ==> req == NEW_REQUEST)
      && (phase.ExpectBody? ==> pendingLine == [] && received == |req.body| < req.contentLength)
      && (phase.Complete? ==> pendingLine == [] && |req.body| == req.contentLength)
      && (!phase.Error? ==> req.contentLength <= MAX_HTTP_BODY_SIZE && req.parserError == [])
    }
  }

  const NEW_PARSER := Parser(ExpectRequestLine, NEW_REQUEST, [], 0)

  /** `parse_request_line`: three words and, if the third has five characters or more, an HTTP/ prefix. */
  function RequestLine(req: Request, line: Text): (r: (bool, Request))
    ensures r.1.body == req.body && r.1.contentLength == req.contentLength
    ensures r.0 ==> r.1.parserError == req.parserError
  {
    var w := Words(StripCr(line));
    var r := req.(method_ := if |w| > 0 then w[0] else req.method_,
                  path := if |w| > 1 then w[1] else req.path,
                  version := if |w| > 2 then w[2] else req.version);
    if |w| < 3 then (false, r.(parserError := "Invalid request line"))
    else if |r.version| >= 5 && r.version[..5] != "HTTP/" then (false, r.(parserError := "Invalid HTTP version"))
    else (true, r)
  }

  /** The effect of one header, its name compared without regard to case. */
  function ApplyHeader(req: Request, key: Text, value: Text): (r: (bool, Request))
    ensures r.1.body == req.body
    ensures r.0 ==> r.1.parserError == req.parserError
    ensures r.0 && req.contentLength <= MAX_HTTP_BODY_SIZE ==> r.1.contentLength <= MAX_HTTP_BODY_SIZE
  {
    var r := req.(headers := req.headers[key := value]);
    var name := ToLower(key);
    if name == "content-length" then
      match Stoul(value)
      case None => (false, r.(parserError := "Invalid content-length"))
      case Some(n) =>
        if n > MAX_HTTP_BODY_SIZE then (false, r.(contentLength := n, parserError := "Content too large"))
        else (true, r.(contentLength := n))
    else if name == "connection" then (true, r.(keepAlive := ToLower(value) != "close"))
    else if name == "host" then (true, r.(host := value))
    else if name == "user-agent" then (true, r.(userAgent := value))
    else if name == "content-type" then (true, r.(contentType := value))
    else (true, r)
  }

  /** `parse_header_line` on a line that is not empty. */
  function HeaderLine(req: Request, line: Text): (r: (bool, Request))
    ensures r.1.body == req.body
    ensures r.0 ==> r.1.parserError == req.parserError
    ensures r.0 && req.contentLength <= MAX_HTTP_BODY_SIZE ==> r.1.contentLength <= MAX_HTTP_BODY_SIZE
  {
    match Find(line, ':')
    case None => (false, req.(parserError := "Invalid HTTP header line: " + line))
    case Some(colon) =>
      var key := Trim(line[..colon]);
      if key == [] then (false, req.(parserError := "Empty header key"))
      else ApplyHeader(req, key, Trim(line[colon + 1..]))
  }

  /** `check_headers`: HTTP/1.0 closes unless a header spelled exactly "Connection" says keep-alive. */
  function CheckHeaders(req: Request): (r: Request)
    ensures r.body == req.body && r.contentLength == req.contentLength && r.parserError == req.parserError
  {
    if req.version == "HTTP/1.0" then
      req.(keepAlive := "Connection" in req.headers && ToLower(req.headers["Connection"]) == "keep-alive")
    else req
  }

  /** One whole line, CRLF removed. */
  function OnLine(p: Parser, line: Text): (r: Parser)
    requires p.phase.Line()
    ensures r.pendingLine == [] && !r.phase.ExpectRequestLine?
    ensures p.Valid() ==> r.Valid()
  {
    var q := p.(pendingLine := []);
    if p.phase.ExpectRequestLine? then
      var (ok, r) := RequestLine(p.req, line);
      q.(req := r, phase := if ok then ExpectHeader else Error)
    else if line == [] then
      var r := CheckHeaders(p.req);
      q.(req := r, phase := if r.contentLength > 0 then ExpectBody else Complete)
    else
      var (ok, r) := HeaderLine(p.req, line);
      q.(req := r, phase := if ok then ExpectHeader else Error)
  }

  /** A piece of a line whose end is not there yet. The size limit is looked at only here. */
  function OnPartialLine(p: Parser, piece: Text): (r: Parser)
    ensures p.Valid() && p.phase.Line() ==> r.Valid()
  {
    var q := p.(pendingLine := p.pendingLine + piece);
    if |q.pendingLine| > MAX_HTTP_HEADER_SIZE then q.(phase := Error, req := q.req.(parserError := "Header too large"))
    else q
  }

  function OnBody(p: Parser, piece: Text): (r: Parser)
    ensures p.Valid() && p.phase.ExpectBody? && p.received + |piece| <= p.req.contentLength ==> r.Valid()
  {
    var q := p.(req := p.req.(body := p.req.body + piece), received := p.received + |piece|);
    if q.received >= q.req.contentLength then q.(phase := Complete) else q
  }

  /** `consumed_bytes`, the two flags, and the parser afterwards. */
  datatype Result = Result(parser: Parser, used: nat, hasError: bool, isComplete: bool) {
    /** This call, then one whose result is `later`. */
    function Then(later: Result): Result {
      Result(later.parser, used + later.used, hasError || later.hasError, isComplete || later.isComplete)
    }
  }

  /** How much of `data` belongs to the body. */
  function BodyTake(p: Parser, data: Text): (n: nat)
    ensures n <= |data|
  {
    var need := p.req.contentLength - p.received;
    if need < 0 then 0 else if need <= |data| then need else |data|
  }

  /** One iteration of the loop in `parse`. */
  function Step(p: Parser, data: Text): (r: Result)
    requires data != [] && !p.phase.Final()
    ensures r.used <= |data| && (r.used > 0 || r.parser.phase.Final())
    ensures p.Valid() ==> r.parser.Valid() && r.used > 0
  {
    if p.phase.Line() then
      match FindCrlf(data)
      case None => Result(OnPartialLine(p, data), |data|, false, false)
      case Some(i) =>
        var q := OnLine(p, p.pendingLine + data[..i]);
        Result(q, i + 2, q.phase.Error?, q.phase.Complete?)
    else
      var q := OnBody(p, data[..BodyTake(p, data)]);
      Result(q, BodyTake(p, data), false, q.phase.Complete?)
  }

  /** `parse(data, len)`. */
  function Run(p: Parser, data: Text): (r: Result)
    ensures r.used <= |data|
    decreases |data|, !p.phase.Final()
  {
    if data == [] || p.phase.Final() then Result(p, 0, false, false)
    else
      var s := Step(p, data);
      s.Then(Run(s.parser, data[s.used..]))
  }

  /** Over the whole run: the invariant is kept; a call consumes everything or stops at a final state, and
      makes progress unless there was nothing to do; the flags say what happened. */
  lemma {:induction false} RunInvariant(p: Parser, data: Text)
    requires p.Valid()
    ensures var r := Run(p, data);
      && r.parser.Valid()
      && (r.used == |data| || r.parser.phase.Final())
      && (data != [] && !p.phase.Final() ==> r.used > 0)
      && (r.isComplete <==> r.parser.phase.Complete? && !p.phase.Complete?)
      && (r.hasError ==> r.parser.phase.Error? && !p.phase.Error?)
    decreases |data|
  {
    if data != [] && !p.phase.Final() {
      var s := Step(p, data);
      RunInvariant(s.parser, data[s.used..]);
    }
  }

  /** `done` is what a call on `data` has come to after some iterations. */
  ghost predicate Underway(p: Parser, data: Text, done: Result) {
    && done.used <= |data| && done.parser.Valid()
    && Run(p, data) == done.Then(Run(done.parser, data[done.used..]))
  }

  lemma OneMoreStep(p: Parser, data: Text, done: Result)
    requires Underway(p, data, done) && done.used < |data| && !done.parser.phase.Final()
    ensures Underway(p, data, done.Then(Step(done.parser, data[done.used..])))
  {
    hide Step;
    var rest := data[done.used..];
    var s := Step(done.parser, rest);
    DropDrop(data, done.used, s.used);
    assert Run(done.parser, rest) == s.Then(Run(s.parser, rest[s.used..]));
  }

  class HttpParser {
    var state: Phase
    var currentReq: Request
    var tempBuffer: Text
    var bodyReceived: nat
    var currentRequestStartIndex: nat

    function View(): Parser
      reads this
    {
      Parser(state, currentReq, tempBuffer, bodyReceived)
    }

    constructor ()
      ensures View() == NEW_PARSER
    {
      state, currentReq, tempBuffer, bodyReceived := ExpectRequestLine, NEW_REQUEST, [], 0;
    }

    method Reset()
      modifies this
      ensures View() == NEW_PARSER && currentRequestStartIndex == old(currentRequestStartIndex)
    {
      state, currentReq, tempBuffer, bodyReceived := ExpectRequestLine, NEW_REQUEST, [], 0;
    }

    /** A complete line: the request line, a header, or the empty line that ends the headers. */
    method TakeLine(line: Text) returns (failed: bool)
      requires state.Line()
      modifies this`state, this`currentReq, this`tempBuffer
      ensures View() == OnLine(old(View()), line) && (failed <==> state == Error)
    {
      tempBuffer, failed := [], false;
      if state == ExpectRequestLine {
        var (ok, req) := RequestLine(currentReq, line);
        currentReq, failed := req, !ok;
        state := if ok then ExpectHeader else Error;
      } else if line == [] {
        currentReq := CheckHeaders(currentReq);
        state := if currentReq.contentLength > 0 then ExpectBody else Complete;
      } else {
        var (ok, req) := HeaderLine(currentReq, line);
        currentReq, failed := req, !ok;
        state := if ok then ExpectHeader else Error;
      }
    }

    method TakeBody(piece: Text)
      requires state == ExpectBody
      modifies this`state, this`currentReq, this`bodyReceived
      ensures View() == OnBody(old(View()), piece)
    {
      currentReq := currentReq.(body := currentReq.body + piece);
      bodyReceived := bodyReceived + |piece|;
      if bodyReceived >= currentReq.contentLength {
        state := Complete;
      }
    }

    /** A line whose end is not in sight. */
    method TakePartialLine(piece: Text)
      modifies this`state, this`currentReq, this`tempBuffer
      ensures View() == OnPartialLine(old(View()), piece)
    {
      tempBuffer := tempBuffer + piece;
      if |tempBuffer| > MAX_HTTP_HEADER_SIZE {
        state, currentReq := Error, currentReq.(parserError := "Header too large");
      }
    }

    /** The body of the loop: one line, one partial line or one piece of the body. */
    method Advance(rest: Text) returns (used: nat, failed: bool)
      requires rest != [] && !state.Final()
      modifies this`state, this`currentReq, this`tempBuffer, this`bodyReceived
      ensures Result(View(), used, failed, state == Complete) == Step(old(View()), rest)
    {
      failed := false;
      if state.Line() {
        var crlf := FindCrlf(rest);
        if crlf.None? {
          TakePartialLine(rest);
          used := |rest|;
        } else {
          failed := TakeLine(tempBuffer + rest[..crlf.value]);
          used := crlf.value + 2;
        }
      } else {
        used := BodyTake(View(), rest);
        TakeBody(rest[..used]);
      }
    }

    /** The start index is 0 from the first call on, so the total length of a request is what was consumed. */
    method Parse(data: Text)
      returns (consumed: nat, hasError: bool, isComplete: bool, requestStartIndex: nat, requestTotalLen: nat)
      requires View().Valid()
      requires state.ExpectRequestLine? || currentRequestStartIndex == 0
      modifies this
      ensures View().Valid() && currentRequestStartIndex == 0
      ensures Result(View(), consumed, hasError, isComplete) == Run(old(View()), data)
      ensures requestStartIndex == 0 && requestTotalLen == if isComplete then consumed else 0
    {
      ghost var done := Result(View(), 0, false, false);
      consumed, hasError, isComplete, requestStartIndex, requestTotalLen := 0, false, false, 0, 0;
      if state == ExpectRequestLine {
        currentRequestStartIndex := 0;
      }
      while consumed < |data| && !state.Final()
        invariant done == Result(View(), consumed, hasError, isComplete)
        invariant Underway(old(View()), data, done)
        invariant currentRequestStartIndex == 0
        invariant requestStartIndex == 0 && requestTotalLen == if isComplete then consumed else 0
        invariant isComplete || hasError ==> state.Final()
        decreases |data| - consumed
      {
        OneMoreStep(old(View()), data, done);
        var rest := data[consumed..];
        done := done.Then(Step(done.parser, rest));
        var used, failed := Advance(rest);
        consumed, hasError := consumed + used, failed;
        if state == Complete {
          isComplete := true;
          requestStartIndex, requestTotalLen := currentRequestStartIndex, consumed - currentRequestStartIndex;
        }
      }
    }

    /** Hand the request over and start afresh. */
    method GetRequest() returns (req: Request)
      modifies this
      ensures req == old(currentReq).(parseSuccess := old(state).Complete?)
      ensures View() == NEW_PARSER && currentRequestStartIndex == old(currentRequestStartIndex)
    {
      req := currentReq.(parseSuccess := state.Complete?);
      Reset();
    }
  }
}
