/** The newline protocol of `EpollConnection::handle_line_protocol`, the echo handler of the server and
    the client's `receive_line`, as functions on the byte stream. */
module LineProtocol {
  import opened Bytes

  datatype Lines = Lines(lines: seq<Text>, rest: Text)

  /** The loop of `handle_line_protocol`: cut at every LF, keep what follows the last one. */
  function SplitLines(s: Text): Lines {
    match Find(s, LF)
    case None => Lines([], s)
    case Some(i) =>
      var later := SplitLines(s[i + 1..]);
      Lines([s[..i]] + later.lines, later.rest)
  }

  /** The messages handed to the handler: stripped lines that are not empty. */
  function Messages(lines: seq<Text>): seq<Text> {
    if lines == [] then []
    else (if StripCr(lines[0]) == [] then [] else [StripCr(lines[0])]) + Messages(lines[1..])
  }

  /** The text made of LF-terminated lines. */
  function Terminated(lines: seq<Text>): Text {
    if lines == [] then [] else lines[0] + [LF] + Terminated(lines[1..])
  }

  ghost predicate LfFree(lines: seq<Text>) {
    forall l | l in lines :: LF !in l
  }

  lemma TerminatedCons(line: Text, lines: seq<Text>)
    ensures Terminated([line] + lines) == line + [LF] + Terminated(lines)
  {
    assert ([line] + lines)[1..] == lines;
  }

  lemma {:induction false} SplitIsExact(s: Text)
    ensures var r := SplitLines(s);
      Terminated(r.lines) + r.rest == s && LfFree(r.lines) && LF !in r.rest
  {
    var f := Find(s, LF);
    if f.None? {
      Units(s);
    } else {
      var line, t := s[..f.value], s[f.value + 1..];
      SplitIsExact(t);
      SplitStep(s, line, t);
    }
  }

  lemma SplitStep(s: Text, line: Text, t: Text)
    requires Find(s, LF) == Some(|line|) && line == s[..|line|] && t == s[|line| + 1..]
    requires var x := SplitLines(t); Terminated(x.lines) + x.rest == t && LfFree(x.lines)
    ensures var r := SplitLines(s); Terminated(r.lines) + r.rest == s && LfFree(r.lines)
  {
    hide Find;
    var later := SplitLines(t);
    TerminatedCons(line, later.lines);
    Assoc(line + [LF], Terminated(later.lines), later.rest);
    SplitAround(s, |line|);
    assert SplitLines(s).lines == [line] + later.lines;
  }

  lemma {:induction false} SplitIsUnique(lines: seq<Text>, rest: Text)
    requires LfFree(lines) && LF !in rest
    ensures SplitLines(Terminated(lines) + rest) == Lines(lines, rest)
  {
    if lines == [] {
      assert [] + rest == rest;
    } else {
      var later := Terminated(lines[1..]) + rest;
      assert Terminated(lines) + rest == lines[0] + [LF] + later;
      FindAt(lines[0], LF, later);
      assert (lines[0] + [LF] + later)[|lines[0]| + 1..] == later;
      assert (lines[0] + [LF] + later)[..|lines[0]|] == lines[0];
      SplitIsUnique(lines[1..], rest);
    }
  }

  lemma TerminatedAppend(xs: seq<Text>, ys: seq<Text>)
    ensures Terminated(xs + ys) == Terminated(xs) + Terminated(ys)
  {
    if xs == [] {
      assert xs + ys == ys;
    } else {
      assert (xs + ys)[1..] == xs[1..] + ys;
      TerminatedAppend(xs[1..], ys);
    }
  }

  lemma MessagesAppend(xs: seq<Text>, ys: seq<Text>)
    ensures Messages(xs + ys) == Messages(xs) + Messages(ys)
  {
    if xs == [] {
      assert xs + ys == ys;
    } else {
      assert (xs + ys)[1..] == xs[1..] + ys;
      MessagesAppend(xs[1..], ys);
    }
  }

  /** Splitting what is left over together with the next bytes continues the split of the whole. */
  lemma SplitAppend(a: Text, b: Text)
    ensures var x := SplitLines(a); var y := SplitLines(x.rest + b);
      SplitLines(a + b) == Lines(x.lines + y.lines, y.rest)
  {
    var x := SplitLines(a);
    var y := SplitLines(x.rest + b);
    SplitIsExact(a);
    SplitIsExact(x.rest + b);
    TerminatedAppend(x.lines, y.lines);
    Assoc(Terminated(x.lines), x.rest, b);
    Assoc(Terminated(x.lines), Terminated(y.lines), y.rest);
    SplitIsUnique(x.lines + y.lines, y.rest);
  }

  /** The decoder over a sequence of reads: `handle_line_protocol` after each, on whatever is buffered. */
  datatype LineDecoder = LineDecoder(handed: seq<Text>, buffered: Text) {
    function Read(chunk: Text): LineDecoder {
      var r := SplitLines(buffered + chunk);
      LineDecoder(handed + Messages(r.lines), r.rest)
    }

    function ReadAll(chunks: seq<Text>): LineDecoder
      decreases |chunks|
    {
      if chunks == [] then this else Read(chunks[0]).ReadAll(chunks[1..])
    }
  }

  const NO_LINES := LineDecoder([], [])

  lemma {:induction false} ReadAllFrom(d: LineDecoder, chunks: seq<Text>)
    requires LF !in d.buffered
    ensures var r := SplitLines(d.buffered + Concat(chunks));
      d.ReadAll(chunks) == LineDecoder(d.handed + Messages(r.lines), r.rest)
    decreases |chunks|
  {
    if chunks == [] {
      assert d.buffered + [] == d.buffered;
      assert d.handed + [] == d.handed;
    } else {
      var x := SplitLines(d.buffered + chunks[0]);
      var later := Concat(chunks[1..]);
      SplitIsExact(d.buffered + chunks[0]);
      ReadAllFrom(d.Read(chunks[0]), chunks[1..]);
      SplitAppend(d.buffered + chunks[0], later);
      Assoc(d.buffered, chunks[0], later);
      var y := SplitLines(x.rest + later);
      MessagesAppend(x.lines, y.lines);
      Assoc(d.handed, Messages(x.lines), Messages(y.lines));
    }
  }

  /** Over any fragmentation the messages handed over are exactly the non-empty lines of the stream, and
      the buffer holds exactly what follows the last LF. */
  lemma LinesOverAnyFragmentation(chunks: seq<Text>, lines: seq<Text>, rest: Text)
    requires LfFree(lines) && LF !in rest
    requires Concat(chunks) == Terminated(lines) + rest
    ensures NO_LINES.ReadAll(chunks) == LineDecoder(Messages(lines), rest)
  {
    hide SplitLines, Messages, Terminated;
    ReadAllFrom(NO_LINES, chunks);
    Units(Concat(chunks));
    SplitIsUnique(lines, rest);
    Units(Messages(lines));
  }

  // ---- Lines as peers write them ----

  /** A line and its ending: LF, or CR and LF. */
  datatype WrittenLine = WrittenLine(text: Text, crlf: bool) {
    /** No LF inside; and behind a plain LF a CR would be taken for part of the ending. */
    predicate Plain() { LF !in text && (crlf || text == [] || text[|text| - 1] != CR) }

    function Raw(): Text { if crlf then text + [CR] else text }
  }

  function Written(ls: seq<WrittenLine>): Text {
    if ls == [] then [] else ls[0].text + (if ls[0].crlf then CRLF else [LF]) + Written(ls[1..])
  }

  function Texts(ls: seq<WrittenLine>): seq<Text> {
    if ls == [] then [] else [ls[0].text] + Texts(ls[1..])
  }

  function NotEmpty(texts: seq<Text>): seq<Text> {
    if texts == [] then [] else (if texts[0] == [] then [] else [texts[0]]) + NotEmpty(texts[1..])
  }

  function RawLines(ls: seq<WrittenLine>): seq<Text> {
    if ls == [] then [] else [ls[0].Raw()] + RawLines(ls[1..])
  }

  lemma {:induction false} RawLinesFacts(ls: seq<WrittenLine>)
    requires forall l | l in ls :: l.Plain()
    ensures Written(ls) == Terminated(RawLines(ls)) && LfFree(RawLines(ls))
    ensures Messages(RawLines(ls)) == NotEmpty(Texts(ls)) && ClientLines(RawLines(ls)) == Texts(ls)
  {
    if ls != [] {
      hide LfFree;
      var l := ls[0];
      assert l in ls && forall m | m in ls[1..] :: m in ls;
      RawLinesFacts(ls[1..]);
      TerminatedCons(l.Raw(), RawLines(ls[1..]));
      Assoc(l.text, [CR], [LF]);
      assert [CR] + [LF] == CRLF;
      RawIsPlain(l);
      LfFreeCons(l.Raw(), RawLines(ls[1..]));
      assert RawLines(ls)[1..] == RawLines(ls[1..]) && Texts(ls)[1..] == Texts(ls[1..]);
    }
  }

  lemma RawIsPlain(l: WrittenLine)
    requires l.Plain()
    ensures StripCr(l.Raw()) == l.text && LF !in l.Raw()
  {
    assert (l.text + [CR])[..|l.text|] == l.text;
  }

  lemma LfFreeCons(line: Text, lines: seq<Text>)
    requires LF !in line && LfFree(lines)
    ensures LfFree([line] + lines)
  {
  }

  /** Whatever mixture of line endings the peer uses and however the stream is cut, the server hands over the lines
      that are not empty without their endings, and the client reads all of them so. */
  lemma WrittenLinesArrive(ls: seq<WrittenLine>, chunks: seq<Text>)
    requires (forall l | l in ls :: l.Plain()) && Concat(chunks) == Written(ls)
    ensures NO_LINES.ReadAll(chunks) == LineDecoder(NotEmpty(Texts(ls)), [])
    ensures ClientLines(SplitLines(Written(ls)).lines) == Texts(ls)
  {
    hide SplitLines, Messages, Terminated, LfFree;
    RawLinesFacts(ls);
    Units(Written(ls));
    LinesOverAnyFragmentation(chunks, RawLines(ls), []);
    SplitIsUnique(RawLines(ls), []);
  }

  /** What the server's message handler sends back. */
  function EchoReply(msg: Text): Text { StripCr(msg) + [LF] }

  /** A message that still ends in CR is sent back without it, any other as it is. */
  lemma EchoReplyExact(m: Text)
    ensures EchoReply(m + [CR]) == m + [LF]
    ensures m == [] || m[|m| - 1] != CR ==> EchoReply(m) == m + [LF]
  {
    assert (m + [CR])[..|m|] == m;
  }

  function EchoReplies(msgs: seq<Text>): Text {
    if msgs == [] then [] else EchoReply(msgs[0]) + EchoReplies(msgs[1..])
  }

  /** The lines `receive_line` returns, call after call, from a stream of complete lines. */
  function ClientLines(lines: seq<Text>): seq<Text> {
    if lines == [] then [] else [StripCr(lines[0])] + ClientLines(lines[1..])
  }

  /** Messages that survive the echo: not empty, no LF inside, no CR at the end. */
  ghost predicate EchoSafe(msgs: seq<Text>) {
    forall m | m in msgs :: m != [] && LF !in m && m[|m| - 1] != CR
  }

  lemma {:induction false} EchoSafeFacts(msgs: seq<Text>)
    requires EchoSafe(msgs)
    ensures LfFree(msgs) && Messages(msgs) == msgs && ClientLines(msgs) == msgs
    ensures EchoReplies(msgs) == Terminated(msgs)
  {
    if msgs != [] {
      assert msgs == [msgs[0]] + msgs[1..];
      EchoSafeFacts(msgs[1..]);
    }
  }

  /** The echo round trip: however the requests are cut up on the way to the server and the replies on the
      way back, the client reads its own messages in order, and nothing is left over on either side. */
  lemma EchoRoundTrip(msgs: seq<Text>, toServer: seq<Text>, toClient: seq<Text>)
    requires EchoSafe(msgs)
    requires Concat(toServer) == Terminated(msgs)
    requires Concat(toClient) == EchoReplies(NO_LINES.ReadAll(toServer).handed)
    ensures NO_LINES.ReadAll(toServer) == LineDecoder(msgs, [])
    ensures SplitLines(Concat(toClient)).rest == [] && ClientLines(SplitLines(Concat(toClient)).lines) == msgs
  {
    EchoSafeFacts(msgs);
    assert Terminated(msgs) + [] == Terminated(msgs);
    LinesOverAnyFragmentation(toServer, msgs, []);
    SplitIsUnique(msgs, []);
  }
}
