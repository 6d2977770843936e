/** src/net/base_connection.cpp and src/net/epoll_connection.cpp: one connection, its two buffers, its parser and
    its decoder state. What the handlers are given is recorded, and what they do in return is a parameter. */
module Connections {
  import opened Config
  import opened Bytes
  import opened Sockets
  import opened Buffers
  import opened HttpParsing
  import opened HttpPipeline
  import opened LineProtocol
  import opened LengthPrefix
  import opened Serving

  datatype Mode = HttpMode | ProtobufMode | LineMode

  const BAD_REQUEST: Text := "HTTP/1.1 400 Bad Request\r\nContent-Length:0\r\nConnection: close\r\n\r\n"
  const INTERNAL_ERROR: Text := "HTTP/1.1 500 Internal Server Error\r\nContent-Length:0\r\nConnection: close\r\n\r\n"

  /** What one call of `read_fd` adds behind the buffered bytes. */
  function Arriving(b: Buf, events: seq<ReadEvent>): (t: Text)
    requires b.Valid()
    ensures b.bytes + t == ReadLoop(StartReading(b, events)).buf.bytes
  {
    NothingLost(b, events);
    ReadLoop(StartReading(b, events)).buf.bytes[|b.bytes|..]
  }

  lemma NothingLost(b: Buf, events: seq<ReadEvent>)
    requires b.Valid()
    ensures var all := ReadLoop(StartReading(b, events)).buf.bytes;
      |b.bytes| <= |all| && b.bytes + all[|b.bytes|..] == all
  {
    hide ReadLoop;
    ReadLoopConserves(StartReading(b, events));
  }

  lemma NewParserIsValid()
    ensures NEW_PARSER.Valid()
  {
  }

  /** What one round of the length-prefix loop does to the whole: read a header if none has been read, then take
      the payload if it is there. */
  lemma DrainStep(d: Decoder)
    requires d.alive && |d.buffered| >= 4
    ensures var e := AfterHeader(d);
      d.Drain() == if !d.lengthRead && e.expected > MAX_FRAME_SIZE then e.(alive := false, buffered := [])
                   else if |e.buffered| < e.expected then e else AfterPayload(e).Drain()
  {
  }

  function AfterHeader(d: Decoder): Decoder
    requires |d.buffered| >= 4
  {
    if d.lengthRead then d
    else d.(lengthRead := true, expected := Be32(d.buffered[..4]), buffered := d.buffered[4..])
  }

  function AfterPayload(e: Decoder): Decoder
    requires |e.buffered| >= e.expected
  {
    e.(lengthRead := false, buffered := e.buffered[e.expected..], frames := e.frames + [e.buffered[..e.expected]])
  }

  lemma {:induction false} DrainGrows(d: Decoder)
    ensures d.frames <= d.Drain().frames
    decreases |d.buffered|, d.lengthRead
  {
    if d.alive && |d.buffered| >= 4 {
      DrainStep(d);
      var e := AfterHeader(d);
      if e.expected <= |e.buffered| {
        DrainGrows(AfterPayload(e));
      }
    }
  }

  /** The number of frames one call takes out of the buffer if nothing ends it early. */
  ghost function NewFrames(d: Decoder): nat {
    DrainGrows(d);
    |d.Drain().frames| - |d.frames|
  }

  /** Where the loop of `handle_protobuf` stands, `count` frames after it started from `start`. */
  ghost predicate FramesUnderway(start: Decoder, count: nat, d: Decoder) {
    d.alive && |d.frames| == |start.frames| + count && d.Drain() == start.Drain()
  }

  /** The same, or the reply to the last of them has shut the connection down. */
  ghost predicate FramesTaken(start: Decoder, count: nat, d: Decoder) {
    if d.alive then FramesUnderway(start, count, d)
    else |start.frames| + count <= |start.Drain().frames| && d.frames == start.Drain().frames[..|start.frames| + count]
  }

  lemma DrainRefuses(d: Decoder)
    requires |d.buffered| < 4
    ensures d.Drain() == d
  {
  }

  lemma FramesEnd(start: Decoder, count: nat, d: Decoder)
    requires FramesUnderway(start, count, d) && |d.Drain().frames| == |d.frames|
    ensures count == NewFrames(start) && d.Drain() == start.Drain()
  {
  }

  lemma OneMoreFrame(start: Decoder, count: nat, d: Decoder)
    requires FramesUnderway(start, count, d) && |d.buffered| >= 4
    requires var e := AfterHeader(d); (d.lengthRead || e.expected <= MAX_FRAME_SIZE) && |e.buffered| >= e.expected
    ensures var e := AfterPayload(AfterHeader(d));
      && count < NewFrames(start) && FramesUnderway(start, count + 1, e)
      && |start.frames| + count + 1 <= |start.Drain().frames|
      && e.frames == start.Drain().frames[..|start.frames| + count + 1]
  {
    DrainStep(d);
    DrainGrows(AfterPayload(AfterHeader(d)));
  }

  /** How `handle_protobuf` ends: as the decoder drains, with the replies behind the output; or with the reply
      that shut the connection down. */
  ghost predicate FramesDone(start: Decoder, reply: nat -> Option<Text>, out: Buf, end: Decoder, left: Option<Buf>)
    requires out.Valid() && Servable(out, Replies(reply), 0, NewFrames(start))
  {
    var all, v := start.Drain(), Serve(out, Replies(reply), 0, NewFrames(start));
    if v.out.Some? then end == all && left == if all.alive then v.out else None
    else !end.alive && left == None && end.frames == all.frames[..|start.frames| + v.count]
  }

  /** Where the loop of `handle_line_protocol` stands: `count` messages have been handed over and the rest of the
      text is still to be split. */
  ghost predicate LinesUnderway(start: Text, before: seq<Text>, count: nat, handed: seq<Text>, s: Text) {
    var all, now := SplitLines(start), SplitLines(s);
    && |handed| == |before| + count && now.rest == all.rest
    && handed + Messages(now.lines) == before + Messages(all.lines)
  }

  ghost predicate LinesHanded(start: Text, before: seq<Text>, count: nat, handed: seq<Text>) {
    var all := Messages(SplitLines(start).lines);
    count <= |all| && handed == before + all[..count]
  }

  lemma LinesBegin(start: Text, before: seq<Text>)
    ensures LinesUnderway(start, before, 0, before, start) && LinesHanded(start, before, 0, before)
  {
    Units(before);
  }

  lemma OneMoreLine(start: Text, before: seq<Text>, count: nat, handed: seq<Text>, s: Text, i: nat)
    requires LinesUnderway(start, before, count, handed, s) && Find(s, LF) == Some(i)
    ensures var line, rest := StripCr(s[..i]), s[i + 1..];
      if line == [] then LinesUnderway(start, before, count, handed, rest)
      else
        && LinesUnderway(start, before, count + 1, handed + [line], rest)
        && LinesHanded(start, before, count + 1, handed + [line])
  {
    hide SplitLines, Messages, Find, StripCr;
    var all, later := Messages(SplitLines(start).lines), Messages(SplitLines(s[i + 1..]).lines);
    var line := StripCr(s[..i]);
    SplitOnce(s, i);
    Units(later);
    Assoc(handed, [line], later);
    if line != [] {
      PrefixBehind(handed + [line], later, before, all);
    }
  }

  lemma SplitOnce(s: Text, i: nat)
    requires Find(s, LF) == Some(i)
    ensures var line, now, later := StripCr(s[..i]), SplitLines(s), SplitLines(s[i + 1..]);
      now.rest == later.rest && Messages(now.lines) == (if line == [] then [] else [line]) + Messages(later.lines)
  {
    hide Find;
    assert ([s[..i]] + SplitLines(s[i + 1..]).lines)[1..] == SplitLines(s[i + 1..]).lines;
  }

  lemma PrefixBehind<T>(x: seq<T>, later: seq<T>, before: seq<T>, all: seq<T>)
    requires x + later == before + all && |before| <= |x|
    ensures |x| - |before| <= |all| && x == before + all[..|x| - |before|]
  {
    assert x == (x + later)[..|x|];
  }

  lemma LinesEnd(start: Text, before: seq<Text>, count: nat, handed: seq<Text>, s: Text)
    requires LinesUnderway(start, before, count, handed, s) && Find(s, LF).None?
    ensures count == |Messages(SplitLines(start).lines)| && s == SplitLines(start).rest
  {
    Units(handed);
    assert |handed| == |before + Messages(SplitLines(start).lines)|;
  }

  /** How `handle_line_protocol` ends: every message handed over and the rest kept, with what the handlers sent
      behind the output; or the connection closed by the message whose handling did so. */
  ghost predicate LinesDone(s: Text, react: Reactions, out: Buf, before: seq<Text>, handed: seq<Text>, kept: Text,
                            left: Option<Buf>)
    requires out.Valid() && Servable(out, react, 0, |Messages(SplitLines(s).lines)|)
  {
    var r := SplitLines(s);
    var ms := Messages(r.lines);
    var v := Serve(out, react, 0, |ms|);
    && left == v.out && handed == before + ms[..v.count]
    && (left.Some? ==> kept == r.rest)
  }

  /** With the echo handler a connection survives if and only if no call closes it and the echo of all messages stays
      within the cap; then that echo is behind its output. */
  lemma EchoDone(s: Text, react: Reactions, out: Buf, before: seq<Text>, handed: seq<Text>, kept: Text,
                 left: Option<Buf>)
    requires out.Valid() && Servable(out, react, 0, |Messages(SplitLines(s).lines)|)
    requires LinesDone(s, react, out, before, handed, kept, left)
    requires var ms := Messages(SplitLines(s).lines);
      forall j | 0 <= j < |ms| :: react(j).sends == [EchoReply(ms[j])]
    ensures var ms := Messages(SplitLines(s).lines);
      && (left.Some? <==> NobodyCloses(react, 0, |ms|) && FitsWith(out.bytes, EchoReplies(ms)))
      && (left.Some? ==> handed == before + ms && left.value.bytes == out.bytes + EchoReplies(ms))
  {
    hide SplitLines, Messages;
    var ms := Messages(SplitLines(s).lines);
    assert ms[..|ms|] == ms && ms[0..] == ms;
    ServedOutput(out, react, 0, |ms|);
    EchoIsSent(react, ms, 0);
  }

  lemma HandedBound(start: Text, before: seq<Text>, count: nat, handed: seq<Text>)
    requires LinesHanded(start, before, count, handed)
    ensures count <= |Messages(SplitLines(start).lines)|
  {
  }

  lemma HandedExactly(start: Text, before: seq<Text>, count: nat, handed: seq<Text>)
    requires LinesHanded(start, before, count, handed)
    ensures handed == before + Messages(SplitLines(start).lines)[..count]
  {
  }

  lemma FramesBegin(start: Decoder)
    requires start.alive
    ensures FramesUnderway(start, 0, start)
  {
  }

  lemma NobodyThrew(react: Reactions)
    ensures !AnyThrows(react, 0)
  {
  }

  /** With the replies to the frames of one read a connection survives if and only if the decoder does and all replies
      together stay within the cap; then they are behind its output. */
  lemma RepliesFollow(start: Decoder, reply: nat -> Option<Text>, out: Buf, end: Decoder, left: Option<Buf>)
    requires out.Valid() && Servable(out, Replies(reply), 0, NewFrames(start))
    requires FramesDone(start, reply, out, end, left)
    ensures var sent := Frames(ReplyPayloads(reply, 0, NewFrames(start)));
      && (left.Some? <==> start.Drain().alive && FitsWith(out.bytes, sent))
      && (left.Some? ==> left.value.bytes == out.bytes + sent)
  {
    hide Serve, Decoder.Drain, NewFrames;
    var n := NewFrames(start);
    var react := Replies(reply);
    forall j | 0 <= j < n ensures !react(j).closes {
      assert react(j) == ReplyTo(reply(j));
    }
    ServedOutput(out, Replies(reply), 0, n);
    RepliesAreFrames(reply, 0, n);
  }

  /** Without a pool an exception of the handler is answered with 500. */
  function Answered(r: Reaction): Reaction {
    if r.throws && !r.closes then r.(sends := r.sends + [INTERNAL_ERROR]) else r
  }

  lemma AnsweredSends(r: Reaction)
    ensures Answered(r).closes == r.closes
    ensures !r.closes ==>
              Concat(Answered(r).sends) == if r.throws then Concat(r.sends) + INTERNAL_ERROR else Concat(r.sends)
  {
    ConcatAppend(r.sends, [INTERNAL_ERROR]);
    OneChunk(INTERNAL_ERROR);
  }

  function HttpReactions(usesPool: bool, react: Reactions): Reactions {
    if usesPool then react else (i: nat) => Answered(react(i))
  }

  /** How the requests of a pass are answered. The connection survives if and only if no handler closes it, what they
      send stays within the cap, and unless there is a pool no handler throws and nothing asks for the connection to
      be closed; then everything they sent is behind its output. So the 500 response of a handler that throws leaves
      with the output buffer. */
  lemma ResponsesFollow(c: EpollConnection, q: seq<Pending>, shouldClose: bool, react: Reactions, out: Buf,
                        before: seq<Pending>, left: Option<Buf>, queue: seq<Pending>, gone: seq<Pending>)
    requires out.Valid() && Servable(out, HttpReactions(c.usesPool, react), 0, |q|)
    requires c.RequestsDone(q, shouldClose, react, out, before, left, queue, gone)
    ensures left.Some? <==>
            && NobodyCloses(react, 0, |q|) && FitsWith(out.bytes, AllSent(react, 0, |q|))
            && (q == [] || c.usesPool || !(shouldClose || AnyThrows(react, |q|)))
    ensures left.Some? ==>
              left.value.bytes == out.bytes + AllSent(react, 0, |q|) && gone == before + q && queue == []
  {
    hide Serve, Servable;
    ServedOutput(out, HttpReactions(c.usesPool, react), 0, |q|);
    if !c.usesPool && !AnyThrows(react, |q|) {
      SameReactions(react, 0, |q|);
    }
    assert q[..|q|] == q && q[|q|..] == [];
  }

  /** Without exceptions nothing is added to what the handlers send. */
  lemma {:induction false} SameReactions(react: Reactions, i: nat, n: nat)
    requires i <= n && forall j | i <= j < n :: !react(j).throws
    ensures AllSent(HttpReactions(false, react), i, n) == AllSent(react, i, n)
    ensures NobodyCloses(HttpReactions(false, react), i, n) <==> NobodyCloses(react, i, n)
    decreases n - i
  {
    var all := HttpReactions(false, react);
    forall j | i <= j < n ensures all(j) == react(j) {
      assert all(j) == Answered(react(j));
    }
    if i < n {
      SameReactions(react, i + 1, n);
    }
  }

  /** What is in the buffers after a pass that left the connection alive is where the next pass starts. */
  lemma NextReadIsNextPass(c: EpollConnection, p: Pass, react: Reactions, out: Buf, before: seq<Pending>,
                           left: Option<Buf>, queue: seq<Pending>, gone: seq<Pending>, arriving: Text)
    requires p.parser.Valid() && out.Valid() && c.RoomForPass(p, react, out)
    requires c.PassDone(p, react, out, before, left, queue, gone) && left.Some?
    ensures ParseLoop(p.parser, p.buffered + arriving, queue, false) == NextPass(p, arriving)
  {
    hide Serve, Servable, ParseLoop;
    if c.hasHttpHandler {
      ResponsesFollow(c, p.queue, p.shouldClose, react, out, before, left, queue, gone);
    }
  }

  ghost predicate AnyThrows(react: Reactions, n: nat) {
    exists i | 0 <= i < n :: react(i).throws
  }

  lemma OneMoreThrow(react: Reactions, n: nat)
    ensures AnyThrows(react, n + 1) <==> AnyThrows(react, n) || react(n).throws
  {
    if AnyThrows(react, n) {
      var i :| 0 <= i < n && react(i).throws;
      assert i < n + 1 && react(i).throws;
    }
    if AnyThrows(react, n + 1) {
      var i :| 0 <= i < n + 1 && react(i).throws;
      assert i < n ==> react(i).throws && AnyThrows(react, n);
    }
  }

  class EpollConnection {
    const socket: Socket
    const input: Buffer
    const output: Buffer
    const parser: HttpParser
    const mode: Mode
    const hasHttpHandler: bool
    const usesPool: bool

    var running: bool
    /** Whether the reactor was last asked for EPOLLOUT. */
    var interest: bool
    var pendingRequests: seq<Pending>
    var pipelineDepth: nat
    var lengthRead: bool
    var expectedLength: nat

    var handed: seq<Text>
    var frames: seq<Text>
    var dispatched: seq<Pending>
    ghost var accepted: Text

    function In(): (s: Text)
      requires input.Valid()
      reads input, input.data
      ensures s == input.View().bytes
    {
      input.Peek()
    }

    function Out(): (s: Text)
      requires output.Valid()
      reads output, output.data
      ensures s == output.View().bytes
    {
      output.Peek()
    }

    ghost predicate Shape()
      reads input, output
    {
      input != output && input.data != output.data && input.Valid() && output.Valid()
    }

    /** The parser may be called again. */
    ghost predicate ParserReady()
      reads parser
    {
      parser.View().Valid() && (parser.state.ExpectRequestLine? || parser.currentRequestStartIndex == 0)
    }

    /** Output conservation, and write interest for buffered output. */
    ghost predicate OutputOk()
      requires output.Valid()
      reads this, socket, output, output.data
    {
      running ==> socket.sent + Out() == accepted && (Out() != [] ==> interest)
    }

    ghost predicate Valid()
      reads this, socket, input, output, input.data, output.data, parser
      ensures Valid() ==> Shape() && parser.View().Valid() && (!running ==> In() == [] && Out() == [])
    {
      && Shape() && ParserReady() && OutputOk()
      && pipelineDepth == |pendingRequests|
      && (!running ==> In() == [] && Out() == [])
    }

    constructor (socket: Socket, mode: Mode, hasHttpHandler: bool, usesPool: bool)
      requires socket.sent == []
      ensures Valid() && fresh(input) && fresh(input.data) && fresh(output) && fresh(output.data) && fresh(parser)
      ensures this.socket == socket && this.mode == mode
      ensures this.hasHttpHandler == hasHttpHandler && this.usesPool == usesPool
      ensures running && In() == [] && pendingRequests == [] && parser.View() == NEW_PARSER
      ensures Decoder(true, lengthRead, expectedLength, In(), frames) == NO_FRAMES
      ensures LineDecoder(handed, In()) == NO_LINES && dispatched == []
    {
      this.socket, this.mode, this.hasHttpHandler, this.usesPool := socket, mode, hasHttpHandler, usesPool;
      input := new Buffer();
      output := new Buffer();
      parser := new HttpParser();
      running, interest, pendingRequests, pipelineDepth := true, false, [], 0;
      lengthRead, expectedLength := false, 0;
      handed, frames, dispatched, accepted := [], [], [], [];
    }

    /** Only the first call has an effect; it empties both buffers, delivered or not. */
    method Shutdown()
      requires Shape()
      modifies this`running, input`readerIndex, input`writerIndex, output`readerIndex, output`writerIndex
      ensures Shape() && !running && (old(Valid()) ==> Valid())
      ensures if old(running) then In() == [] && Out() == []
              else input.View() == old(input.View()) && output.View() == old(output.View())
    {
      hide Parser.Valid, Buffers.Buffer.View, Buffers.Buffer.Peek;
      if running {
        running := false;
        input.RetrieveAll();
        output.RetrieveAll();
      }
    }

    /** The output of a live connection. */
    function Live(): Option<Buf>
      requires output.Valid()
      reads this, output, output.data
    {
      if running then Some(output.View()) else None
    }

    /** The number of bytes accepted, 0 for a closed connection or nothing to send, -1 for an overflow. */
    method Send(data: Text) returns (r: int)
      requires Valid() && (running && data != [] ==> Sendable(output.View(), |data|))
      modifies this`running, this`interest, this`accepted
      modifies input`readerIndex, input`writerIndex, output, output.data
      ensures Valid() && (output.data == old(output.data) || fresh(output.data))
      ensures !old(running) ==> r == 0 && !running && accepted == old(accepted)
      ensures old(running) ==>
                && Live() == SendOne(old(output.View()), data)
                && r == (if running then |data| else -1)
                && (running ==> In() == old(In()) && accepted == old(accepted) + data)
                && (running <==> |old(Out())| + |data| <= MAX_BUFFER_SIZE)
                && (running ==> Out() == old(Out()) + data)
    {
      hide Buf.Append, Buf.RoomFor, Parser.Valid, Buffers.Buffer.View, Buffers.Buffer.Peek, In, Out;
      Units(accepted);
      if !running || data == [] {
        return 0;
      }
      if output.ReadableBytes() + |data| > MAX_BUFFER_SIZE {
        Shutdown();
        return -1;
      }
      var wasEmpty := output.ReadableBytes() == 0;
      Assoc(socket.sent, Out(), data);
      output.Append(data);
      accepted := accepted + data;
      if wasEmpty && output.ReadableBytes() > 0 {
        interest := true;
      }
      return |data|;
    }

    /** What a handler does with the connection while it handles one message. */
    method React(r: Reaction)
      requires Valid() && running && RoomForAll(output.View(), r.sends)
      modifies this`running, this`interest, this`accepted
      modifies input`readerIndex, input`writerIndex, output, output.data
      ensures Valid() && (output.data == old(output.data) || fresh(output.data))
      ensures Live() == AfterReaction(old(output.View()), r) && (running ==> In() == old(In()))
      ensures running <==> !r.closes && FitsWith(old(Out()), Concat(r.sends))
      ensures running ==> Out() == old(Out()) + Concat(r.sends)
    {
      hide Valid, Parser.Valid, Buffers.Buffer.View, Buffers.Buffer.Peek, In, Out, SendOne, Sendable, Buf.Valid;
      ghost var end := SendAll(output.View(), r.sends);
      SendAllExact(output.View(), r.sends);
      for i := 0 to |r.sends|
        invariant Valid() && (output.data == old(output.data) || fresh(output.data))
        invariant running ==> In() == old(In()) && RoomForAll(output.View(), r.sends[i..])
        invariant running ==> SendAll(output.View(), r.sends[i..]) == end
        invariant !running ==> end == None
      {
        assert r.sends[i..][0] == r.sends[i] && r.sends[i..][1..] == r.sends[i + 1..];
        var _ := Send(r.sends[i]);
      }
      if r.closes {
        Shutdown();
      }
    }

    /** A response frame; an empty serialisation is replaced, so no empty frame is ever sent. */
    method SendProtobuf(serialized: Text)
      requires Valid() && (running ==> Sendable(output.View(), |Frame(OrDummy(serialized))|))
      modifies this`running, this`interest, this`accepted
      modifies input`readerIndex, input`writerIndex, output, output.data
      ensures Valid() && (output.data == old(output.data) || fresh(output.data))
      ensures old(running) ==> Live() == SendOne(old(output.View()), Frame(OrDummy(serialized)))
      ensures var carried := if serialized == [] then "empty" else serialized;
        && (running ==> In() == old(In()) && Out() == old(Out()) + Frame(carried))
        && (old(running) ==> (running <==> |old(Out())| + 4 + |carried| <= MAX_BUFFER_SIZE))
    {
      hide Valid, Buffers.Buffer.View, Buffers.Buffer.Peek, In, Out, Sendable, SendOne, Header;
      var _ := Send(Frame(OrDummy(serialized)));
    }

    /** One write: what the kernel took leaves the buffer; interest is dropped only with an empty buffer. */
    method HandleWrite()
      requires Valid()
      modifies this`running, this`interest, socket`writes, socket`sent
      modifies input`readerIndex, input`writerIndex, output`readerIndex, output`writerIndex
      ensures Valid() && accepted == old(accepted)
      ensures running ==> In() == old(In()) && socket.sent + Out() == old(socket.sent + Out())
      ensures old(interest) && !interest ==> Out() == []
      ensures running && Out() == [] ==> !interest
      ensures !old(running) || old(Out()) == [] ==> socket.sent == old(socket.sent) && running == old(running)
      ensures old(running) && old(Out()) != [] ==>
                var (o, rest) := Take(old(socket.writes), |old(Out())|);
                && socket.writes == rest && (running <==> !o.WroteError?)
                && socket.sent == old(socket.sent) + if o.Wrote? then old(Out())[..o.count] else []
    {
      hide ParserReady, Buf.Retrieve, Buffers.Buffer.View, Buffers.Buffer.Peek, In, Out, Take;
      if !running {
        return;
      }
      if output.ReadableBytes() == 0 {
        interest := false;
        return;
      }
      ghost var all := Out();
      var outcome := socket.Write(output.Peek());
      match outcome {
        case WroteAgain =>
        case WroteInterrupted =>
        case WroteError(_) => Shutdown();
        case Wrote(n) =>
          output.Retrieve(n);
          assert all == all[..n] + Out();
          Assoc(old(socket.sent), all[..n], Out());
          if output.ReadableBytes() == 0 {
            interest := false;
          }
      }
    }

    /** The newline protocol on what is buffered. */
    method HandleLineProtocol(react: Reactions)
      requires Valid() && running && Servable(output.View(), react, 0, |Messages(SplitLines(In()).lines)|)
      modifies this`running, this`interest, this`accepted, this`handed
      modifies input`readerIndex, input`writerIndex, output, output.data
      ensures Valid() && (output.data == old(output.data) || fresh(output.data))
      ensures LinesDone(old(In()), react, old(output.View()), old(handed), handed, In(), Live())
    {
      hide Valid, Parser.Valid, In, Out, Buffers.Buffer.Peek, Buffers.Buffer.View, SplitLines, Messages, Find, StripCr;
      hide LinesUnderway, LinesHanded, ServedSoFar, Servable, RoomForAll, AfterReaction, Serve, Buf.Valid;
      ghost var start, out := In(), output.View();
      ghost var n := |Messages(SplitLines(start).lines)|;
      var count := 0;
      LinesBegin(start, handed);
      ServingBegins(out, react, n);
      while true
        invariant Valid() && (output.data == old(output.data) || fresh(output.data))
        invariant running ==> LinesUnderway(start, old(handed), count, handed, In())
        invariant LinesHanded(start, old(handed), count, handed)
        invariant ServedSoFar(out, react, n, count, Live())
        decreases running, |In()|
      {
        var eol := input.FindEol();
        if eol.None? {
          break;
        }
        OneMoreLine(start, old(handed), count, handed, In(), eol.value);
        var line := TakeLine(eol.value);
        if line != [] {
          HandedBound(start, old(handed), count + 1, handed + [line]);
          OneMoreServed(out, react, n, count, output.View());
          Hand(line, react(count));
          count := count + 1;
        }
      }
      if running {
        LinesEnd(start, old(handed), count, handed, In());
      }
      AllServed(out, react, n, count, Live());
      HandedExactly(start, old(handed), count, handed);
    }

    /** Advance the reader of the input. */
    method Consume(n: nat)
      requires Valid() && running && n <= |In()|
      modifies input`readerIndex, input`writerIndex
      ensures Valid() && In() == old(In())[n..] && output.View() == old(output.View())
    {
      hide ParserReady, OutputOk, Buf.Retrieve, Buffers.Buffer.View, Buffers.Buffer.Peek, In, Out;
      input.Retrieve(n);
      assert Shape() && ParserReady() && OutputOk();
    }

    method TakeLine(eol: nat) returns (line: Text)
      requires Valid() && running && eol < |In()|
      modifies input`readerIndex, input`writerIndex
      ensures Valid() && line == StripCr(old(In())[..eol]) && In() == old(In())[eol + 1..]
      ensures output.View() == old(output.View())
    {
      hide Valid, Parser.Valid, Buffers.Buffer.View, Buffers.Buffer.Peek, In, Out;
      line := StripCr(input.Peek()[..eol]);
      Consume(eol + 1);
    }

    /** The message handler gets a line. */
    method Hand(line: Text, r: Reaction)
      requires Valid() && running && RoomForAll(output.View(), r.sends)
      modifies this`running, this`interest, this`accepted, this`handed
      modifies input`readerIndex, input`writerIndex, output, output.data
      ensures Valid() && (output.data == old(output.data) || fresh(output.data))
      ensures handed == old(handed) + [line] && Live() == AfterReaction(old(output.View()), r)
      ensures running ==> In() == old(In())
    {
      hide Parser.Valid, RoomForAll, AfterReaction, Buffers.Buffer.View, Buffers.Buffer.Peek, In, Out;
      handed := handed + [line];
      React(r);
    }

    function DecoderState(): Decoder
      requires input.Valid()
      reads this, input, input.data
    {
      Decoder(running, lengthRead, expectedLength, In(), frames)
    }

    /** The 4-byte length in network order. */
    method TakeHeader()
      requires Valid() && running && |In()| >= 4 && !lengthRead
      modifies this`lengthRead, this`expectedLength, input`readerIndex, input`writerIndex
      ensures Valid() && DecoderState() == AfterHeader(old(DecoderState())) && output.View() == old(output.View())
    {
      hide Valid, Parser.Valid, Buffers.Buffer.View, Buffers.Buffer.Peek, In, Out, Be32;
      var length := Be32(In()[..4]);
      Consume(4);
      NoteLength(true, length);
    }

    /** The two decoder fields. */
    method NoteLength(read: bool, length: nat)
      requires Valid()
      modifies this`lengthRead, this`expectedLength
      ensures Valid() && lengthRead == read && expectedLength == length
      ensures In() == old(In()) && output.View() == old(output.View())
    {
      hide Parser.Valid, Buffers.Buffer.View, Buffers.Buffer.Peek, In, Out;
      lengthRead, expectedLength := read, length;
    }

    /** A payload for `ParseFromString`. Whether it parses or not there is a reply, unless that could not be
        serialised. */
    method TakePayload(serialized: Option<Text>)
      requires Valid() && running && |In()| >= expectedLength
      requires RoomForAll(output.View(), ReplyTo(serialized).sends)
      modifies this`running, this`interest, this`accepted, this`lengthRead, this`expectedLength, this`frames
      modifies input`readerIndex, input`writerIndex, output, output.data
      ensures Valid() && (output.data == old(output.data) || fresh(output.data))
      ensures frames == AfterPayload(old(DecoderState())).frames
      ensures Live() == AfterReaction(old(output.View()), ReplyTo(serialized))
      ensures running ==> DecoderState() == AfterPayload(old(DecoderState()))
    {
      hide Valid, Parser.Valid, RoomForAll, SendAll, SendOne, Sendable, Header, Buf.Valid;
      hide Buffers.Buffer.View, Buffers.Buffer.Peek, In, Out;
      ghost var d, out := DecoderState(), output.View();
      KeepFrame(In()[..expectedLength]);
      Consume(expectedLength);
      NothingSent(out);
      match serialized {
        case None =>
        case Some(reply) =>
          SendSingle(out, Frame(OrDummy(reply)));
          SendProtobuf(reply);
      }
      NoteLength(false, expectedLength);
    }

    method KeepFrame(payload: Text)
      requires Valid()
      modifies this`frames
      ensures Valid() && frames == old(frames) + [payload] && In() == old(In()) && output.View() == old(output.View())
    {
      hide Parser.Valid, Buffers.Buffer.View, Buffers.Buffer.Peek, In, Out;
      frames := frames + [payload];
    }

    /** One round of the length-prefix loop: a frame is taken and answered, or the loop has come to its end. */
    method NextFrame(reply: nat -> Option<Text>, count: nat, ghost start: Decoder, ghost out: Buf) returns (taken: bool)
      requires Valid() && running && |In()| >= 4 && FramesUnderway(start, count, DecoderState())
      requires ServedSoFar(out, Replies(reply), NewFrames(start), count, Live())
      modifies this`running, this`interest, this`accepted, this`lengthRead, this`expectedLength, this`frames
      modifies input`readerIndex, input`writerIndex, output, output.data
      ensures Valid() && (output.data == old(output.data) || fresh(output.data))
      ensures taken ==>
                && FramesTaken(start, count + 1, DecoderState())
                && ServedSoFar(out, Replies(reply), NewFrames(start), count + 1, Live())
                && (running ==> |In()| < |old(In())| || (|In()| == |old(In())| && old(lengthRead) && !lengthRead))
      ensures !taken ==>
                && count == NewFrames(start) && DecoderState() == start.Drain()
                && Live() == if start.Drain().alive then old(Live()) else None
    {
      hide Valid, Parser.Valid, In, Out, Buffers.Buffer.Peek, Buffers.Buffer.View, FramesUnderway, Decoder.Drain;
      hide ServedSoFar, Servable, RoomForAll, AfterReaction, ReplyTo, Buf.Valid, NewFrames, Be32;
      ghost var d := DecoderState();
      DrainStep(d);
      taken := false;
      if !lengthRead {
        TakeHeader();
        if expectedLength > MAX_FRAME_SIZE {
          FramesEnd(start, count, d);
          Shutdown();
          return;
        }
      }
      if input.ReadableBytes() >= expectedLength {
        OneMoreFrame(start, count, d);
        OneMoreServed(out, Replies(reply), NewFrames(start), count, output.View());
        TakePayload(reply(count));
        taken := true;
      } else {
        FramesEnd(start, count, d);
      }
    }

    /** The length-prefix protocol on what is buffered, with the serialised reply to each frame. */
    method HandleProtobuf(reply: nat -> Option<Text>)
      requires Valid() && running && Servable(output.View(), Replies(reply), 0, NewFrames(DecoderState()))
      modifies this`running, this`interest, this`accepted, this`lengthRead, this`expectedLength, this`frames
      modifies input`readerIndex, input`writerIndex, output, output.data
      ensures Valid() && (output.data == old(output.data) || fresh(output.data))
      ensures FramesDone(old(DecoderState()), reply, old(output.View()), DecoderState(), Live())
      ensures var all, n := old(DecoderState().Drain()), old(NewFrames(DecoderState()));
        var sent := Frames(ReplyPayloads(reply, 0, n));
        (running <==> all.alive && FitsWith(old(Out()), sent)) && (running ==> Out() == old(Out()) + sent)
    {
      hide Valid, Parser.Valid, In, Out, Buffers.Buffer.Peek, Buffers.Buffer.View, FramesUnderway, Decoder.Drain;
      hide ServedSoFar, Servable, Serve, Buf.Valid, NewFrames;
      ghost var start, out := DecoderState(), output.View();
      ghost var n := NewFrames(start);
      var count, more := 0, true;
      FramesBegin(start);
      ServingBegins(out, Replies(reply), n);
      while more && running && input.ReadableBytes() >= 4
        invariant Valid() && (output.data == old(output.data) || fresh(output.data))
        invariant more ==> FramesTaken(start, count, DecoderState())
        invariant more ==> ServedSoFar(out, Replies(reply), n, count, Live())
        invariant !more ==> FramesDone(start, reply, out, DecoderState(), Live())
        decreases more, running, |In()|, lengthRead
      {
        ghost var live := Live();
        more := NextFrame(reply, count, start, out);
        if more {
          count := count + 1;
        } else {
          AllServed(out, Replies(reply), n, count, live);
        }
      }
      if more {
        if running {
          DrainRefuses(DecoderState());
          FramesEnd(start, count, DecoderState());
        }
        AllServed(out, Replies(reply), n, count, Live());
      }
      RepliesFollow(start, reply, out, DecoderState(), Live());
    }

    /** A parse error: the 400 response is queued and the shutdown clears it. */
    method Refuse()
      requires Valid() && running && Sendable(output.View(), |BAD_REQUEST|)
      modifies this`running, this`interest, this`accepted
      modifies input`readerIndex, input`writerIndex, output, output.data
      ensures Valid() && !running && (output.data == old(output.data) || fresh(output.data))
    {
      hide Parser.Valid, Sendable, Buffers.Buffer.View, Buffers.Buffer.Peek;
      var _ := Send(BAD_REQUEST);
      Shutdown();
    }

    /** A complete request: it is queued with its raw text and leaves the buffer; a 101st one closes instead. */
    method Enqueue(raw: Text, consumed: nat) returns (closed: bool)
      requires Valid() && running && parser.state.Complete? && consumed <= |In()|
      modifies this`running, this`pendingRequests, this`pipelineDepth, parser
      modifies input`readerIndex, input`writerIndex, output`readerIndex, output`writerIndex
      ensures Valid() && parser.View() == NEW_PARSER && running == !closed
      ensures pendingRequests == old(pendingRequests) + [Pending(old(parser.currentReq).(parseSuccess := true), raw)]
      ensures closed <==> |old(pendingRequests)| + 1 > MAX_HTTP_PIPELINE
      ensures running ==> output.View() == old(output.View()) && In() == old(In())[consumed..]
    {
      hide Parser.Valid, Buffers.Buffer.View, Buffers.Buffer.Peek, Buf.Retrieve, In, Out;
      NewParserIsValid();
      var req := parser.GetRequest();
      pendingRequests := pendingRequests + [Pending(req, raw)];
      pipelineDepth := pipelineDepth + 1;
      closed := pipelineDepth > MAX_HTTP_PIPELINE;
      if closed {
        Shutdown();
      } else {
        Consume(consumed);
      }
    }

    /** One round of the parsing loop; `more` says to go round again, otherwise the pass has ended. */
    method ParseOne(shouldClose: bool) returns (more: bool, closing: bool, ghost outcome: Outcome)
      requires Valid() && running && In() != []
      requires ParseLoop(parser.View(), In(), pendingRequests, shouldClose).outcome.BadRequest? ==>
                 Sendable(output.View(), |BAD_REQUEST|)
      modifies this`running, this`interest, this`accepted, this`pendingRequests, this`pipelineDepth, parser
      modifies input`readerIndex, input`writerIndex, output, output.data
      ensures Valid() && (output.data == old(output.data) || fresh(output.data))
      ensures running ==> output.View() == old(output.View()) && output.data == old(output.data)
      ensures var all := old(ParseLoop(parser.View(), In(), pendingRequests, shouldClose));
        if more then
          && running && |In()| < |old(In())|
          && all == ParseLoop(parser.View(), In(), pendingRequests, closing)
        else all == Pass(parser.View(), In(), pendingRequests, closing, outcome) && (running <==> outcome.Alive?)
    {
      hide Parser.Valid, Run, ParseLoop, Sendable, Buf.RoomFor, Buffers.Buffer.View, Buffers.Buffer.Peek, In, Out;
      more, closing, outcome := false, shouldClose, Alive;
      ParseStep(parser.View(), In(), pendingRequests, shouldClose);
      var data := In();
      var consumed, hasError, isComplete, start, len := parser.Parse(data);
      if hasError {
        outcome := BadRequest;
        Refuse();
      } else if isComplete {
        var keepAlive := parser.currentReq.keepAlive;
        var closed := Enqueue(data[start..start + len], consumed);
        if closed {
          outcome := TooDeep;
        } else {
          more, closing := true, shouldClose || !keepAlive;
        }
      }
    }

    /** The parsing loop: complete requests are queued and leave the buffer. */
    method ParseRequests() returns (shouldClose: bool)
      requires Valid() && running
      requires ParseLoop(parser.View(), In(), pendingRequests, false).outcome.BadRequest? ==>
                 Sendable(output.View(), |BAD_REQUEST|)
      modifies this`running, this`interest, this`accepted, this`pendingRequests, this`pipelineDepth, parser
      modifies input`readerIndex, input`writerIndex, output, output.data
      ensures Valid() && parser.View().Valid() && (output.data == old(output.data) || fresh(output.data))
      ensures running ==> output.View() == old(output.View()) && output.data == old(output.data)
      ensures var p := old(ParseLoop(parser.View(), In(), pendingRequests, false));
        && parser.View() == p.parser && In() == p.buffered && pendingRequests == p.queue
        && shouldClose == p.shouldClose && (running <==> p.outcome.Alive?)
    {
      hide Valid, Parser.Valid, ParseLoop, Sendable, Buffers.Buffer.View, Buffers.Buffer.Peek, In, Out;
      ghost var all := ParseLoop(parser.View(), In(), pendingRequests, false);
      shouldClose := false;
      var more := true;
      while more && input.ReadableBytes() > 0
        invariant Valid() && parser.View().Valid()
        invariant output.data == old(output.data) || fresh(output.data)
        invariant running ==> output.View() == old(output.View()) && output.data == old(output.data)
        invariant all.outcome.BadRequest? ==> Sendable(old(output.View()), |BAD_REQUEST|)
        invariant more ==> running && all == ParseLoop(parser.View(), In(), pendingRequests, shouldClose)
        invariant !more ==> exists o: Outcome ::
          (running <==> o.Alive?) && all == Pass(parser.View(), In(), pendingRequests, shouldClose, o)
        decreases more, |In()|
      {
        ghost var outcome;
        more, shouldClose, outcome := ParseOne(shouldClose);
      }
      EmptyPass(parser.View(), In(), pendingRequests, shouldClose);
    }

    static lemma EmptyPass(p: Parser, data: Text, queue: seq<Pending>, shouldClose: bool)
      requires p.Valid()
      ensures data == [] ==> ParseLoop(p, data, queue, shouldClose) == Pass(p, data, queue, shouldClose, Alive)
    {
    }

    /** The oldest request goes to its handler, or to the pool. Without a pool an exception makes the pass a closing
        one, and the last request of a closing pass shuts the connection down. */
    method DispatchOne(shouldClose: bool, r: Reaction) returns (closing: bool)
      requires Valid() && running && pendingRequests != [] && hasHttpHandler
      requires RoomForAll(output.View(), (if usesPool then r else Answered(r)).sends)
      modifies this`running, this`interest, this`accepted, this`pendingRequests, this`pipelineDepth, this`dispatched
      modifies input`readerIndex, input`writerIndex, output, output.data
      ensures Valid() && (output.data == old(output.data) || fresh(output.data))
      ensures pendingRequests == old(pendingRequests)[1..] && dispatched == old(dispatched) + [old(pendingRequests)[0]]
      ensures closing == (shouldClose || (!usesPool && r.throws))
      ensures var sent := AfterReaction(old(output.View()), if usesPool then r else Answered(r));
        Live() == if !usesPool && closing && pendingRequests == [] then None else sent
      ensures running ==> In() == old(In())
      ensures running ==>
                var all := Concat(r.sends);
                Out() == old(Out()) + if !usesPool && r.throws then all + INTERNAL_ERROR else all
    {
      hide Valid, Parser.Valid, RoomForAll, AfterReaction, Buffers.Buffer.View, Buffers.Buffer.Peek, In, Out;
      PopRequest();
      AnsweredSends(r);
      React(if usesPool then r else Answered(r));
      closing := shouldClose || (!usesPool && r.throws);
      if !usesPool && closing && pendingRequests == [] {
        Shutdown();
      }
    }

    method PopRequest()
      requires Valid() && pendingRequests != []
      modifies this`pendingRequests, this`pipelineDepth, this`dispatched
      ensures Valid() && pendingRequests == old(pendingRequests)[1..]
      ensures dispatched == old(dispatched) + [old(pendingRequests)[0]]
      ensures In() == old(In()) && output.View() == old(output.View())
    {
      hide Parser.Valid, Buffers.Buffer.View, Buffers.Buffer.Peek, In, Out;
      var item := pendingRequests[0];
      pendingRequests, pipelineDepth := pendingRequests[1..], pipelineDepth - 1;
      dispatched := dispatched + [item];
    }

    /** Without a handler the requests are dropped. */
    method DropRequests()
      requires Valid()
      modifies this`pendingRequests, this`pipelineDepth
      ensures Valid() && pendingRequests == [] && In() == old(In()) && output.View() == old(output.View())
    {
      hide Parser.Valid, Buffers.Buffer.View, Buffers.Buffer.Peek, In, Out;
      while pendingRequests != []
        invariant Valid()
        decreases |pendingRequests|
      {
        pendingRequests, pipelineDepth := pendingRequests[1..], pipelineDepth - 1;
      }
    }

    /** The dispatch loop, in order. */
    method DispatchRequests(shouldClose: bool, react: Reactions)
      requires Valid() && running && hasHttpHandler
      requires Servable(output.View(), HttpReactions(usesPool, react), 0, |pendingRequests|)
      modifies this`running, this`interest, this`accepted, this`pendingRequests, this`pipelineDepth, this`dispatched
      modifies input`readerIndex, input`writerIndex, output, output.data
      ensures Valid() && (output.data == old(output.data) || fresh(output.data)) && (running ==> In() == old(In()))
      ensures RequestsDone(old(pendingRequests), shouldClose, react, old(output.View()), old(dispatched), Live(),
                           pendingRequests, dispatched)
    {
      hide Valid, Parser.Valid, Buffers.Buffer.View, Buffers.Buffer.Peek, In, Out, AnyThrows, Answered;
      hide ServedSoFar, Servable, RoomForAll, AfterReaction, Serve, Buf.Valid;
      ghost var q, out := pendingRequests, output.View();
      ghost var all := HttpReactions(usesPool, react);
      var count, closing := 0, shouldClose;
      ServingBegins(out, all, |q|);
      NobodyThrew(react);
      ghost var alive := Some(out);
      while pendingRequests != [] && running
        invariant Valid() && (output.data == old(output.data) || fresh(output.data)) && (running ==> In() == old(In()))
        invariant count <= |q| && pendingRequests == q[count..] && dispatched == old(dispatched) + q[..count]
        invariant closing == (shouldClose || (!usesPool && AnyThrows(react, count)))
        invariant ServedSoFar(out, all, |q|, count, alive)
        invariant Live() == if !usesPool && closing && count == |q| && q != [] then None else alive
        decreases running, |pendingRequests|
      {
        Assoc(old(dispatched), q[..count], [q[count]]);
        assert q[..count + 1] == q[..count] + [q[count]];
        OneMoreServed(out, all, |q|, count, output.View());
        OneMoreThrow(react, count);
        alive := AfterReaction(output.View(), all(count));
        closing := DispatchOne(closing, react(count));
        count := count + 1;
      }
      AllServed(out, all, |q|, count, alive);
    }

    /** What becomes of the queue: requests go out in order until all have gone or the handling of one closes the
        connection; without a pool the last request of a closing pass closes it. */
    ghost predicate RequestsDone(q: seq<Pending>, shouldClose: bool, react: Reactions, out: Buf, before: seq<Pending>,
                                 left: Option<Buf>, queue: seq<Pending>, gone: seq<Pending>)
      requires out.Valid() && Servable(out, HttpReactions(usesPool, react), 0, |q|)
    {
      var v := Serve(out, HttpReactions(usesPool, react), 0, |q|);
      && gone == before + q[..v.count] && queue == q[v.count..]
      && left == if q != [] && !usesPool && (shouldClose || AnyThrows(react, |q|)) then None else v.out
    }

    /** There is room for the 400 response, or for what the handlers send. */
    ghost predicate RoomForPass(p: Pass, react: Reactions, out: Buf)
      requires out.Valid()
    {
      && (p.outcome.BadRequest? ==> Sendable(out, |BAD_REQUEST|))
      && (p.outcome.Alive? && hasHttpHandler ==> Servable(out, HttpReactions(usesPool, react), 0, |p.queue|))
    }

    /** What becomes of a pass: one that failed dispatches nothing. */
    ghost predicate PassDone(p: Pass, react: Reactions, out: Buf, before: seq<Pending>,
                             left: Option<Buf>, queue: seq<Pending>, gone: seq<Pending>)
      requires out.Valid() && RoomForPass(p, react, out)
    {
      if !p.outcome.Alive? then left == None && gone == before && queue == p.queue
      else if !hasHttpHandler then left == Some(out) && gone == before && queue == []
      else RequestsDone(p.queue, p.shouldClose, react, out, before, left, queue, gone)
    }

    /** The HTTP branch: parse everything that is complete, then dispatch it. */
    method HandleHttp(react: Reactions)
      requires Valid() && running
      requires RoomForPass(ParseLoop(parser.View(), In(), pendingRequests, false), react, output.View())
      modifies this`running, this`interest, this`accepted, this`pendingRequests, this`pipelineDepth, this`dispatched
      modifies parser, input`readerIndex, input`writerIndex, output, output.data
      ensures Valid() && (output.data == old(output.data) || fresh(output.data))
      ensures var p := old(ParseLoop(parser.View(), In(), pendingRequests, false));
        && parser.View() == p.parser && (running ==> In() == p.buffered)
        && PassDone(p, react, old(output.View()), old(dispatched), Live(), pendingRequests, dispatched)
    {
      hide Valid, Parser.Valid, ParseLoop, Sendable, Servable, RequestsDone, Buf.Valid;
      hide Buffers.Buffer.View, Buffers.Buffer.Peek, In, Out;
      var shouldClose := ParseRequests();
      if running {
        if hasHttpHandler {
          DispatchRequests(shouldClose, react);
        } else {
          DropRequests();
        }
      }
    }

    /** The read that starts `handle_read`. The connection is closed unless the buffer gives the read room and the
        first thing from the socket, interruptions apart, is data. */
    method Receive()
      requires Valid() && running
      modifies this`running, input, input.data, socket`events, output`readerIndex, output`writerIndex
      ensures Valid() && (input.data == old(input.data) || fresh(input.data))
      ensures running <==> !NoReadRoom(old(input.View())) && DataFirst(old(socket.events))
      ensures var r := ReadLoop(StartReading(old(input.View()), old(socket.events)));
        && socket.events == r.events
        && (running ==> input.View() == r.buf && output.View() == old(output.View()))
    {
      hide Parser.Valid, ReadLoop, NoReadRoom, DataFirst, Buffers.Buffer.View, Buffers.Buffer.Peek, In, Out;
      ReadYieldsDataExact(input.View(), socket.events);
      var total, errno, _ := input.ReadFd(socket);
      if total <= 0 {
        Shutdown();
      }
    }

    /** There is room for what is sent while the text `all` is handled. */
    ghost predicate RoomToServe(all: Text, react: Reactions, reply: nat -> Option<Text>)
      requires Valid()
      reads this, socket, input, output, input.data, output.data, parser
    {
      match mode
      case LineMode => Servable(output.View(), react, 0, |Messages(SplitLines(all).lines)|)
      case ProtobufMode => Servable(output.View(), Replies(reply), 0, NewFrames(DecoderState().(buffered := all)))
      case HttpMode => RoomForPass(ParseLoop(parser.View(), all, pendingRequests, false), react, output.View())
    }

    /** One read event. `react` is what the handlers do, `reply` the serialised replies to frames. */
    method HandleRead(react: Reactions, reply: nat -> Option<Text>)
      requires Valid()
      requires running && !NoReadRoom(input.View()) && DataFirst(socket.events) ==>
                 RoomToServe(In() + Arriving(input.View(), socket.events), react, reply)
      modifies this`running, this`interest, this`accepted, this`pendingRequests, this`pipelineDepth
      modifies this`dispatched, this`handed, this`frames, this`lengthRead, this`expectedLength
      modifies parser, socket`events, input, input.data, output, output.data
      ensures Valid() && (input.data == old(input.data) || fresh(input.data))
      ensures output.data == old(output.data) || fresh(output.data)
      ensures !old(running) || NoReadRoom(old(input.View())) || !DataFirst(old(socket.events)) ==>
                !running && handed == old(handed) && frames == old(frames) && dispatched == old(dispatched)
      ensures old(running) ==> socket.events == ReadLoop(StartReading(old(input.View()), old(socket.events))).events
      ensures old(running) && !NoReadRoom(old(input.View())) && DataFirst(old(socket.events)) ==>
                var all, out := old(In()) + Arriving(old(input.View()), old(socket.events)), old(output.View());
                match mode
                case LineMode => LinesDone(all, react, out, old(handed), handed, In(), Live())
                case ProtobufMode =>
                  FramesDone(old(DecoderState()).(buffered := all), reply, out, DecoderState(), Live())
                case HttpMode =>
                  var p := ParseLoop(old(parser.View()), all, old(pendingRequests), false);
                  && parser.View() == p.parser && (running ==> In() == p.buffered)
                  && PassDone(p, react, out, old(dispatched), Live(), pendingRequests, dispatched)
    {
      hide Valid, Parser.Valid, ParseLoop, FramesDone, LinesDone, PassDone, RoomForPass, Servable, ReadLoop, Arriving;
      hide SplitLines, Messages, NewFrames, NoReadRoom, DataFirst, Buf.Valid;
      hide Buffers.Buffer.View, Buffers.Buffer.Peek, In, Out;
      if !running {
        return;
      }
      Receive();
      if !running {
        return;
      }
      match mode {
        case HttpMode => HandleHttp(react);
        case ProtobufMode => HandleProtobuf(reply);
        case LineMode => HandleLineProtocol(react);
      }
    }
  }
}
