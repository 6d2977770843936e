/** src/client/tcp_client.cpp and the transfer loops of include/net/net_utils.h: the peer of both framed protocols.
    Each method is tied to a function of the socket script; the lemmas say what those functions mean for the
    byte stream, however the kernel cuts it up. */
module Clients {
  import opened Config
  import opened Bytes
  import opened Sockets
  import opened Buffers
  import opened LineProtocol
  import opened LengthPrefix
  import opened Serving

  const RECV_SIZE: nat := 4096

  /** How a transfer loop ends: everything moved, the socket would block, or an error (for reads also the end). */
  datatype Ending = Whole | Blocked | Broken {
    /** The return value, given the bytes asked for and the bytes moved. */
    function Returned(count: nat, moved: nat): int {
      match this case Whole => count case Blocked => moved case Broken => -1
    }
  }

  /** `writen` with `left` bytes to go: how it ends and how many of them the kernel takes. */
  function WriteRun(left: nat, writes: seq<WriteEvent>): (r: (Ending, nat, seq<WriteEvent>))
    ensures r.1 <= left && (r.0.Whole? <==> r.1 == left)
    decreases |writes|
  {
    if left == 0 then (Whole, 0, writes)
    else
      var (o, rest) := Take(writes, left);
      match o
      case WroteInterrupted => WriteRun(left, rest)
      case WroteAgain => (Blocked, 0, rest)
      case WroteError(_) => (Broken, 0, rest)
      case Wrote(n) => var (e, moved, later) := WriteRun(left - n, rest); (e, n + moved, later)
  }

  /** How many bytes the kernel takes before the first write that would block or fails. */
  function Offered(writes: seq<WriteEvent>): nat {
    if writes == [] then 0
    else match writes[0]
      case Accept(k) => k + Offered(writes[1..])
      case WriteInterrupted => Offered(writes[1..])
      case _ => 0
  }

  /** Whether that write fails. */
  predicate FailsThen(writes: seq<WriteEvent>) {
    writes != [] && (writes[0].WriteFailed?
                     || ((writes[0].Accept? || writes[0].WriteInterrupted?) && FailsThen(writes[1..])))
  }

  /** Short and interrupted writes are followed up: everything is written if and only if the kernel takes that much
      before it blocks or fails; otherwise exactly what it takes, and the ending says which of the two it was. */
  lemma {:induction false} WriteRunExact(left: nat, writes: seq<WriteEvent>)
    ensures var (e, moved, _) := WriteRun(left, writes);
      && moved == (if left <= Offered(writes) then left else Offered(writes))
      && (e.Whole? <==> left <= Offered(writes))
      && (e.Broken? <==> Offered(writes) < left && FailsThen(writes))
    decreases |writes|
  {
    if left > 0 && writes != [] {
      match writes[0]
      case Accept(k) => WriteRunExact(left - if k <= left then k else left, writes[1..]);
      case WriteInterrupted => WriteRunExact(left, writes[1..]);
      case _ =>
    }
  }

  /** A header and `n` payload bytes, in two calls of `writen`. */
  function FrameRun(n: nat, writes: seq<WriteEvent>): (r: (bool, nat, seq<WriteEvent>))
    ensures r.1 <= 4 + n && (r.0 <==> r.1 == 4 + n)
  {
    var (e, moved, rest) := WriteRun(4, writes);
    if !e.Whole? then (false, moved, rest)
    else var (f, more, later) := WriteRun(n, rest); (f.Whole?, 4 + more, later)
  }

  /** `readn` with `left` bytes to go. */
  function ReadRun(left: nat, events: seq<ReadEvent>): (r: (Ending, Text, seq<ReadEvent>))
    ensures |r.1| <= left && (r.0.Whole? <==> |r.1| == left)
    decreases ScriptSize(events)
  {
    if left == 0 then (Whole, [], events)
    else
      var (o, rest) := Deliver(events, left);
      match o
      case GotInterrupted => ReadRun(left, rest)
      case GotAgain => (Blocked, [], rest)
      case GotError(_) => (Broken, [], rest)
      case Got(bytes) =>
        if bytes == [] then (Broken, [], rest)
        else var (e, more, later) := ReadRun(left - |bytes|, rest); (e, bytes + more, later)
  }

  /** Whatever is read is the head of the stream, and the rest of the stream is still to come. */
  lemma {:induction false} ReadRunConserves(left: nat, events: seq<ReadEvent>)
    ensures var r := ReadRun(left, events); Payload(events) == r.1 + Payload(r.2)
    decreases ScriptSize(events)
  {
    if left == 0 {
      Units(Payload(events));
    } else {
      var (o, rest) := Deliver(events, left);
      Units(Payload(rest));
      if o.GotInterrupted? {
        ReadRunConserves(left, rest);
      } else if o.Got? && o.bytes != [] {
        ReadRunConserves(left - |o.bytes|, rest);
        var later := ReadRun(left - |o.bytes|, rest);
        Assoc(o.bytes, later.1, Payload(later.2));
      }
    }
  }

  /** Nothing goes wrong: data and interrupted calls only. */
  ghost predicate Healthy(events: seq<ReadEvent>) {
    forall e | e in events :: e.ReadInterrupted? || (e.Data? && e.chunk != [])
  }

  lemma DeliverHealthy(events: seq<ReadEvent>, room: nat)
    requires Healthy(events) && events != [] && room > 0
    ensures var (o, rest) := Deliver(events, room); Healthy(rest) && (o.GotInterrupted? || (o.Got? && o.bytes != []))
  {
    assert events[0] in events;
    forall e | e in events[1..] ensures e in events {}
  }

  /** `readn` moves all it is asked for when the stream holds that much and nothing goes wrong. */
  lemma {:induction false} ReadRunReads(left: nat, events: seq<ReadEvent>)
    requires Healthy(events) && left <= |Payload(events)|
    ensures var r := ReadRun(left, events);
      r.0.Whole? && Healthy(r.2) && r.1 == Payload(events)[..left] && Payload(r.2) == Payload(events)[left..]
    decreases ScriptSize(events)
  {
    ReadRunConserves(left, events);
    var r := ReadRun(left, events);
    if left > 0 {
      DeliverHealthy(events, left);
      var (o, rest) := Deliver(events, left);
      ReadRunReads(if o.Got? then left - |o.bytes| else left, rest);
    }
    CutConcat(r.1, Payload(r.2), left);
  }

  /** What arrives before the first read that would block, fails, or finds the end of the stream. */
  function Ready(events: seq<ReadEvent>): Text {
    if events == [] then []
    else match events[0]
      case Data(c) => if c == [] then [] else c + Ready(events[1..])
      case ReadInterrupted => Ready(events[1..])
      case _ => []
  }

  /** Short and interrupted reads are followed up: everything asked for is read if and only if that much arrives in
      time; otherwise exactly what does. */
  lemma {:induction false} ReadRunExact(left: nat, events: seq<ReadEvent>)
    ensures var (e, bytes, _) := ReadRun(left, events); var ready := Ready(events);
      bytes == (if left <= |ready| then ready[..left] else ready) && (e.Whole? <==> left <= |ready|)
    decreases ScriptSize(events)
  {
    if left > 0 && events != [] {
      match events[0]
      case Data(c) =>
        if c != [] {
          var taken := if |c| <= left then c else c[..left];
          var (o, rest) := Deliver(events, left);
          ReadyBehind(events, left);
          ReadRunExact(left - |taken|, rest);
          TakeBehind(taken, Ready(rest), left);
        }
      case ReadInterrupted => ReadRunExact(left, events[1..]);
      case _ =>
    }
  }

  lemma ReadyBehind(events: seq<ReadEvent>, room: nat)
    requires events != [] && events[0].Data? && events[0].chunk != [] && room > 0
    ensures var (o, rest) := Deliver(events, room); var c := events[0].chunk;
      o == Got(if |c| <= room then c else c[..room]) && Ready(events) == o.bytes + Ready(rest)
  {
    var c := events[0].chunk;
    if |c| > room {
      var rest := [Data(c[room..])] + events[1..];
      assert rest[1..] == events[1..] && c == c[..room] + c[room..];
      Assoc(c[..room], c[room..], Ready(events[1..]));
    }
  }

  lemma TakeBehind(a: Text, b: Text, n: nat)
    requires |a| <= n
    ensures n <= |a + b| ==> (a + b)[..n] == a + b[..n - |a|]
  {
  }

  // ---- Lines ----

  /** What `receive_line` gives back; `NoRoom` stands for an append the receive buffer makes no room for. */
  datatype Reply = Line(text: Text) | NotConnected | Lost | NoRoom

  /** `receive_line` on a connected client. */
  function LineRun(b: Buf, events: seq<ReadEvent>): (r: (Reply, Buf, seq<ReadEvent>))
    requires b.Valid()
    ensures r.1.Valid()
    decreases ScriptSize(events)
  {
    match Find(b.bytes, LF)
    case Some(i) => (Line(StripCr(b.bytes[..i])), b.Retrieve(i + 1), events)
    case None =>
      var (o, rest) := Deliver(events, RECV_SIZE);
      match o
      case GotInterrupted => LineRun(b, rest)
      case GotAgain => (Lost, b, rest)
      case GotError(_) => (Lost, b, rest)
      case Got(bytes) =>
        if bytes == [] then (Lost, b, rest)
        else if !b.RoomFor(|bytes|) then (NoRoom, b, rest)
        else LineRun(b.Append(bytes), rest)
  }

  /** One round of its loop. */
  lemma LineRunRound(b: Buf, events: seq<ReadEvent>)
    requires b.Valid()
    ensures var f := Find(b.bytes, LF); var (o, rest) := Deliver(events, RECV_SIZE);
      LineRun(b, events)
      == if f.Some? then (Line(StripCr(b.bytes[..f.value])), b.Retrieve(f.value + 1), events)
         else if o.GotInterrupted? then LineRun(b, rest)
         else if !o.Got? || o.bytes == [] then (Lost, b, rest)
         else if !b.RoomFor(|o.bytes|) then (NoRoom, b, rest)
         else LineRun(b.Append(o.bytes), rest)
  {
    hide Find, StripCr, Deliver, Buf.Append, Buf.RoomFor, Buf.Retrieve, Buf.Valid;
  }

  lemma ScriptShrinks(events: seq<ReadEvent>)
    ensures var (o, rest) := Deliver(events, RECV_SIZE); o.GotAgain? || ScriptSize(rest) < ScriptSize(events)
  {
  }

  /** A line that is returned is the first line of everything buffered and to come, and what follows its LF
      is what is buffered and to come afterwards. */
  lemma {:induction false} LineRunIsFirstLine(b: Buf, events: seq<ReadEvent>)
    requires b.Valid() && LineRun(b, events).0.Line?
    ensures var (reply, c, rest) := LineRun(b, events); var s := b.bytes + Payload(events);
      && Find(s, LF).Some?
      && var i := Find(s, LF).value;
         reply.text == StripCr(s[..i]) && c.bytes + Payload(rest) == s[i + 1..]
    decreases ScriptSize(events)
  {
    hide LineRun, Find, Deliver, Buf.Append, Buf.RoomFor, Buf.Valid, StripCr;
    LineRunRound(b, events);
    ScriptShrinks(events);
    var f := Find(b.bytes, LF);
    if f.Some? {
      var i := f.value;
      SplitAround(b.bytes, i);
      FindAt(b.bytes[..i], LF, b.bytes[i + 1..] + Payload(events));
      Assoc(b.bytes[..i] + [LF], b.bytes[i + 1..], Payload(events));
      CutConcat(b.bytes, Payload(events), i);
      CutConcat(b.bytes, Payload(events), i + 1);
    } else {
      var (o, rest) := Deliver(events, RECV_SIZE);
      if o.Got? {
        Assoc(b.bytes, o.bytes, Payload(rest));
        LineRunIsFirstLine(b.Append(o.bytes), rest);
      } else {
        LineRunIsFirstLine(b, rest);
      }
    }
  }

  /** Up to `k` calls, stopping at the first that gives no line. */
  function LinesRun(b: Buf, events: seq<ReadEvent>, k: nat): (r: (seq<Text>, Buf, seq<ReadEvent>))
    requires b.Valid()
    ensures |r.0| <= k
    decreases k
  {
    if k == 0 then ([], b, events)
    else
      var (reply, c, rest) := LineRun(b, events);
      if !reply.Line? then ([], c, rest)
      else var (lines, d, later) := LinesRun(c, rest, k - 1); ([reply.text] + lines, d, later)
  }

  lemma LinesRunStep(b: Buf, events: seq<ReadEvent>, k: nat)
    requires b.Valid()
    ensures k == 0 || !LineRun(b, events).0.Line? ==> LinesRun(b, events, k).0 == []
    ensures k > 0 && LineRun(b, events).0.Line? ==>
              var (reply, c, rest) := LineRun(b, events);
              LinesRun(b, events, k).0 == [reply.text] + LinesRun(c, rest, k - 1).0
  {
    hide LineRun;
  }

  /** Call after call the client reads the lines of the stream, in order, however it is cut up. */
  lemma {:induction false} ClientReadsLines(b: Buf, events: seq<ReadEvent>, k: nat)
    requires b.Valid()
    ensures LinesRun(b, events, k).0 <= ClientLines(SplitLines(b.bytes + Payload(events)).lines)
    decreases k
  {
    hide LineRun, LinesRun, Find, StripCr, SplitLines, ClientLines, Buf.Valid;
    LinesRunStep(b, events, k);
    if k > 0 && LineRun(b, events).0.Line? {
      var (reply, c, rest) := LineRun(b, events);
      LineRunIsFirstLine(b, events);
      FirstClientLine(b.bytes + Payload(events));
      ClientReadsLines(c, rest, k - 1);
      PrefixCons(reply.text, LinesRun(c, rest, k - 1).0, ClientLines(SplitLines(c.bytes + Payload(rest)).lines));
    }
  }

  lemma FirstClientLine(s: Text)
    requires Find(s, LF).Some?
    ensures var i := Find(s, LF).value; var lines, later := SplitLines(s).lines, SplitLines(s[i + 1..]).lines;
      |lines| == |later| + 1 && ClientLines(lines) == [StripCr(s[..i])] + ClientLines(later)
  {
    hide Find;
    var i := Find(s, LF).value;
    assert ([s[..i]] + SplitLines(s[i + 1..]).lines)[1..] == SplitLines(s[i + 1..]).lines;
  }

  lemma PrefixCons<T>(x: T, a: seq<T>, b: seq<T>)
    requires a <= b
    ensures [x] + a <= [x] + b
  {
  }

  /** Everything still to come fits behind the writer index. */
  predicate Fits(b: Buf, events: seq<ReadEvent>) { b.Writer() + |Payload(events)| <= b.size }

  /** Then a complete line is always received. */
  lemma {:induction false} LineRunReceives(b: Buf, events: seq<ReadEvent>)
    requires b.Valid() && Healthy(events) && Fits(b, events) && LF in b.bytes + Payload(events)
    ensures var (reply, c, rest) := LineRun(b, events); reply.Line? && Healthy(rest) && Fits(c, rest)
    decreases ScriptSize(events)
  {
    hide Deliver;
    if LF !in b.bytes {
      Units(b.bytes);
      DeliverHealthy(events, RECV_SIZE);
      var (o, rest) := Deliver(events, RECV_SIZE);
      if o.Got? {
        Assoc(b.bytes, o.bytes, Payload(rest));
        LineRunReceives(b.Append(o.bytes), rest);
      } else {
        LineRunReceives(b, rest);
      }
    }
  }

  lemma LineInStream(s: Text)
    ensures SplitLines(s).lines != [] ==> LF in s
  {
  }

  lemma {:induction false} LinesRunReceives(b: Buf, events: seq<ReadEvent>, k: nat)
    requires b.Valid() && Healthy(events) && Fits(b, events)
    requires k <= |SplitLines(b.bytes + Payload(events)).lines|
    ensures |LinesRun(b, events, k).0| == k
    decreases k
  {
    hide LineRun, LinesRun, Fits, SplitLines, Find, ClientLines, Buf.Valid;
    if k > 0 {
      LineInStream(b.bytes + Payload(events));
      LineRunReceives(b, events);
      LinesRunStep(b, events, k);
      LineRunIsFirstLine(b, events);
      FirstClientLine(b.bytes + Payload(events));
      var (_, c, rest) := LineRun(b, events);
      LinesRunReceives(c, rest, k - 1);
    }
  }

  /** The echo session end to end: however the requests are cut up on the way to the server and the replies on
      the way back, a client that reads as many lines as it sent messages reads its own messages, in order. */
  lemma EchoSession(msgs: seq<Text>, toServer: seq<Text>, events: seq<ReadEvent>)
    requires EchoSafe(msgs) && Concat(toServer) == Terminated(msgs)
    requires Payload(events) == EchoReplies(NO_LINES.ReadAll(toServer).handed)
    requires Healthy(events) && |Payload(events)| <= INITIAL_BUFFER_SIZE
    ensures LinesRun(EMPTY_BUF, events, |msgs|).0 == msgs
  {
    hide LinesRun, SplitLines, ClientLines, EchoReplies, Decoder.ReadAll, LineDecoder.ReadAll;
    var s := Payload(events);
    Units(s);
    OneChunk(s);
    EchoRoundTrip(msgs, toServer, [s]);
    CountClientLines(SplitLines(s).lines);
    assert EMPTY_BUF.bytes + s == s;
    LinesRunReceives(EMPTY_BUF, events, |msgs|);
    ClientReadsLines(EMPTY_BUF, events, |msgs|);
  }

  lemma CountClientLines(lines: seq<Text>)
    ensures |ClientLines(lines)| == |lines|
  {
  }

  // ---- Length-prefixed responses ----

  datatype Response = Payloaded(text: Text) | Unconnected | ConnectionLost | TooLarge

  /** `receive_protobuf` on a connected client, up to the parsing of the payload. */
  function ResponseRun(events: seq<ReadEvent>): (Response, seq<ReadEvent>) {
    var (e, header, rest) := ReadRun(4, events);
    if !e.Whole? then (ConnectionLost, rest)
    else if Be32(header) > MAX_RESPONSE_SIZE then (TooLarge, rest)
    else
      var (f, body, later) := ReadRun(Be32(header), rest);
      if f.Whole? then (Payloaded(body), later) else (ConnectionLost, later)
  }

  /** A payload that is returned has the announced length and is the head of the stream behind its header. */
  lemma ResponseIsFirstFrame(events: seq<ReadEvent>)
    requires ResponseRun(events).0.Payloaded?
    ensures var (reply, rest) := ResponseRun(events); var s := Payload(events);
      && 4 <= |s| && |reply.text| == Be32(s[..4]) <= MAX_RESPONSE_SIZE
      && s == s[..4] + reply.text + Payload(rest)
  {
    hide ReadRun, Be32;
    var (_, header, rest) := ReadRun(4, events);
    var (_, body, later) := ReadRun(Be32(header), rest);
    ReadRunConserves(4, events);
    ReadRunConserves(Be32(header), rest);
    CutConcat(header, Payload(rest), 4);
    assert header[..4] == header;
    Assoc(header, body, Payload(later));
  }

  /** What the server frames is what the client gets, for every payload up to the client's own limit. */
  lemma ResponseReceived(p: Text, events: seq<ReadEvent>, later: Text)
    requires Healthy(events) && Payload(events) == Frame(p) + later && |p| <= MAX_RESPONSE_SIZE
    ensures var (reply, rest) := ResponseRun(events);
      reply == Payloaded(p) && Healthy(rest) && Payload(rest) == later
  {
    hide ReadRun, Be32, Header;
    var h := Header(|p|);
    HeaderRoundTrip(|p|);
    Assoc(h, p, later);
    CutConcat(h, p + later, 4);
    assert h[..4] == h && h[4..] == [];
    Units(p + later);
    ReadRunReads(4, events);
    CutConcat(p, later, |p|);
    assert p[..|p|] == p && p[|p|..] == [];
    Units(later);
    ReadRunReads(|p|, ReadRun(4, events).2);
  }

  /** `k` calls, stopping at the first that gives no payload. */
  function ResponsesRun(events: seq<ReadEvent>, k: nat): seq<Text>
    decreases k
  {
    if k == 0 || !ResponseRun(events).0.Payloaded? then []
    else [ResponseRun(events).0.text] + ResponsesRun(ResponseRun(events).1, k - 1)
  }

  /** All responses of a session arrive in order over any fragmentation; no short one is left behind, unlike in
      the server's own decoder. */
  lemma {:induction false} ResponsesReceived(payloads: seq<Text>, events: seq<ReadEvent>)
    requires Healthy(events) && Payload(events) == Frames(payloads)
    requires forall p | p in payloads :: |p| <= MAX_RESPONSE_SIZE
    ensures ResponsesRun(events, |payloads|) == payloads
    decreases |payloads|
  {
    if payloads != [] {
      hide ResponseRun, Frame;
      ResponseReceived(payloads[0], events, Frames(payloads[1..]));
      ResponsesReceived(payloads[1..], ResponseRun(events).1);
      assert [payloads[0]] + payloads[1..] == payloads;
    }
  }

  /** The length-prefixed session end to end: however the requests are cut up on the way to the server and the
      responses on the way back, the server takes out the requests that were framed, and the client gets the
      serialised reply to each of them, in order. The last request must not be one the decoder may leave behind. */
  lemma ProtobufSession(reqs: seq<Text>, toServer: seq<Text>, reply: nat -> Option<Text>, resps: seq<Text>,
                        events: seq<ReadEvent>)
    requires forall p | p in reqs :: |p| <= MAX_FRAME_SIZE
    requires Concat(toServer) == Frames(reqs) && (reqs == [] || !(1 <= |reqs[|reqs| - 1]| <= 3))
    requires |resps| == |reqs| && forall p | p in resps :: p != [] && |p| <= MAX_RESPONSE_SIZE
    requires forall j | 0 <= j < |resps| :: reply(j) == Some(resps[j])
    requires Healthy(events) && Payload(events) == AllSent(Replies(reply), 0, |NO_FRAMES.ReadAll(toServer).frames|)
    ensures NO_FRAMES.ReadAll(toServer).frames == reqs
    ensures ResponsesRun(events, |reqs|) == resps
  {
    hide Decoder.ReadAll, AllSent, Replies, Frames, ResponsesRun, Healthy, Payload;
    hide ReplyPayloads, Decode, Rested, Header;
    FramesRoundTrip(reqs, toServer);
    ReplyStream(reply, resps);
    ResponsesReceived(resps, events);
  }

  lemma ReplyStream(reply: nat -> Option<Text>, resps: seq<Text>)
    requires forall p | p in resps :: p != []
    requires forall j | 0 <= j < |resps| :: reply(j) == Some(resps[j])
    ensures AllSent(Replies(reply), 0, |resps|) == Frames(resps)
  {
    hide AllSent, Replies, Frames;
    forall j | 0 <= j < |resps| ensures reply(0 + j) == Some(resps[j]) && resps[j] != [] {
      assert resps[j] in resps;
    }
    SerialisedRepliesAreSent(reply, 0, resps);
  }

  // ---- The methods ----

  method Writen(socket: Socket, data: Text) returns (r: int)
    modifies socket`writes, socket`sent
    ensures var (e, moved, rest) := WriteRun(|data|, old(socket.writes));
      && r == e.Returned(|data|, moved)
      && socket.writes == rest && socket.sent == old(socket.sent) + data[..moved]
  {
    var nleft := |data|;
    Units(socket.sent);
    while nleft > 0
      invariant 0 <= nleft <= |data| && socket.sent == old(socket.sent) + data[..|data| - nleft]
      invariant var (e, moved, rest) := WriteRun(|data|, old(socket.writes));
        var (f, more, later) := WriteRun(nleft, socket.writes);
        e == f && moved == |data| - nleft + more && rest == later
      decreases |socket.writes| + if nleft > 0 then 1 else 0
    {
      var at := |data| - nleft;
      var outcome := socket.Write(data[at..]);
      match outcome {
        case WroteInterrupted =>
        case WroteAgain => return |data| - nleft;
        case WroteError(_) => return -1;
        case Wrote(n) =>
          Assoc(old(socket.sent), data[..at], data[at..][..n]);
          TakeMore(data, at, n);
          nleft := nleft - n;
      }
    }
    return |data|;
  }

  method Readn(socket: Socket, count: nat) returns (r: int, buf: Text)
    modifies socket`events
    ensures var (e, bytes, rest) := ReadRun(count, old(socket.events));
      r == e.Returned(count, |bytes|) && buf == bytes && socket.events == rest
  {
    var nleft := count;
    buf := [];
    Units(ReadRun(count, socket.events).1);
    while nleft > 0
      invariant nleft == count - |buf|
      invariant var (e, bytes, rest) := ReadRun(count, old(socket.events));
        var (f, more, later) := ReadRun(nleft, socket.events);
        e == f && bytes == buf + more && rest == later
      decreases ScriptSize(socket.events), nleft
    {
      Units(buf);
      ghost var more := ReadRun(nleft, socket.events).1;
      var outcome := socket.Read(nleft);
      match outcome {
        case GotInterrupted =>
        case GotAgain => return count - nleft, buf;
        case GotError(_) => return -1, buf;
        case Got(bytes) =>
          if bytes == [] {
            return -1, buf;
          }
          Assoc(buf, bytes, ReadRun(nleft - |bytes|, socket.events).1);
          buf, nleft := buf + bytes, nleft - |bytes|;
      }
    }
    Units(buf);
    return count, buf;
  }

  class TcpClient {
    const socket: Socket
    const recvBuf: Buffer
    var connected: bool

    constructor (socket: Socket)
      ensures this.socket == socket && connected && fresh(recvBuf) && fresh(recvBuf.data)
      ensures recvBuf.Valid() && recvBuf.View() == EMPTY_BUF
    {
      this.socket := socket;
      recvBuf := new Buffer();
      connected := true;
    }

    /** A message and its LF; a short transfer counts as a failure. */
    method SendMessage(msg: Text) returns (ok: bool)
      modifies this`connected, socket`writes, socket`sent
      ensures !old(connected) ==> !ok && !connected && socket.sent == old(socket.sent)
      ensures old(connected) ==>
                var (e, moved, rest) := WriteRun(|msg| + 1, old(socket.writes));
                && ok == connected == e.Whole? && socket.writes == rest
                && socket.sent == old(socket.sent) + (msg + [LF])[..moved]
      ensures ok ==> socket.sent == old(socket.sent) + (msg + [LF])
      ensures ok <==> old(connected) && |msg| + 1 <= Offered(old(socket.writes))
    {
      if !connected {
        return false;
      }
      var data := msg + [LF];
      WriteRunExact(|data|, socket.writes);
      assert data[..|data|] == data;
      var sent := Writen(socket, data);
      ok := sent == |data|;
      connected := ok;
    }

    /** One line. The check for more than MAX_BUFFER_SIZE buffered bytes can never fire: the storage holds no more. */
    method ReceiveLine() returns (reply: Reply)
      requires recvBuf.Valid()
      modifies this`connected, recvBuf, recvBuf.data, socket`events
      ensures recvBuf.Valid() && (recvBuf.data == old(recvBuf.data) || fresh(recvBuf.data))
      ensures !old(connected) ==> reply == NotConnected && recvBuf.View() == old(recvBuf.View()) && !connected
      ensures old(connected) ==>
                && (reply, recvBuf.View(), socket.events) == LineRun(old(recvBuf.View()), old(socket.events))
                && (connected <==> !reply.Lost?)
    {
      hide Buf.Append, Buf.RoomFor, Buf.Retrieve, Buf.Valid, Buffers.Buffer.View, Buffers.Buffer.Peek;
      hide Deliver, Payload, ScriptSize, StripCr, Find, LineRun;
      if !connected {
        return NotConnected;
      }
      while true
        invariant recvBuf.Valid() && (recvBuf.data == old(recvBuf.data) || fresh(recvBuf.data)) && connected
        invariant LineRun(old(recvBuf.View()), old(socket.events)) == LineRun(recvBuf.View(), socket.events)
        decreases ScriptSize(socket.events)
      {
        LineRunRound(recvBuf.View(), socket.events);
        ScriptShrinks(socket.events);
        var eol := recvBuf.FindEol();
        if eol.Some? {
          var line := StripCr(recvBuf.Peek()[..eol.value]);
          recvBuf.Retrieve(eol.value + 1);
          return Line(line);
        }
        var outcome := socket.Read(RECV_SIZE);
        match outcome {
          case GotInterrupted =>
          case GotAgain => connected := false; return Lost;
          case GotError(_) => connected := false; return Lost;
          case Got(bytes) =>
            if bytes == [] {
              connected := false;
              return Lost;
            }
            if !recvBuf.View().RoomFor(|bytes|) {
              return NoRoom;
            }
            recvBuf.Append(bytes);
        }
      }
    }

    /** The length and the payload, in two transfers. */
    method SendProtobuf(data: Text) returns (ok: bool)
      modifies this`connected, socket`writes, socket`sent
      ensures !old(connected) ==> !ok && !connected && socket.sent == old(socket.sent)
      ensures old(connected) ==>
                var (whole, moved, rest) := FrameRun(|data|, old(socket.writes));
                && ok == connected == whole && socket.writes == rest
                && socket.sent == old(socket.sent) + Frame(data)[..moved]
      ensures ok ==> socket.sent == old(socket.sent) + Frame(data)
    {
      hide Header, WriteRun;
      if !connected {
        return false;
      }
      var header := Header(|data|);
      ghost var k := WriteRun(4, socket.writes).1;
      var sent := Writen(socket, header);
      assert header[..k] == Frame(data)[..k];
      connected := sent == |header|;
      if !connected {
        return false;
      }
      assert header[..4] == header;
      ghost var j := WriteRun(|data|, socket.writes).1;
      sent := Writen(socket, data);
      Assoc(old(socket.sent), header, data[..j]);
      assert header + data[..j] == Frame(data)[..4 + j];
      assert Frame(data)[..4 + |data|] == Frame(data);
      connected := sent == |data|;
      return connected;
    }

    method ReceiveProtobuf() returns (reply: Response)
      modifies this`connected, socket`events
      ensures !old(connected) ==> reply == Unconnected && !connected && socket.events == old(socket.events)
      ensures old(connected) ==>
                (reply, socket.events) == ResponseRun(old(socket.events)) && (connected <==> reply.Payloaded?)
    {
      hide ReadRun, Be32;
      if !connected {
        return Unconnected;
      }
      var n, header := Readn(socket, 4);
      if n != 4 {
        connected := false;
        return ConnectionLost;
      }
      var length := Be32(header);
      if length > MAX_RESPONSE_SIZE {
        connected := false;
        return TooLarge;
      }
      var body;
      n, body := Readn(socket, length);
      if n != length {
        connected := false;
        return ConnectionLost;
      }
      return Payloaded(body);
    }
  }
}
