/** When `receive_line` of the client has room for what it receives: exactly, for one call and for a session. */
module ClientRoom {
  import opened Config
  import opened Bytes
  import opened Sockets
  import opened Buffers
  import opened LineProtocol
  import opened Clients

  /** How many readable bytes the buffer can come to hold by small appends, before anything is consumed: with a
      short consumed prefix it neither compacts nor grows. */
  function Cap(b: Buf): int {
    if 0 < b.reader < PREPEND_THRESHOLD then b.size - b.reader else MAX_BUFFER_SIZE
  }

  lemma WithinCap(b: Buf, data: Text)
    requires b.Valid() && |b.bytes| + |data| <= Cap(b)
    ensures b.RoomFor(|data|) && Cap(b.Append(data)) == Cap(b)
  {
  }

  /** One byte too many, if it comes with no more than what still fits. */
  lemma BeyondCap(b: Buf, n: nat)
    requires b.Valid() && n > 0 && |b.bytes| + n == Cap(b) + 1
    ensures !b.RoomFor(n)
  {
  }

  /** The furthest the buffer may have to reach for the line that ends at `i`: a last read of up to 4096 bytes may
      take in bytes behind it. */
  function Reach(s: Text, i: nat): int { i + Min(RECV_SIZE, |s| - i) }

  lemma {:induction false} LineArrives(b: Buf, events: seq<ReadEvent>)
    requires b.Valid() && Healthy(events) && LF in b.bytes + Payload(events)
    requires var s := b.bytes + Payload(events); LF in b.bytes || Reach(s, Find(s, LF).value) <= Cap(b)
    ensures LineRun(b, events).0.Line?
    decreases ScriptSize(events)
  {
    hide Deliver, Find, LineRun, StripCr, Buf.Append, Buf.RoomFor, Buf.Valid, Cap;
    LineRunRound(b, events);
    if LF !in b.bytes {
      Units(b.bytes);
      DeliverHealthy(events, RECV_SIZE);
      ScriptShrinks(events);
      var (o, rest) := Deliver(events, RECV_SIZE);
      if o.Got? {
        var s := b.bytes + Payload(events);
        FirstLfBehind(b.bytes, Payload(events));
        Assoc(b.bytes, o.bytes, Payload(rest));
        WithinCap(b, o.bytes);
        LineArrives(b.Append(o.bytes), rest);
      } else {
        LineArrives(b, rest);
      }
    }
  }

  lemma FirstLfBehind(a: Text, b: Text)
    requires LF !in a && LF in a + b
    ensures |a| <= Find(a + b, LF).value < |a + b|
  {
    assert forall j | 0 <= j < |a| :: (a + b)[j] == a[j] && a[j] in a;
  }

  function DataOf(x: Text): seq<ReadEvent> { if x == [] then [] else [Data(x)] }

  /** One read of one chunk. */
  lemma OneRead(b: Buf, x: Text, rest: seq<ReadEvent>)
    requires b.Valid() && LF !in b.bytes && 0 < |x| <= RECV_SIZE
    ensures LineRun(b, [Data(x)] + rest) == if b.RoomFor(|x|) then LineRun(b.Append(x), rest) else (NoRoom, b, rest)
  {
    hide LineRun, Find, StripCr, Buf.Append, Buf.RoomFor, Buf.Valid;
    LineRunRound(b, [Data(x)] + rest);
    assert ([Data(x)] + rest)[1..] == rest;
  }

  /** Bytes without LF that fit are read, in however many reads, and the call goes on. */
  lemma {:induction false} ReadsThrough(b: Buf, x: Text, rest: seq<ReadEvent>) returns (c: Buf)
    requires b.Valid() && LF !in b.bytes && LF !in x && |b.bytes| + |x| <= Cap(b)
    ensures c.Valid() && c.bytes == b.bytes + x && Cap(c) == Cap(b) && LF !in c.bytes
    ensures LineRun(b, DataOf(x) + rest) == LineRun(c, rest)
    decreases |x|
  {
    hide LineRun, Find, Buf.Append, Buf.RoomFor, Buf.Valid, Cap;
    Units(rest);
    if x == [] {
      Units(b.bytes);
      c := b;
    } else if |x| <= RECV_SIZE {
      OneRead(b, x, rest);
      WithinCap(b, x);
      c := b.Append(x);
    } else {
      var y, z := x[..RECV_SIZE], x[RECV_SIZE..];
      assert x == y + z;
      WithinCap(b, y);
      BigChunk(b, x, rest);
      c := ReadsThrough(b.Append(y), z, rest);
      Assoc(b.bytes, y, z);
    }
  }

  lemma BigChunk(b: Buf, x: Text, rest: seq<ReadEvent>)
    requires b.Valid() && LF !in b.bytes && |x| > RECV_SIZE && b.RoomFor(RECV_SIZE)
    ensures LineRun(b, [Data(x)] + rest) == LineRun(b.Append(x[..RECV_SIZE]), DataOf(x[RECV_SIZE..]) + rest)
  {
    hide LineRun, Find, StripCr, Buf.Append, Buf.RoomFor, Buf.Valid;
    LineRunRound(b, [Data(x)] + rest);
    assert ([Data(x)] + rest)[1..] == rest;
  }

  /** A cut that leaves the buffer without room: fill it up, or stop before the LF, and deliver one byte more than
      fits. */
  lemma LineIsCut(b: Buf, p: Text) returns (events: seq<ReadEvent>)
    requires b.Valid() && LF !in b.bytes && LF in b.bytes + p
    requires var s := b.bytes + p; Reach(s, Find(s, LF).value) > Cap(b)
    ensures Healthy(events) && Payload(events) == p && LineRun(b, events).0 == NoRoom
  {
    hide LineRun, Find, Buf.Append, Buf.RoomFor, Cap, Healthy, Payload;
    var s := b.bytes + p;
    var i := Find(s, LF).value;
    FirstLfBehind(b.bytes, p);
    HeldIsWithinCap(b);
    var k := Min(i, Cap(b)) - |b.bytes|;
    var n := Cap(b) - |b.bytes| - k + 1;
    var x, y, z := p[..k], p[k..k + n], p[k + n..];
    NoLfBefore(b.bytes, p, k);
    events := DataOf(x) + ([Data(y)] + DataOf(z));
    PiecesHealthy(x, y, z);
    assert x + (y + z) == p;
    var c := ReadsThrough(b, x, [Data(y)] + DataOf(z));
    OneRead(c, y, DataOf(z));
    BeyondCap(c, n);
  }

  lemma HeldIsWithinCap(b: Buf)
    requires b.Valid()
    ensures |b.bytes| <= Cap(b)
  {
  }

  lemma NoLfBefore(a: Text, b: Text, k: nat)
    requires LF in a + b && |a| + k <= Find(a + b, LF).value && k <= |b|
    ensures LF !in b[..k]
  {
    var i := Find(a + b, LF).value;
    assert forall j | 0 <= j < k :: b[..k][j] == (a + b)[..i][|a| + j];
  }

  lemma PiecesHealthy(x: Text, y: Text, z: Text)
    requires y != []
    ensures var events := DataOf(x) + ([Data(y)] + DataOf(z)); Healthy(events) && Payload(events) == x + (y + z)
  {
    RestHealthy(z);
    FirstChunk(y, DataOf(z));
    Units([Data(y)] + DataOf(z));
    Units(y + z);
    if x != [] {
      FirstChunk(x, [Data(y)] + DataOf(z));
    }
  }

  lemma RestHealthy(z: Text)
    ensures Healthy(DataOf(z)) && Payload(DataOf(z)) == z
  {
    Units(z);
    assert z != [] ==> DataOf(z)[1..] == [];
  }

  lemma FirstChunk(y: Text, later: seq<ReadEvent>)
    requires y != [] && Healthy(later)
    ensures Healthy([Data(y)] + later) && Payload([Data(y)] + later) == y + Payload(later)
  {
    assert ([Data(y)] + later)[1..] == later;
  }

  /** One call, exactly: the line is received however the kernel cuts up the stream if and only if the furthest
      the buffer may have to reach is within its cap. */
  lemma LineReceivedExact(b: Buf, p: Text)
    requires b.Valid() && LF !in b.bytes && LF in b.bytes + p
    ensures var s := b.bytes + p;
      (forall events | Healthy(events) && Payload(events) == p :: LineRun(b, events).0.Line?)
      <==> Reach(s, Find(s, LF).value) <= Cap(b)
  {
    hide LineRun, Find, Cap, Buf.Valid;
    var s := b.bytes + p;
    if Reach(s, Find(s, LF).value) <= Cap(b) {
      forall events | Healthy(events) && Payload(events) == p ensures LineRun(b, events).0.Line? {
        LineArrives(b, events);
      }
    } else {
      var events := LineIsCut(b, p);
      assert !LineRun(b, events).0.Line?;
    }
  }

  // ---- Sessions ----

  /** Lines that are all terminated and none of them empty. */
  ghost predicate FullLines(s: Text) {
    && s != [] && s[|s| - 1] == LF
    && forall i | 0 <= i < |s| && s[i] == LF :: i > 0 && s[i - 1] != LF
  }

  lemma FitsBehind(b: Buf, y: Text)
    requires b.Valid() && |y| <= b.Writable()
    ensures b.RoomFor(|y|) && b.Append(y) == b.(bytes := b.bytes + y)
  {
  }

  /** The same first step, then the same session. */
  lemma SameSession(b: Buf, e: seq<ReadEvent>, c: Buf, f: seq<ReadEvent>, k: nat)
    requires b.Valid() && c.Valid() && k > 0 && LineRun(b, e) == LineRun(c, f)
    ensures LinesRun(b, e, k).0 == LinesRun(c, f, k).0
  {
    hide LineRun, LinesRun, Buf.Valid;
    LinesRunStep(b, e, k);
    LinesRunStep(c, f, k);
  }

  /** No room for one byte more than fits: some prefix is consumed, too little to be compacted. */
  lemma Stuck(b: Buf, t: Text, n: nat)
    requires b.Valid() && b.size == INITIAL_BUFFER_SIZE && LF !in b.bytes && t != []
    requires n == b.Writable() + 1 && (n == 1 || (n == 2 && t[0] == LF))
    requires LF in b.bytes + t && (b.reader == 0 ==> Find(b.bytes + t, LF).value + 1 < INITIAL_BUFFER_SIZE)
    ensures !b.RoomFor(n)
  {
    hide Find;
    FirstLfBehind(b.bytes, t);
    assert n == 2 ==> (b.bytes + t)[|b.bytes|] == LF;
    if b.reader == 0 && n == 2 {
      LfAt(b.bytes, t);
    }
  }

  lemma LfAt(a: Text, t: Text)
    requires LF !in a && t != [] && t[0] == LF
    ensures Find(a + t, LF) == Some(|a|)
  {
    assert t == [LF] + t[1..];
    Assoc(a, [LF], t[1..]);
    FindAt(a, LF, t[1..]);
  }

  /** A line is completed and one more byte comes with it, which stays behind. */
  lemma TakesLine(b: Buf, y: Text, later: seq<ReadEvent>)
    requires b.Valid() && LF !in b.bytes && |y| == 2 <= b.Writable() && y[0] == LF
    ensures var d := Buf(b.size, b.reader + |b.bytes| + 1, [y[1]]);
      d.Valid() && LineRun(b, [Data(y)] + later) == (Line(StripCr(b.bytes)), d, later)
  {
    hide LineRun, Find, StripCr, Buf.Append, Buf.RoomFor, Buf.Retrieve;
    OneRead(b, y, later);
    FitsBehind(b, y);
    var c := b.(bytes := b.bytes + y);
    LfAt(b.bytes, y);
    LineRunRound(c, later);
    assert c.bytes[..|b.bytes|] == b.bytes && c.bytes[|b.bytes| + 1..] == [y[1]];
    Retrieved(c, |b.bytes| + 1);
  }

  lemma Retrieved(b: Buf, n: nat)
    requires n < |b.bytes|
    ensures b.Retrieve(n) == Buf(b.size, b.reader + n, b.bytes[n..])
  {
  }

  lemma BehindLine(a: Text, t: Text)
    requires LF !in a && FullLines(a + t) && |t| >= 2 && t[0] == LF
    ensures (a + t)[|a| + 1..] == [t[1]] + t[2..] && FullLines([t[1]] + t[2..]) && t[1] != LF
  {
    var s, u := a + t, [t[1]] + t[2..];
    assert s[|a|] == LF && s[|a| + 1] == t[1];
    assert u == s[|a| + 1..];
    assert forall i | 0 <= i < |u| :: u[i] == s[|a| + 1 + i];
  }

  /** `k` lines are still to be read, and more bytes to come than fit behind the writer index. */
  ghost predicate Doomed(b: Buf, t: Text, k: nat) {
    var s := b.bytes + t;
    && b.Valid() && b.size == INITIAL_BUFFER_SIZE && LF !in b.bytes
    && FullLines(s) && k == |SplitLines(s).lines|
    && b.Writer() + |t| > INITIAL_BUFFER_SIZE
    && (b.reader == 0 ==> Find(s, LF).Some? && Find(s, LF).value + 1 < INITIAL_BUFFER_SIZE)
  }

  /** A session whose bytes do not all fit behind the writer index can be cut so that the client gets stuck: bytes
      one at a time, but every LF together with the byte behind it, so that the buffer is never emptied and its
      indices never go back to 0. */
  lemma {:induction false} SessionIsCut(b: Buf, t: Text, k: nat) returns (events: seq<ReadEvent>)
    requires Doomed(b, t, k)
    ensures b.Valid() && Healthy(events) && Payload(events) == t && |LinesRun(b, events, k).0| < k
    decreases |t|
  {
    hide LineRun, LinesRun, Find, Buf.Append, Buf.RoomFor, Healthy, Doomed, StripCr;
    DoomedFacts(b, t, k);
    var n := if t[0] == LF && b.Writable() > 0 then 2 else 1;
    var y, z := t[..n], t[n..];
    assert t == y + z;
    var later;
    if b.Writable() < n {
      later := DataOf(z);
      OneRead(b, y, later);
      DoomedIsStuck(b, t, k);
      LinesRunStep(b, [Data(y)] + later, k);
      RestHealthy(z);
    } else if n == 1 {
      FitsBehind(b, y);
      DoomedByte(b, t, k);
      later := SessionIsCut(b.(bytes := b.bytes + y), z, k);
      OneRead(b, y, later);
      SameSession(b, [Data(y)] + later, b.(bytes := b.bytes + y), later, k);
    } else {
      var d := Buf(b.size, b.reader + |b.bytes| + 1, [y[1]]);
      DoomedLine(b, t, k);
      later := SessionIsCut(d, z, k - 1);
      TakesLine(b, y, later);
      LinesRunStep(b, [Data(y)] + later, k);
    }
    events := [Data(y)] + later;
    FirstChunk(y, later);
  }

  lemma DoomedFacts(b: Buf, t: Text, k: nat)
    requires Doomed(b, t, k)
    ensures b.Valid() && LF !in b.bytes && t != [] && k > 0 && (b.Writable() > 0 && t[0] == LF ==> |t| >= 2)
  {
    hide SplitLines, Find, FullLines;
    LastIsLf(b.bytes + t);
    FirstClientLine(b.bytes + t);
  }

  lemma DoomedIsStuck(b: Buf, t: Text, k: nat)
    requires Doomed(b, t, k)
    ensures b.Valid() && (b.Writable() == 0 ==> !b.RoomFor(1))
    ensures b.Writable() == 1 && t != [] && t[0] == LF ==> !b.RoomFor(2)
  {
    hide SplitLines, Find, FullLines, Buf.RoomFor;
    LastIsLf(b.bytes + t);
    if b.Writable() == 0 || (b.Writable() == 1 && t != [] && t[0] == LF) {
      Stuck(b, t, b.Writable() + 1);
    }
  }

  lemma DoomedByte(b: Buf, t: Text, k: nat)
    requires Doomed(b, t, k) && t != [] && t[0] != LF && b.Writable() > 0
    ensures Doomed(b.(bytes := b.bytes + t[..1]), t[1..], k)
  {
    hide SplitLines, Find, FullLines;
    assert t == t[..1] + t[1..];
    Assoc(b.bytes, t[..1], t[1..]);
  }

  lemma DoomedLine(b: Buf, t: Text, k: nat)
    requires Doomed(b, t, k) && |t| >= 2 && t[0] == LF && b.Writable() >= 2
    ensures k > 0 && Doomed(Buf(b.size, b.reader + |b.bytes| + 1, [t[1]]), t[2..], k - 1)
  {
    hide SplitLines, Find, FullLines;
    LfAt(b.bytes, t);
    BehindLine(b.bytes, t);
    FirstClientLine(b.bytes + t);
  }

  lemma LastIsLf(s: Text)
    requires FullLines(s)
    ensures LF in s && Find(s, LF).Some?
  {
    assert s[|s| - 1] in s;
  }

  /** The replies of an echo session as they are on the wire. */
  lemma {:induction false} SafeLinesAreFull(msgs: seq<Text>)
    requires EchoSafe(msgs) && msgs != []
    ensures FullLines(Terminated(msgs)) && Find(Terminated(msgs), LF) == Some(|msgs[0]|)
  {
    hide FullLines, Find;
    var line := msgs[0];
    assert line in msgs && line != [] && LF !in line;
    FindAt(line, LF, Terminated(msgs[1..]));
    if msgs[1..] != [] {
      assert forall m | m in msgs[1..] :: m in msgs;
      SafeLinesAreFull(msgs[1..]);
    }
    OneLineMore(line, Terminated(msgs[1..]));
  }

  lemma OneLineMore(line: Text, rest: Text)
    requires line != [] && LF !in line && (rest == [] || FullLines(rest))
    ensures FullLines(line + [LF] + rest)
  {
    var s := line + [LF] + rest;
    assert forall j | 0 <= j < |line| :: s[j] == line[j] && line[j] in line;
    assert forall j | |line| < j < |s| :: s[j] == rest[j - |line| - 1];
    assert rest != [] ==> s[|s| - 1] == rest[|rest| - 1];
  }

  /** A session, exactly: for messages of which the first, with its LF, is shorter than 128 KiB, the client reads
      all its messages back however requests and replies are cut up, if and only if the replies together are no
      longer than 128 KiB. */
  lemma EchoSessionExact(msgs: seq<Text>)
    requires EchoSafe(msgs) && (msgs != [] ==> |msgs[0]| + 1 < INITIAL_BUFFER_SIZE)
    ensures (forall toServer, events | Concat(toServer) == Terminated(msgs) && Healthy(events)
                                       && Payload(events) == EchoReplies(NO_LINES.ReadAll(toServer).handed) ::
              LinesRun(EMPTY_BUF, events, |msgs|).0 == msgs)
            <==> |Terminated(msgs)| <= INITIAL_BUFFER_SIZE
  {
    hide LineRun, LinesRun, Find, SplitLines, Terminated, EchoReplies, LineDecoder.ReadAll, Healthy, FullLines;
    hide EchoSafe;
    forall toServer | Concat(toServer) == Terminated(msgs)
      ensures EchoReplies(NO_LINES.ReadAll(toServer).handed) == Terminated(msgs)
    {
      Replies(msgs, toServer);
    }
    if |Terminated(msgs)| <= INITIAL_BUFFER_SIZE {
      forall toServer, events | Concat(toServer) == Terminated(msgs) && Healthy(events)
                                && Payload(events) == EchoReplies(NO_LINES.ReadAll(toServer).handed)
        ensures LinesRun(EMPTY_BUF, events, |msgs|).0 == msgs
      {
        EchoSession(msgs, toServer, events);
      }
    } else {
      SomethingSaid(msgs);
      var events := LongSessionFails(msgs);
      var toServer := [Terminated(msgs)];
      OneChunk(Terminated(msgs));
      assert Concat(toServer) == Terminated(msgs);
    }
  }

  lemma SomethingSaid(msgs: seq<Text>)
    ensures Terminated(msgs) != [] ==> msgs != []
  {
  }

  lemma Replies(msgs: seq<Text>, toServer: seq<Text>)
    requires EchoSafe(msgs) && Concat(toServer) == Terminated(msgs)
    ensures EchoReplies(NO_LINES.ReadAll(toServer).handed) == Terminated(msgs)
  {
    hide SplitLines, Terminated, EchoReplies, LineDecoder.ReadAll;
    EchoSafeFacts(msgs);
    Units(Terminated(msgs));
    LinesOverAnyFragmentation(toServer, msgs, []);
  }

  /** For every longer session, a cut of the replies that loses lines. */
  lemma LongSessionFails(msgs: seq<Text>) returns (events: seq<ReadEvent>)
    requires EchoSafe(msgs) && msgs != [] && |msgs[0]| + 1 < INITIAL_BUFFER_SIZE
    requires |Terminated(msgs)| > INITIAL_BUFFER_SIZE
    ensures Healthy(events) && Payload(events) == Terminated(msgs)
    ensures |LinesRun(EMPTY_BUF, events, |msgs|).0| < |msgs|
  {
    hide LineRun, LinesRun, Find, SplitLines, Terminated, Healthy, FullLines;
    var s := Terminated(msgs);
    Units(s);
    assert EMPTY_BUF.bytes + s == s;
    SafeLinesAreFull(msgs);
    EchoSafeFacts(msgs);
    SplitIsUnique(msgs, []);
    events := SessionIsCut(EMPTY_BUF, s, |msgs|);
  }
}
