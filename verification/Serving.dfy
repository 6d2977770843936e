/** What happens to the output buffer while messages are handled: handlers call `send`, and a `send` that would
    pass the cap shuts the connection down, as a handler itself may do. */
module Serving {
  import opened Config
  import opened Bytes
  import opened Buffers
  import opened LineProtocol
  import opened LengthPrefix

  /** What the handling of one message does: the calls of `send` in order, then possibly a shutdown or an exception. */
  datatype Reaction = Reaction(sends: seq<Text>, closes: bool, throws: bool)

  /** The reactions to the messages of one read event, by position. As it may be any function, the theorems cover
      every handler, and every other thread that sends or closes in between. */
  type Reactions = nat -> Reaction

  /** `send` refuses the bytes, or the append has room for them. */
  predicate Sendable(out: Buf, len: nat) { |out.bytes| + len > MAX_BUFFER_SIZE || out.RoomFor(len) }

  /** The output after one `send` to a live connection; None if it was shut down instead. */
  function SendOne(out: Buf, msg: Text): (r: Option<Buf>)
    requires out.Valid() && (msg != [] ==> Sendable(out, |msg|))
    ensures r.Some? <==> |out.bytes| + |msg| <= MAX_BUFFER_SIZE
    ensures r.Some? ==> r.value.Valid() && r.value.bytes == out.bytes + msg
  {
    Units(out.bytes);
    if msg == [] then Some(out)
    else if |out.bytes| + |msg| > MAX_BUFFER_SIZE then None
    else Some(out.Append(msg))
  }

  /** Every one of these sends is refused or has room. */
  ghost predicate RoomForAll(out: Buf, msgs: seq<Text>)
    requires out.Valid()
    decreases |msgs|
  {
    msgs == [] ||
    (&& (msgs[0] != [] ==> Sendable(out, |msgs[0]|))
     && (SendOne(out, msgs[0]).Some? ==> RoomForAll(SendOne(out, msgs[0]).value, msgs[1..])))
  }

  ghost function SendAll(out: Buf, msgs: seq<Text>): (r: Option<Buf>)
    requires out.Valid() && RoomForAll(out, msgs)
    ensures r.Some? ==> r.value.Valid()
    decreases |msgs|
  {
    if msgs == [] then Some(out)
    else if SendOne(out, msgs[0]).None? then None
    else SendAll(SendOne(out, msgs[0]).value, msgs[1..])
  }

  /** How the handling of a number of messages ends: how many were handled, and if the connection is still alive,
      its output. */
  datatype Served = Served(out: Option<Buf>, count: nat)

  ghost predicate Servable(out: Buf, react: Reactions, i: nat, n: nat)
    requires out.Valid() && i <= n
    decreases n - i
  {
    i == n ||
    (&& RoomForAll(out, react(i).sends)
     && (SendAll(out, react(i).sends).Some? && !react(i).closes
         ==> Servable(SendAll(out, react(i).sends).value, react, i + 1, n)))
  }

  /** Messages `i` to `n` are handled until the connection is shut down. */
  ghost function Serve(out: Buf, react: Reactions, i: nat, n: nat): (r: Served)
    requires out.Valid() && i <= n && Servable(out, react, i, n)
    ensures i <= r.count <= n && (r.out.Some? ==> r.count == n)
    decreases n - i
  {
    if i == n then Served(Some(out), n)
    else if SendAll(out, react(i).sends).None? || react(i).closes then Served(None, i + 1)
    else Serve(SendAll(out, react(i).sends).value, react, i + 1, n)
  }

  /** Everything sent while messages `i` to `n` are handled. */
  ghost function AllSent(react: Reactions, i: nat, n: nat): Text
    requires i <= n
    decreases n - i
  {
    if i == n then [] else Concat(react(i).sends) + AllSent(react, i + 1, n)
  }

  /** The output holds `bytes` and everything sent on top of that stays within the cap. */
  predicate FitsWith(bytes: Text, sent: Text) { |bytes| + |sent| <= MAX_BUFFER_SIZE }

  /** A number of sends leave the connection alive if and only if all of them together stay within the cap. */
  lemma {:induction false} SendAllExact(out: Buf, msgs: seq<Text>)
    requires out.Valid() && RoomForAll(out, msgs)
    ensures SendAll(out, msgs).Some? <==> FitsWith(out.bytes, Concat(msgs))
    ensures SendAll(out, msgs).Some? ==> SendAll(out, msgs).value.bytes == out.bytes + Concat(msgs)
    decreases |msgs|
  {
    hide SendOne;
    Units(out.bytes);
    if msgs != [] && SendOne(out, msgs[0]).Some? {
      var next := SendOne(out, msgs[0]).value;
      SendAllExact(next, msgs[1..]);
      Assoc(out.bytes, msgs[0], Concat(msgs[1..]));
    }
  }

  ghost predicate NobodyCloses(react: Reactions, i: nat, n: nat) {
    forall j | i <= j < n :: !react(j).closes
  }

  /** A connection survives a number of messages if and only if no handler closes it and everything sent stays
      within the cap; then all that was sent is behind its output, in order. Otherwise the last message handled is
      the first that closes it or passes the cap. */
  lemma {:induction false} ServedOutput(out: Buf, react: Reactions, i: nat, n: nat)
    requires out.Valid() && i <= n && Servable(out, react, i, n)
    ensures var v := Serve(out, react, i, n);
      && (v.out.Some? <==> NobodyCloses(react, i, n) && FitsWith(out.bytes, AllSent(react, i, n)))
      && (v.out.Some? ==> v.out.value.bytes == out.bytes + AllSent(react, i, n))
      && (v.out.None? ==>
          && i < v.count
          && NobodyCloses(react, i, v.count - 1) && FitsWith(out.bytes, AllSent(react, i, v.count - 1))
          && (react(v.count - 1).closes || !FitsWith(out.bytes, AllSent(react, i, v.count))))
    decreases n - i
  {
    hide SendAll, RoomForAll;
    Units(out.bytes);
    if i < n {
      var sends := react(i).sends;
      SendAllExact(out, sends);
      assert AllSent(react, i, i + 1) == Concat(sends) by { Units(Concat(sends)); }
      if SendAll(out, sends).Some? && !react(i).closes {
        var next := SendAll(out, sends).value;
        ServedOutput(next, react, i + 1, n);
        Assoc(out.bytes, Concat(sends), AllSent(react, i + 1, n));
      }
    }
  }

  /** `count` of `n` messages have been handled and this is the output, None if the last one ended the connection. */
  ghost predicate ServedSoFar(start: Buf, react: Reactions, n: nat, count: nat, out: Option<Buf>) {
    && start.Valid() && Servable(start, react, 0, n) && count <= n
    && match out
    case None => Serve(start, react, 0, n) == Served(None, count)
    case Some(o) =>
      o.Valid() && Servable(o, react, count, n) && Serve(start, react, 0, n) == Serve(o, react, count, n)
  }

  /** The output when one more message has been handled. */
  ghost function AfterReaction(out: Buf, r: Reaction): Option<Buf>
    requires out.Valid() && RoomForAll(out, r.sends)
  {
    if r.closes then None else SendAll(out, r.sends)
  }

  lemma OneMoreServed(start: Buf, react: Reactions, n: nat, count: nat, out: Buf)
    requires ServedSoFar(start, react, n, count, Some(out)) && count < n
    ensures out.Valid() && RoomForAll(out, react(count).sends)
    ensures ServedSoFar(start, react, n, count + 1, AfterReaction(out, react(count)))
  {
  }

  lemma ServingBegins(start: Buf, react: Reactions, n: nat)
    requires start.Valid() && Servable(start, react, 0, n)
    ensures ServedSoFar(start, react, n, 0, Some(start))
  {
  }

  /** A reaction without sends. */
  lemma NothingSent(out: Buf)
    requires out.Valid()
    ensures RoomForAll(out, []) && SendAll(out, []) == Some(out)
  {
  }

  lemma AllServed(start: Buf, react: Reactions, n: nat, count: nat, out: Option<Buf>)
    requires ServedSoFar(start, react, n, count, out) && (out.Some? ==> count == n)
    ensures start.Valid() && Servable(start, react, 0, n) && Serve(start, react, 0, n) == Served(out, count)
  {
  }

  // ---- The server's own replies ----

  /** `send_protobuf` replaces an empty serialisation. */
  function OrDummy(serialized: Text): Text { if serialized == [] then "empty" else serialized }

  /** The reply to a frame, parsed or not: one frame, or nothing if it could not be serialised. */
  function ReplyTo(serialized: Option<Text>): Reaction {
    Reaction(match serialized case None => [] case Some(s) => [Frame(OrDummy(s))], false, false)
  }

  function Replies(reply: nat -> Option<Text>): Reactions { (i: nat) => ReplyTo(reply(i)) }

  lemma SendSingle(out: Buf, msg: Text)
    requires out.Valid()
    ensures RoomForAll(out, [msg]) <==> (msg != [] ==> Sendable(out, |msg|))
    ensures RoomForAll(out, [msg]) ==> SendAll(out, [msg]) == SendOne(out, msg)
  {
    assert [msg][1..] == [];
  }

  /** What the replies to frames `i` to `n` carry: the serialisation, "empty" for an empty one, and no reply at all
      where there is none. */
  function ReplyPayloads(reply: nat -> Option<Text>, i: nat, n: nat): seq<Text>
    requires i <= n
    decreases n - i
  {
    if i == n then []
    else (match reply(i)
          case None => []
          case Some(s) => if s == [] then ["empty"] else [s]) + ReplyPayloads(reply, i + 1, n)
  }

  /** The replies to frames are frames with these payloads, in frame order, and none of them is empty. */
  lemma {:induction false} RepliesAreFrames(reply: nat -> Option<Text>, i: nat, n: nat)
    requires i <= n
    ensures AllSent(Replies(reply), i, n) == Frames(ReplyPayloads(reply, i, n))
    ensures forall p | p in ReplyPayloads(reply, i, n) :: p != []
    decreases n - i
  {
    if i < n {
      RepliesAreFrames(reply, i + 1, n);
      var later := ReplyPayloads(reply, i + 1, n);
      Units(Frames(later));
      match reply(i)
      case None =>
        Units(later);
      case Some(s) =>
        OneChunk(Frame(OrDummy(s)));
        assert ([OrDummy(s)] + later)[1..] == later;
        assert Frames([OrDummy(s)] + later) == Frame(OrDummy(s)) + Frames(later);
    }
  }

  /** If every frame has a reply and no serialisation is empty, exactly these are sent. */
  lemma {:induction false} SerialisedRepliesAreSent(reply: nat -> Option<Text>, i: nat, payloads: seq<Text>)
    requires forall j | 0 <= j < |payloads| :: reply(i + j) == Some(payloads[j]) && payloads[j] != []
    ensures AllSent(Replies(reply), i, i + |payloads|) == Frames(payloads)
    decreases |payloads|
  {
    RepliesAreFrames(reply, i, i + |payloads|);
    PlainPayloads(reply, i, payloads);
  }

  lemma {:induction false} PlainPayloads(reply: nat -> Option<Text>, i: nat, payloads: seq<Text>)
    requires forall j | 0 <= j < |payloads| :: reply(i + j) == Some(payloads[j]) && payloads[j] != []
    ensures ReplyPayloads(reply, i, i + |payloads|) == payloads
    decreases |payloads|
  {
    if payloads != [] {
      forall j | 0 <= j < |payloads[1..]| ensures reply(i + 1 + j) == Some(payloads[1..][j]) && payloads[1..][j] != [] {
        assert reply(i + (j + 1)) == Some(payloads[j + 1]);
      }
      PlainPayloads(reply, i + 1, payloads[1..]);
      assert reply(i + 0) == Some(payloads[0]);
      assert payloads == [payloads[0]] + payloads[1..];
    }
  }

  /** The echo handler answers every message with itself and LF. */
  lemma {:induction false} EchoIsSent(react: Reactions, msgs: seq<Text>, i: nat)
    requires i <= |msgs| && forall j | i <= j < |msgs| :: react(j).sends == [EchoReply(msgs[j])]
    ensures AllSent(react, i, |msgs|) == EchoReplies(msgs[i..])
    decreases |msgs| - i
  {
    if i < |msgs| {
      EchoIsSent(react, msgs, i + 1);
      OneChunk(EchoReply(msgs[i]));
      assert msgs[i..][1..] == msgs[i + 1..] && msgs[i..][0] == msgs[i];
    }
  }
}
