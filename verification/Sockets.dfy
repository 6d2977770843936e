/** The kernel side of a socket: every system-call result is scripted, so a theorem about all scripts
    is a theorem about every fragmentation and every error the kernel can report. */
module Sockets {
  import opened Bytes

  datatype ReadEvent = Data(chunk: Text) | Closed | ReadWouldBlock | ReadInterrupted | ReadFailed(errno: int)
  datatype ReadOutcome = Got(bytes: Text) | GotAgain | GotInterrupted | GotError(errno: int)

  datatype WriteEvent = Accept(upTo: nat) | WriteWouldBlock | WriteInterrupted | WriteFailed(errno: int)
  datatype WriteOutcome = Wrote(count: nat) | WroteAgain | WroteInterrupted | WroteError(errno: int)

  /** One `read` into `room` free bytes: never more than `room`; what does not fit stays for the next call.
      `Got([])` is the return value 0 (end of file, or no room). A finished script would block. */
  function Deliver(events: seq<ReadEvent>, room: nat): (r: (ReadOutcome, seq<ReadEvent>))
    ensures r.0.Got? ==> |r.0.bytes| <= room && Payload(events) == r.0.bytes + Payload(r.1)
    ensures !r.0.Got? ==> Payload(events) == Payload(r.1)
    ensures events == [] || room == 0 || ScriptSize(r.1) < ScriptSize(events)
  {
    if events == [] then (GotAgain, [])
    else match events[0]
      case Data(c) =>
        if |c| <= room then (Got(c), events[1..])
        else
          assert c == c[..room] + c[room..];
          (Got(c[..room]), [Data(c[room..])] + events[1..])
      case Closed => (Got([]), events[1..])
      case ReadWouldBlock => (GotAgain, events[1..])
      case ReadInterrupted => (GotInterrupted, events[1..])
      case ReadFailed(e) => (GotError(e), events[1..])
  }

  /** The bytes the peer has sent, in order, however the kernel cuts them up. */
  function Payload(events: seq<ReadEvent>): Text {
    if events == [] then []
    else (if events[0].Data? then events[0].chunk else []) + Payload(events[1..])
  }

  function ScriptSize(events: seq<ReadEvent>): nat {
    if events == [] then 0
    else 1 + (if events[0].Data? then |events[0].chunk| else 0) + ScriptSize(events[1..])
  }

  function Take(writes: seq<WriteEvent>, len: nat): (r: (WriteOutcome, seq<WriteEvent>))
    ensures r.0.Wrote? ==> r.0.count <= len
    ensures writes == [] || |r.1| < |writes|
  {
    if writes == [] then (WroteAgain, [])
    else match writes[0]
      case Accept(k) => (Wrote(if k <= len then k else len), writes[1..])
      case WriteWouldBlock => (WroteAgain, writes[1..])
      case WriteInterrupted => (WroteInterrupted, writes[1..])
      case WriteFailed(e) => (WroteError(e), writes[1..])
  }

  class Socket {
    var events: seq<ReadEvent>
    var writes: seq<WriteEvent>
    var sent: Text

    constructor (events: seq<ReadEvent>, writes: seq<WriteEvent>)
      ensures this.events == events && this.writes == writes && sent == []
    {
      this.events, this.writes, sent := events, writes, [];
    }

    method Read(room: nat) returns (o: ReadOutcome)
      modifies this`events
      ensures (o, events) == Deliver(old(events), room)
    {
      var (outcome, rest) := Deliver(events, room);
      o, events := outcome, rest;
    }

    method Write(data: Text) returns (o: WriteOutcome)
      modifies this`writes, this`sent
      ensures (o, writes) == Take(old(writes), |data|)
      ensures sent == old(sent) + (if o.Wrote? then data[..o.count] else [])
    {
      var (outcome, rest) := Take(writes, |data|);
      o, writes := outcome, rest;
      if o.Wrote? {
        sent := sent + data[..o.count];
      }
    }
  }
}
