/** The length-prefixed protocol of `EpollConnection::handle_protobuf`, `send_protobuf` and the client.
    A frame is a 4-byte big-endian length followed by that many payload bytes. */
module LengthPrefix {
  import opened Config
  import opened Bytes

  function Be32(h: Text): nat
    requires |h| == 4
  {
    ((h[0] as nat * 256 + h[1] as nat) * 256 + h[2] as nat) * 256 + h[3] as nat
  }

  function Digit256(n: nat): Byte { (n % 256) as char }

  /** `htobe32`: the length is truncated to 32 bits. */
  function Header(n: nat): (h: Text)
    ensures |h| == 4
  {
    [Digit256(n / 16777216), Digit256(n / 65536), Digit256(n / 256), Digit256(n)]
  }

  lemma Bytes2(n: nat)
    ensures n / 65536 == n / 256 / 256 && n / 16777216 == n / 256 / 256 / 256
  {
  }

  lemma HeaderRoundTrip(n: nat)
    requires n < 4294967296
    ensures Be32(Header(n)) == n
    ensures var h := Header(n);
      n == h[0] as int * 16777216 + h[1] as int * 65536 + h[2] as int * 256 + h[3] as int
  {
    Bytes2(n);
    var c := n / 256;
    var b := c / 256;
    var a := b / 256;
    assert a < 256;
    assert n == 256 * c + n % 256;
    assert c == 256 * b + c % 256;
    assert b == 256 * a + b % 256;
  }

  function Frame(payload: Text): Text { Header(|payload|) + payload }

  function Frames(payloads: seq<Text>): Text {
    if payloads == [] then [] else Frame(payloads[0]) + Frames(payloads[1..])
  }

  /** The ideal reading of a byte stream: every complete frame, then how the stream ends. `pending` is the
      length of a frame whose header is complete and whose payload is not; `tail` follows the last complete
      frame (and the pending header, if any). */
  datatype Ideal = Ideal(frames: seq<Text>, oversize: bool, pending: Option<nat>, tail: Text) {
    function After(earlier: seq<Text>): Ideal { this.(frames := earlier + frames) }
  }

  function Decode(s: Text): Ideal
    decreases |s|, 0
  {
    if |s| < 4 then Ideal([], false, None, s)
    else if Be32(s[..4]) > MAX_FRAME_SIZE then Ideal([], true, None, s)
    else DecodePayload(Be32(s[..4]), s[4..])
  }

  /** The same, from just behind a header that announced `n` bytes. */
  function DecodePayload(n: nat, s: Text): Ideal
    decreases |s|, 1
  {
    if |s| < n then Ideal([], false, Some(n), s) else Decode(s[n..]).After([s[..n]])
  }

  /** The decoder's fields, and the frames it has taken out of the buffer so far. */
  datatype Decoder = Decoder(alive: bool, lengthRead: bool, expected: nat, buffered: Text, frames: seq<Text>) {
    /** Everything this decoder could still see if `later` followed, read ideally. */
    function Outlook(later: Text): Ideal {
      if !alive then Ideal(frames, true, None, [])
      else (if lengthRead then DecodePayload(expected, buffered + later) else Decode(buffered + later)).After(frames)
    }

    /** The frame is there but the loop guard keeps it waiting for a fourth byte. */
    predicate Lagging() { alive && lengthRead && expected <= |buffered| }

    /** The loop of `handle_protobuf`: nothing is done with fewer than 4 buffered bytes, even when a length
        has been read already. An excessive length shuts the connection down and clears its buffer. */
    function Drain(): Decoder
      decreases |buffered|, lengthRead
    {
      if !alive || |buffered| < 4 then this
      else if !lengthRead then
        var d := this.(lengthRead := true, expected := Be32(buffered[..4]), buffered := buffered[4..]);
        if d.expected > MAX_FRAME_SIZE then d.(alive := false, buffered := []) else d.TakePayload()
      else TakePayload()
    }

    function TakePayload(): Decoder
      requires lengthRead
      decreases |buffered|, lengthRead, 0
    {
      if |buffered| < expected then this
      else
        this.(lengthRead := false, buffered := buffered[expected..], frames := frames + [buffered[..expected]]).Drain()
    }

    function Read(chunk: Text): Decoder {
      if alive then this.(buffered := buffered + chunk).Drain() else this
    }

    function ReadAll(chunks: seq<Text>): Decoder
      decreases |chunks|
    {
      if chunks == [] then this else Read(chunks[0]).ReadAll(chunks[1..])
    }
  }

  const NO_FRAMES := Decoder(true, false, 0, [], [])

  /** What holds between two calls of `handle_protobuf`. */
  ghost predicate Rested(d: Decoder) {
    d.alive ==>
      && (d.lengthRead ==> 0 < d.expected <= MAX_FRAME_SIZE)
      && (|d.buffered| < 4 || (d.lengthRead && |d.buffered| < d.expected))
  }

  /** Draining moves frames from the future into the past and loses nothing, whatever comes later. */
  lemma {:induction false} DrainKeepsOutlook(d: Decoder, later: Text)
    ensures SameReading(d.Drain().Outlook(later), d.Outlook(later))
    decreases |d.buffered|, d.lengthRead
  {
    var s := d.buffered;
    if d.alive && |s| >= 4 {
      if d.lengthRead {
        TakeKeepsOutlook(d, later);
      } else {
        assert (s + later)[..4] == s[..4] && (s + later)[4..] == s[4..] + later;
        var e := d.(lengthRead := true, expected := Be32(s[..4]), buffered := s[4..]);
        if e.expected > MAX_FRAME_SIZE {
          assert d.Outlook(later).frames == d.frames + [] == d.frames;
        } else {
          TakeKeepsOutlook(e, later);
        }
      }
    }
  }

  /** Equal, except that a dead connection no longer knows its tail. */
  ghost predicate SameReading(x: Ideal, y: Ideal) {
    x.frames == y.frames && x.oversize == y.oversize && (!x.oversize ==> x == y)
  }

  lemma {:induction false} TakeKeepsOutlook(d: Decoder, later: Text)
    requires d.alive && d.lengthRead
    ensures SameReading(d.TakePayload().Outlook(later), d.Outlook(later))
    decreases |d.buffered|, d.lengthRead, 0
  {
    var s, n := d.buffered, d.expected;
    if n <= |s| {
      var e := d.(lengthRead := false, buffered := s[n..], frames := d.frames + [s[..n]]);
      DrainKeepsOutlook(e, later);
      assert (s + later)[..n] == s[..n] && (s + later)[n..] == s[n..] + later;
      Assoc(d.frames, [s[..n]], Decode(s[n..] + later).frames);
    }
  }

  lemma {:induction false} DrainRests(d: Decoder)
    requires d.alive && d.lengthRead ==> 0 < d.expected <= MAX_FRAME_SIZE
    ensures Rested(d.Drain())
    decreases |d.buffered|, d.lengthRead
  {
    if d.alive && |d.buffered| >= 4 {
      var e := if d.lengthRead then d
               else d.(lengthRead := true, expected := Be32(d.buffered[..4]), buffered := d.buffered[4..]);
      if e.expected <= |e.buffered| && e.expected <= MAX_FRAME_SIZE {
        DrainRests(e.(lengthRead := false, buffered := e.buffered[e.expected..],
                      frames := e.frames + [e.buffered[..e.expected]]));
      }
    }
  }

  lemma {:induction false} ReadAllKeepsOutlook(d: Decoder, chunks: seq<Text>, later: Text)
    requires Rested(d)
    ensures Rested(d.ReadAll(chunks))
    ensures SameReading(d.ReadAll(chunks).Outlook(later), d.Outlook(Concat(chunks) + later))
    decreases |chunks|
  {
    if chunks == [] {
      assert [] + later == later;
    } else {
      var c, rest := chunks[0], Concat(chunks[1..]);
      var e := d.(buffered := d.buffered + c);
      if d.alive {
        DrainRests(e);
        DrainKeepsOutlook(e, rest + later);
      }
      ReadAllKeepsOutlook(d.Read(c), chunks[1..], later);
      assert d.buffered + c + (rest + later) == d.buffered + (c + rest + later);
    }
  }

  /** Over any fragmentation the frames taken out are those of the ideal reading, short of at most the last
      one, and short of that one exactly when the decoder lags. It dies exactly on an excessive length. */
  lemma FramesOverAnyFragmentation(chunks: seq<Text>)
    ensures var d := NO_FRAMES.ReadAll(chunks); var i := Decode(Concat(chunks));
      && Rested(d)
      && d.alive == !i.oversize
      && (!d.Lagging() ==> d.frames == i.frames)
      && (d.Lagging() ==> 1 <= d.expected <= 3 && d.frames + [d.buffered[..d.expected]] == i.frames
                          && i.pending == None && i.tail == d.buffered[d.expected..])
      && (d.alive && !d.Lagging() ==>
            i.tail == d.buffered && i.pending == if d.lengthRead then Some(d.expected) else None)
  {
    var d := NO_FRAMES.ReadAll(chunks);
    var s := Concat(chunks);
    ReadAllKeepsOutlook(NO_FRAMES, chunks, []);
    assert s + [] == s && [] + s == s && d.buffered + [] == d.buffered;
    assert [] + Decode(s).frames == Decode(s).frames;
    assert d.frames + [] == d.frames;
    if d.Lagging() {
      assert |d.buffered[d.expected..]| < 4;
      assert Decode(d.buffered[d.expected..]).frames == [];
      assert [d.buffered[..d.expected]] + [] == [d.buffered[..d.expected]];
    }
  }

  /** The stream ends in a complete frame of 1 to 3 bytes with at most 3 bytes behind its header. */
  predicate ShortEnding(s: Text) {
    var i := Decode(s);
    && !i.oversize && i.pending == None && i.frames != []
    && var n := |i.frames[|i.frames| - 1]|; 1 <= n && n + |i.tail| <= 3
  }

  /** Exactly which streams are decoded in full however they are cut up. */
  lemma FragmentationExact(s: Text)
    ensures (forall chunks | Concat(chunks) == s :: NO_FRAMES.ReadAll(chunks).frames == Decode(s).frames)
            <==> !ShortEnding(s)
  {
    forall chunks | Concat(chunks) == s && !ShortEnding(s)
      ensures NO_FRAMES.ReadAll(chunks).frames == Decode(s).frames
    {
      FramesOverAnyFragmentation(chunks);
    }
    if ShortEnding(s) {
      var chunks := CutBeforePayload(s);
      assert NO_FRAMES.ReadAll(chunks).frames != Decode(s).frames;
    }
  }

  /** The cut that leaves the last frame behind: between its header and its payload. */
  lemma CutBeforePayload(s: Text) returns (chunks: seq<Text>)
    requires ShortEnding(s)
    ensures Concat(chunks) == s && |NO_FRAMES.ReadAll(chunks).frames| == |Decode(s).frames| - 1
  {
    var i := Decode(s);
    var k := |s| - (|i.frames[|i.frames| - 1]| + |i.tail|);
    LastFrameCut(s);
    chunks := [s[..k], s[k..]];
    assert chunks[1..] == [s[k..]] && [s[k..]][1..] == [];
    assert Concat([s[k..]]) == s[k..] + [] == s[k..];
    assert Concat(chunks) == s[..k] + s[k..] == s;
    assert Concat([s[..k]]) == s[..k] + [] == s[..k];
    FramesOverAnyFragmentation([s[..k]]);
    var d := NO_FRAMES.ReadAll([s[..k]]);
    assert d == NO_FRAMES.Read(s[..k]);
    assert d.alive && d.lengthRead && d.buffered == [];
    assert d.Read(s[k..]).frames == d.frames;
    assert d.ReadAll([s[k..]]) == d.Read(s[k..]);
  }

  lemma {:induction false} LastFrameCut(s: Text)
    requires var i := Decode(s); !i.oversize && i.pending == None && i.frames != [] && i.frames[|i.frames| - 1] != []
    ensures var i := Decode(s); var n := |i.frames[|i.frames| - 1]|; var k := |s| - (n + |i.tail|);
      0 <= k && Decode(s[..k]) == Ideal(i.frames[..|i.frames| - 1], false, Some(n), [])
    decreases |s|
  {
    hide Decode, DecodePayload, Be32;
    var n := FirstFrame(s);
    var rest := s[4..][n..];
    var i, later := Decode(s), Decode(rest);
    assert i.frames == [s[4..][..n]] + later.frames;
    if later.frames == [] {
      NoFramesTail(rest);
      assert 4 == |s| - (n + |i.tail|);
      HeaderAlone(s, n);
      assert i.frames[..|i.frames| - 1] == [];
    } else {
      LastFrameCut(rest);
      var j := |rest| - (|later.frames[|later.frames| - 1]| + |later.tail|);
      var k := 4 + n + j;
      CutTwice(s, 4, k);
      CutTwice(s[4..], n, n + j);
      ThenDecode(s[..k], n);
      assert i.frames[..|i.frames| - 1] == [s[4..][..n]] + later.frames[..|later.frames| - 1];
    }
  }

  /** A stream with frames begins with one. */
  lemma FirstFrame(s: Text) returns (n: nat)
    requires Decode(s).frames != []
    ensures 4 <= |s| && n == Be32(s[..4]) <= MAX_FRAME_SIZE && n <= |s[4..]|
    ensures Decode(s) == Decode(s[4..][n..]).After([s[4..][..n]])
  {
    hide Be32;
    n := Be32(s[..4]);
  }

  lemma ThenDecode(s: Text, n: nat)
    requires 4 <= |s| && n == Be32(s[..4]) <= MAX_FRAME_SIZE && n <= |s[4..]|
    ensures Decode(s) == Decode(s[4..][n..]).After([s[4..][..n]])
  {
    hide Be32;
  }

  lemma HeaderAlone(s: Text, n: nat)
    requires 4 <= |s| && n == Be32(s[..4]) <= MAX_FRAME_SIZE && n > 0
    ensures Decode(s[..4]) == Ideal([], false, Some(n), [])
  {
    hide Be32;
    assert s[..4][..4] == s[..4] && s[..4][4..] == [];
  }

  lemma NoFramesTail(s: Text)
    requires Decode(s).frames == [] && !Decode(s).oversize && Decode(s).pending == None
    ensures Decode(s).tail == s
  {
  }

  lemma DecodeFrame(p: Text, later: Text)
    requires |p| <= MAX_FRAME_SIZE
    ensures Decode(Frame(p) + later) == Decode(later).After([p])
  {
    hide Header, Be32;
    var h := Header(|p|);
    HeaderRoundTrip(|p|);
    Assoc(h, p, later);
    CutConcat(h, p + later, 4);
    assert h[..4] == h && h[4..] == [];
    Units(p + later);
    CutConcat(p, later, |p|);
    assert p[..|p|] == p && p[|p|..] == [];
    Units(later);
  }

  /** What the peers write is read back: any payloads of acceptable size, followed by an unfinished frame. */
  lemma {:induction false} FramesDecode(payloads: seq<Text>, tail: Text)
    requires forall p | p in payloads :: |p| <= MAX_FRAME_SIZE
    requires |tail| < 4
    ensures Decode(Frames(payloads) + tail) == Ideal(payloads, false, None, tail)
  {
    if payloads == [] {
      assert [] + tail == tail;
    } else {
      hide Frame, Decode;
      var p, rest := payloads[0], payloads[1..];
      FramesDecode(rest, tail);
      var later := Frames(rest) + tail;
      assert Frames(payloads) + tail == Frame(p) + later by {
        Assoc(Frame(p), Frames(rest), tail);
      }
      DecodeFrame(p, later);
      assert [p] + rest == payloads;
    }
  }

  /** The round trip over any fragmentation: all payloads arrive in order whenever the last one is empty or
      at least 4 bytes long; otherwise at most the last one is still waiting. */
  lemma FramesRoundTrip(payloads: seq<Text>, chunks: seq<Text>)
    requires forall p | p in payloads :: |p| <= MAX_FRAME_SIZE
    requires Concat(chunks) == Frames(payloads)
    ensures var d := NO_FRAMES.ReadAll(chunks);
      && d.alive
      && (d.frames == payloads || (payloads != [] && d.frames == payloads[..|payloads| - 1]))
      && (payloads == [] || !(1 <= |payloads[|payloads| - 1]| <= 3) ==> d.frames == payloads && d.buffered == [])
  {
    assert Frames(payloads) + [] == Frames(payloads);
    FramesDecode(payloads, []);
    FramesOverAnyFragmentation(chunks);
    var d := NO_FRAMES.ReadAll(chunks);
    if d.Lagging() {
      assert payloads == d.frames + [d.buffered[..d.expected]];
      assert payloads[..|payloads| - 1] == d.frames;
    }
  }
}
