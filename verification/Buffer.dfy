/** include/net/buffer_utils.h: the two-index byte buffer. `Buf` is its abstract value (storage size,
    reader index, readable bytes); the functions on it are what each operation does, and the class at the
    end carries the same operations out in place on an array. */
module Buffers {
  import opened Config
  import opened Bytes
  import opened Sockets

  datatype Buf = Buf(size: nat, reader: nat, bytes: Text) {
    ghost predicate Valid() {
      reader + |bytes| <= size <= MAX_BUFFER_SIZE && INITIAL_BUFFER_SIZE <= size
    }

    function Writer(): nat { reader + |bytes| }

    function Writable(): int { size - Writer() }

    function Retrieve(len: nat): (r: Buf)
      ensures Valid() ==> r.Valid()
      ensures r.bytes == if len <= |bytes| then bytes[len..] else []
    {
      if len < |bytes| then this.(reader := reader + len, bytes := bytes[len..]) else RetrieveAll()
    }

    function RetrieveAll(): (r: Buf)
      ensures Valid() ==> r.Valid()
    {
      this.(reader := 0, bytes := [])
    }

    function Compact(): Buf { if reader >= PREPEND_THRESHOLD then this.(reader := 0) else this }

    function MakeSpace(len: nat): (r: Buf)
      requires Valid()
      ensures r.Valid() && r.bytes == bytes && size <= r.size
    {
      if Writable() >= len then this
      else
        var c := Compact();
        if c.Writable() + c.reader < len then c.(size := GrownSize(c.size, len)) else c
    }

    function EnsureWritable(len: nat): (r: Buf)
      requires Valid()
      ensures r.Valid() && r.bytes == bytes && size <= r.size
    {
      if Writable() < len then MakeSpace(len) else this
    }

    /** When `ensure_writable_bytes(len)` really provides `len` bytes: there was room already; or the consumed
        prefix is worth compacting and the readable bytes fit under the cap with `len` more; or compaction is
        skipped and the storage, too small even with the prefix, may grow enough behind the writer index. */
    predicate RoomFor(len: nat) {
      || Writable() >= len
      || (reader >= PREPEND_THRESHOLD && |bytes| + len <= MAX_BUFFER_SIZE)
      || (reader < PREPEND_THRESHOLD && Writable() + reader < len && Writer() + len <= MAX_BUFFER_SIZE)
    }

    lemma EnsureWritableExact(len: nat)
      requires Valid()
      ensures EnsureWritable(len).Writable() >= len <==> RoomFor(len)
    {
      var c := Compact();
      assert c.size * 3 / 2 >= c.size;
    }

    function Append(data: Text): (r: Buf)
      requires Valid() && RoomFor(|data|)
      ensures r.Valid() && r.bytes == bytes + data
    {
      EnsureWritableExact(|data|);
      var r := EnsureWritable(|data|);
      r.(bytes := r.bytes + data)
    }
  }

  const EMPTY_BUF := Buf(INITIAL_BUFFER_SIZE, 0, [])

  function Max(a: int, b: int): int { if a < b then b else a }

  function Min(a: int, b: int): int { if a < b then a else b }

  function GrownSize(size: nat, len: nat): nat {
    Min(Max(size * 3 / 2 + len, INITIAL_BUFFER_SIZE * 2), MAX_BUFFER_SIZE)
  }

  /** Growth is geometric: by half the storage and the bytes asked for, at least to 256 KiB, and never past the cap. */
  lemma GrowthExact(b: Buf, len: nat)
    requires b.Valid() && b.EnsureWritable(len).size != b.size
    ensures var n := b.EnsureWritable(len).size;
      && b.Writable() + b.reader < len && 262144 <= n
      && (n == 262144 || 2 * (n - len) <= 3 * b.size)
      && (n == 262144 || n == MAX_BUFFER_SIZE || 3 * b.size <= 2 * (n - len) + 1)
  {
  }

  /** The overflow guard of `BaseConnection::send` (readable + len within the cap) admits appends for which
      no room is made: 200000 consumed bytes, 100000 readable ones in 327680 and 100000 more to come. */
  lemma SendGuardDoesNotMakeRoom(b: Buf, len: nat)
    requires b.size == 327680 && b.reader == 200000 && |b.bytes| == 100000 && len == 100000
    ensures b.Valid() && |b.bytes| + len <= MAX_BUFFER_SIZE
    ensures !b.RoomFor(len) && b.EnsureWritable(len).Writable() < len
  {
    b.EnsureWritableExact(len);
  }

  /** A buffer gets there by ordinary use: two appends of 128 KiB, 200000 bytes consumed, one more append. */
  lemma GapIsReachable(x: Text, y: Text, z: Text)
    requires |x| == 131072 && |y| == 131072 && |z| == 37856
    ensures EMPTY_BUF.RoomFor(|x|) && EMPTY_BUF.Append(x).RoomFor(|y|)
    ensures EMPTY_BUF.Append(x).Append(y).Retrieve(200000).RoomFor(|z|)
    ensures var b := EMPTY_BUF.Append(x).Append(y).Retrieve(200000).Append(z);
      && b.size == 327680 && b.reader == 200000 && |b.bytes| == 100000
      && |b.bytes| + 100000 <= MAX_BUFFER_SIZE && !b.RoomFor(100000)
  {
  }

  /** Exactly which appends the guard lets through without room. */
  lemma SendGuardGap(b: Buf, len: nat)
    requires b.Valid() && |b.bytes| + len <= MAX_BUFFER_SIZE
    ensures !b.RoomFor(len) <==>
            && b.reader < PREPEND_THRESHOLD
            && b.Writable() < len
            && (len <= b.Writable() + b.reader || MAX_BUFFER_SIZE < b.Writer() + len)
  {
    assert b.Writable() + b.reader == b.size - |b.bytes|;
  }

  /** A buffer nothing was consumed from always has room up to the cap. */
  lemma FreshBufferHasRoom(b: Buf, len: nat)
    requires b.Valid() && b.reader == 0
    ensures b.RoomFor(len) <==> |b.bytes| + len <= MAX_BUFFER_SIZE
  {
    assert b.Writable() == b.size - |b.bytes|;
  }

  datatype QueueOp = Put(data: Text) | Drop(len: nat)

  ghost predicate Runnable(b: Buf, ops: seq<QueueOp>)
    requires b.Valid()
    decreases |ops|
  {
    ops == [] || ((ops[0].Put? ==> b.RoomFor(|ops[0].data|)) && Runnable(AfterOp(b, ops[0]), ops[1..]))
  }

  ghost function AfterOp(b: Buf, op: QueueOp): (r: Buf)
    requires b.Valid() && (op.Put? ==> b.RoomFor(|op.data|))
    ensures r.Valid()
  {
    match op case Put(data) => b.Append(data) case Drop(len) => b.Retrieve(len)
  }

  /** The bytes left at the end of a run, and the bytes handed out on the way. */
  ghost function RunQueue(b: Buf, ops: seq<QueueOp>): (r: (Text, Text))
    requires b.Valid() && Runnable(b, ops)
    decreases |ops|
  {
    if ops == [] then (b.bytes, [])
    else
      var (left, out) := RunQueue(AfterOp(b, ops[0]), ops[1..]);
      (left, (if ops[0].Drop? then b.bytes[..Min(ops[0].len, |b.bytes|)] else []) + out)
  }

  ghost function AllPut(ops: seq<QueueOp>): Text {
    if ops == [] then [] else (if ops[0].Put? then ops[0].data else []) + AllPut(ops[1..])
  }

  /** Over any run the buffer is a byte queue: what went in is what came out followed by what is left,
      whatever compaction and growth happened in between. */
  lemma {:induction false} BufferIsQueue(b: Buf, ops: seq<QueueOp>)
    requires b.Valid() && Runnable(b, ops)
    ensures var (left, out) := RunQueue(b, ops); b.bytes + AllPut(ops) == out + left
    decreases |ops|
  {
    hide Buf.Append, Buf.Retrieve, Buf.RoomFor, Buf.Valid;
    if ops == [] {
      Units(b.bytes);
    } else {
      var c := AfterOp(b, ops[0]);
      BufferIsQueue(c, ops[1..]);
      var (left, out) := RunQueue(c, ops[1..]);
      var rest := AllPut(ops[1..]);
      match ops[0]
      case Put(data) =>
        Assoc(b.bytes, data, rest);
        Units(out);
      case Drop(len) =>
        var n := Min(len, |b.bytes|);
        assert b.bytes == b.bytes[..n] + c.bytes;
        Assoc(b.bytes[..n], c.bytes, rest);
        Assoc(b.bytes[..n], out, left);
        Units(rest);
    }
  }

  /** Where `read_fd` stands: `calls` counts the reads that were not interrupted, `total` is its return value. */
  datatype Reading = Reading(buf: Buf, events: seq<ReadEvent>, total: int, errno: int, calls: nat, done: bool) {
    function Got(bytes: Text): Reading {
      this.(
      buf := buf.(bytes := buf.bytes + bytes),
      total := total + |bytes|,
      calls := calls + 1,
      done := |bytes| < READ_CHUNK_SIZE / 2)
    }

    /** What one iteration does with the kernel's answer. */
    function Answer(o: ReadOutcome): Reading {
      match o
      case GotAgain => this.(calls := calls + 1, done := true)
      case GotInterrupted => this
      case GotError(e) => this.(total := if total > 0 then total else -1, errno := e, calls := calls + 1, done := true)
      case Got(bytes) => if bytes == [] then this.(calls := calls + 1, done := true) else Got(bytes)
    }

    function Once(): (r: Reading)
      requires buf.Valid()
    {
      var c := buf.EnsureWritable(READ_CHUNK_SIZE);
      var (o, rest) := Deliver(events, c.Writable());
      this.(buf := c, events := rest).Answer(o)
    }

    /** One iteration: the readable bytes grow by what came off the socket and nothing else. */
    lemma OnceFacts()
      requires buf.Valid() && !done && 0 <= total
      ensures var r := Once();
        && r.buf.Valid() && buf.size <= r.buf.size && buf.bytes <= r.buf.bytes
        && Payload(events) == r.buf.bytes[|buf.bytes|..] + Payload(r.events)
        && (r.total == total + |r.buf.bytes| - |buf.bytes|
            || (r.total == -1 && total == 0 && r.done && r.buf.bytes == buf.bytes))
        && (!r.done ==>
            && 0 <= r.total && r.errno == errno && ScriptSize(r.events) < ScriptSize(events)
            && ((r.calls == calls && r.buf.bytes == buf.bytes)
                || (r.calls == calls + 1 && |r.buf.bytes| >= |buf.bytes| + 32768)))
        && (r.done ==> r.calls == calls + 1)
    {
      var c := buf.EnsureWritable(READ_CHUNK_SIZE);
      assert c.bytes == buf.bytes && c.Valid();
      var (o, rest) := Deliver(events, c.Writable());
      if o.Got? {
        assert (c.bytes + o.bytes)[|buf.bytes|..] == o.bytes;
      }
    }
  }

  /** `read_fd`: read until the socket would block, closes, fails or delivers less than half a chunk. */
  function ReadLoop(r: Reading): Reading
    requires r.buf.Valid() && (!r.done ==> 0 <= r.total)
    decreases if r.done then 0 else 1 + ScriptSize(r.events)
  {
    if r.done then r else r.OnceFacts(); ReadLoop(r.Once())
  }

  lemma ReadLoopRound(r: Reading)
    requires r.buf.Valid() && (!r.done ==> 0 <= r.total)
    ensures ReadLoop(r) == if r.done then r else (r.OnceFacts(); ReadLoop(r.Once()))
  {
    hide Reading.Once;
  }

  function StartReading(b: Buf, events: seq<ReadEvent>): Reading { Reading(b, events, 0, 0, 0, false) }

  /** The readable bytes grow by exactly the bytes taken off the socket, in order; the storage never shrinks
      and never passes the cap; the return value is the number of bytes added unless an error came first. */
  lemma {:induction false} ReadLoopConserves(s: Reading)
    requires s.buf.Valid() && (!s.done ==> 0 <= s.total)
    ensures var r := ReadLoop(s);
      && r.done && r.buf.Valid() && s.buf.size <= r.buf.size && s.buf.bytes <= r.buf.bytes
      && Payload(s.events) == r.buf.bytes[|s.buf.bytes|..] + Payload(r.events)
      && (r.total == s.total + |r.buf.bytes| - |s.buf.bytes|
          || (r.total == -1 && s.total == 0 && r.buf.bytes == s.buf.bytes))
    decreases if s.done then 0 else 1 + ScriptSize(s.events)
  {
    hide Reading.Once, Buf.Valid;
    ReadLoopRound(s);
    if s.done {
      assert s.buf.bytes[|s.buf.bytes|..] == [];
      Units(Payload(s.events));
    } else {
      s.OnceFacts();
      var m := s.Once();
      ReadLoopConserves(m);
      var r := ReadLoop(m);
      PrefixChain(s.buf.bytes, m.buf.bytes, r.buf.bytes);
      Assoc(m.buf.bytes[|s.buf.bytes|..], r.buf.bytes[|m.buf.bytes|..], Payload(r.events));
    }
  }

  /** The error the first read that is not interrupted comes back with. */
  function FirstError(events: seq<ReadEvent>): Option<int> {
    if events == [] then None
    else match events[0]
      case ReadInterrupted => FirstError(events[1..])
      case ReadFailed(e) => Some(e)
      case _ => None
  }

  /** `read_fd` returns -1 if and only if an error comes before any data, and then it reports that error. */
  lemma ReadErrorExact(b: Buf, events: seq<ReadEvent>)
    requires b.Valid()
    ensures var r := ReadLoop(StartReading(b, events));
      && (r.total == -1 <==> FirstError(events).Some?)
      && (r.total == -1 ==> r.errno == FirstError(events).value && r.buf.bytes == b.bytes)
  {
    ErrorFirst(StartReading(b, events));
    ReadLoopConserves(StartReading(b, events));
  }

  lemma {:induction false} ErrorFirst(s: Reading)
    requires s.buf.Valid() && !s.done && s.total == 0
    ensures var r := ReadLoop(s);
      (r.total == -1 <==> FirstError(s.events).Some?) && (r.total == -1 ==> r.errno == FirstError(s.events).value)
    decreases ScriptSize(s.events)
  {
    hide ReadLoop, Buf.EnsureWritable;
    ReadLoopRound(s);
    s.OnceFacts();
    var m := s.Once();
    ReadLoopRound(m);
    if s.events != [] && s.events[0].ReadInterrupted? {
      ErrorFirst(m);
    } else if !m.done {
      NoLaterError(m);
    }
  }

  /** Once data has arrived the result is positive. */
  lemma {:induction false} NoLaterError(s: Reading)
    requires s.buf.Valid() && 0 < s.total
    ensures 0 < ReadLoop(s).total
    decreases if s.done then 0 else 1 + ScriptSize(s.events)
  {
    hide Buf.EnsureWritable;
    if !s.done {
      s.OnceFacts();
      NoLaterError(s.Once());
    }
  }

  /** Every continuing iteration adds half a chunk under the 4 MiB cap. */
  lemma {:induction false} ReadLoopBound(s: Reading)
    requires s.buf.Valid() && 0 <= s.total && !s.done
    ensures var r := ReadLoop(s);
      s.calls < r.calls && (r.calls - s.calls - 1) * 32768 + |s.buf.bytes| <= MAX_BUFFER_SIZE
    decreases ScriptSize(s.events)
  {
    s.OnceFacts();
    var m := s.Once();
    if !m.done {
      ReadLoopBound(m);
    }
  }

  /** So `read_fd` makes at most 129 reads that are not interrupted. */
  lemma ReadFdBound(b: Buf, events: seq<ReadEvent>)
    requires b.Valid()
    ensures ReadLoop(StartReading(b, events)).calls <= 129
  {
    ReadLoopBound(StartReading(b, events));
  }

  // ---- When a read event yields data ----

  /** `read` would be given no room: the storage is full, and the consumed prefix is too long to count as free
      space and too short to be compacted; or it is short and the storage is at its cap. */
  predicate NoReadRoom(b: Buf) {
    && b.Writer() == b.size
    && (READ_CHUNK_SIZE <= b.reader < PREPEND_THRESHOLD || (b.reader < READ_CHUNK_SIZE && b.size == MAX_BUFFER_SIZE))
  }

  /** What comes first from the socket, interruptions apart, is data. */
  predicate DataFirst(events: seq<ReadEvent>) {
    events != [] && match events[0]
    case Data(c) => c != []
    case ReadInterrupted => DataFirst(events[1..])
    case _ => false
  }

  lemma ReadRoomExact(b: Buf)
    requires b.Valid()
    ensures var c := b.EnsureWritable(READ_CHUNK_SIZE);
      (c.Writable() == 0 <==> NoReadRoom(b)) && (NoReadRoom(c) <==> NoReadRoom(b))
  {
  }

  /** Exactly when `read_fd` returns a positive number. Data that is waiting is not enough. */
  lemma ReadYieldsDataExact(b: Buf, events: seq<ReadEvent>)
    requires b.Valid()
    ensures ReadLoop(StartReading(b, events)).total > 0 <==> !NoReadRoom(b) && DataFirst(events)
  {
    ReadingYieldsData(StartReading(b, events));
  }

  lemma {:induction false} ReadingYieldsData(s: Reading)
    requires s.buf.Valid() && !s.done && s.total == 0
    ensures ReadLoop(s).total > 0 <==> !NoReadRoom(s.buf) && DataFirst(s.events)
    decreases |s.events|
  {
    hide ReadLoop, NoReadRoom, Buf.EnsureWritable, Buf.Valid, Reading.Once;
    var m := s.Once();
    s.OnceFacts();
    FirstAnswer(s);
    ReadLoopRound(s);
    if s.events != [] && s.events[0].ReadInterrupted? {
      ReadingYieldsData(m);
    } else if m.total > 0 {
      ReadLoopConserves(m);
    } else {
      ReadLoopRound(m);
    }
  }

  lemma FirstAnswer(s: Reading)
    requires s.buf.Valid() && !s.done && s.total == 0
    ensures var m, interrupted := s.Once(), s.events != [] && s.events[0].ReadInterrupted?;
      && (interrupted ==>
            !m.done && m.total == 0 && m.events == s.events[1..] && (NoReadRoom(m.buf) <==> NoReadRoom(s.buf)))
      && (!interrupted ==> (m.total > 0 <==> !NoReadRoom(s.buf) && DataFirst(s.events)) && (m.total <= 0 ==> m.done))
  {
    hide Buf.EnsureWritable, NoReadRoom;
    ReadRoomExact(s.buf);
  }

  /** How many readable bytes the buffer can come to hold in one call of `read_fd`, if enough are waiting: a long
      consumed prefix is compacted away and a short one does not stop growth; in between the storage stays as it is,
      and so it does when a first read of less than half a chunk ends the call. */
  function ReadCap(b: Buf): int {
    if b.reader >= PREPEND_THRESHOLD then MAX_BUFFER_SIZE
    else if b.reader >= READ_CHUNK_SIZE then b.size - b.reader
    else if b.Writable() < READ_CHUNK_SIZE / 2 && b.Writable() + b.reader >= READ_CHUNK_SIZE then b.size - b.reader
    else MAX_BUFFER_SIZE - b.reader
  }

  lemma RoomAndCap(b: Buf)
    requires b.Valid()
    ensures var c := b.EnsureWritable(READ_CHUNK_SIZE);
      && |b.bytes| + c.Writable() <= ReadCap(b)
      && (c.Writable() < READ_CHUNK_SIZE / 2 ==> |b.bytes| + c.Writable() == ReadCap(b))
      && (c.Writable() >= READ_CHUNK_SIZE / 2 ==>
          forall full: Buf | full.size == c.size && full.reader == c.reader && full.Writable() == 0 ::
            ReadCap(full) == ReadCap(b))
  {
  }

  /** Exactly when `read_fd` leaves bytes of a waiting burst behind: when buffered and waiting bytes together are
      more than that. */
  lemma BurstLeftExact(b: Buf, burst: Text)
    requires b.Valid() && burst != []
    ensures DataFirst(ReadLoop(StartReading(b, [Data(burst)])).events) <==> |b.bytes| + |burst| > ReadCap(b)
  {
    BurstLeft(StartReading(b, [Data(burst)]), burst);
  }

  lemma {:induction false} BurstLeft(s: Reading, burst: Text)
    requires s.buf.Valid() && !s.done && 0 <= s.total && burst != [] && s.events == [Data(burst)]
    ensures DataFirst(ReadLoop(s).events) <==> |s.buf.bytes| + |burst| > ReadCap(s.buf)
    decreases |burst|
  {
    hide ReadLoop, ReadCap, Buf.EnsureWritable, Reading.Once;
    var c := s.buf.EnsureWritable(READ_CHUNK_SIZE);
    var m := s.Once();
    RoomAndCap(s.buf);
    BurstStep(s, burst);
    s.OnceFacts();
    ReadLoopRound(s);
    ReadLoopRound(m);
    if |burst| <= c.Writable() {
      if !m.done {
        m.OnceFacts();
        NothingWaits(m);
        ReadLoopRound(m.Once());
      }
    } else if !m.done {
      BurstLeft(m, burst[c.Writable()..]);
    }
  }

  lemma BurstStep(s: Reading, burst: Text)
    requires s.buf.Valid() && !s.done && 0 <= s.total && burst != [] && s.events == [Data(burst)]
    ensures var c, m := s.buf.EnsureWritable(READ_CHUNK_SIZE), s.Once();
      if |burst| <= c.Writable() then m.events == []
      else
        && m.events == [Data(burst[c.Writable()..])] && m.buf == c.(bytes := c.bytes + burst[..c.Writable()])
        && (m.done <==> c.Writable() < READ_CHUNK_SIZE / 2)
  {
    hide Buf.EnsureWritable;
    Units(s.buf.EnsureWritable(READ_CHUNK_SIZE).bytes);
  }

  lemma NothingWaits(s: Reading)
    requires s.buf.Valid() && s.events == []
    ensures s.Once().events == [] && s.Once().done
  {
    hide Buf.EnsureWritable;
  }

  /** A connection gets into the state without room by ordinary streaming: a burst of 120000 bytes of which all
      but one are consumed, then one that fills the storage. What comes next is left waiting, and a return
      value of 0 is what the caller takes for the end of the stream. */
  lemma WaitingDataIsRefused(first: Text, second: Text, third: Text)
    requires |first| == 120000 && |second| == 142144 && third != []
    ensures var b := ReadLoop(StartReading(EMPTY_BUF, [Data(first)])).buf.Retrieve(119999);
      && b.Valid()
      && var c := ReadLoop(StartReading(b, [Data(second)])).buf;
      && c.Valid() && NoReadRoom(c) && DataFirst([Data(third)])
      && ReadLoop(StartReading(c, [Data(third)])).total == 0
  {
    hide ReadLoop;
    Units(first);
    OneBurst(EMPTY_BUF, first);
    var b := EMPTY_BUF.(bytes := first).EnsureWritable(READ_CHUNK_SIZE).Retrieve(119999);
    assert b.size == 262144 && b.reader == 119999 && |b.bytes| == 1;
    OneBurst(b, second);
    var c := b.(bytes := b.bytes + second);
    assert c.EnsureWritable(READ_CHUNK_SIZE) == c;
    var s := StartReading(c, [Data(third)]);
    ReadLoopRound(s);
    ReadLoopRound(s.Once());
  }

  /** A burst of at least half a chunk that there is room for is read whole, and room is made for another. */
  lemma OneBurst(b: Buf, burst: Text)
    requires b.Valid() && READ_CHUNK_SIZE <= b.Writable() && READ_CHUNK_SIZE / 2 <= |burst| <= b.Writable()
    ensures ReadLoop(StartReading(b, [Data(burst)])).buf == b.(bytes := b.bytes + burst).EnsureWritable(READ_CHUNK_SIZE)
  {
    hide ReadLoop, Buf.MakeSpace;
    var s := StartReading(b, [Data(burst)]);
    ReadLoopRound(s);
    var m := s.Once();
    s.OnceFacts();
    assert m.buf == b.(bytes := b.bytes + burst) && m.events == [] && !m.done;
    ReadLoopRound(m);
    m.OnceFacts();
    ReadLoopRound(m.Once());
  }

  class Buffer {
    var data: array<Byte>
    var readerIndex: nat
    var writerIndex: nat

    ghost predicate Valid()
      reads this
    {
      readerIndex <= writerIndex <= data.Length <= MAX_BUFFER_SIZE && INITIAL_BUFFER_SIZE <= data.Length
    }

    function View(): (b: Buf)
      requires Valid()
      reads this, data
      ensures b.Valid()
    {
      Buf(data.Length, readerIndex, data[readerIndex..writerIndex])
    }

    constructor ()
      ensures Valid() && fresh(data) && View() == EMPTY_BUF
    {
      data := new Byte[INITIAL_BUFFER_SIZE];
      readerIndex, writerIndex := 0, 0;
    }

    function ReadableBytes(): (n: nat)
      requires Valid()
      reads this, data
      ensures n == |View().bytes|
    {
      writerIndex - readerIndex
    }

    function WritableBytes(): nat
      requires Valid()
      reads this
    {
      data.Length - writerIndex
    }

    /** The bytes between the two indices. */
    function Peek(): (s: Text)
      requires Valid()
      reads this, data
      ensures s == View().bytes
    {
      data[readerIndex..writerIndex]
    }

    /** Offset of the first LF among the readable bytes, if any. */
    method FindEol() returns (r: Option<nat>)
      requires Valid()
      ensures r == Find(View().bytes, LF)
    {
      r := Find(Peek(), LF);
    }

    method RetrieveAll()
      requires Valid()
      modifies this`readerIndex, this`writerIndex
      ensures Valid() && View() == old(View()).RetrieveAll()
    {
      readerIndex, writerIndex := 0, 0;
    }

    method Retrieve(len: nat)
      requires Valid()
      modifies this`readerIndex, this`writerIndex
      ensures Valid() && View() == old(View()).Retrieve(len)
    {
      if len < ReadableBytes() {
        readerIndex := readerIndex + len;
      } else {
        RetrieveAll();
      }
    }

    method RetrieveAsString(len: nat) returns (s: Text)
      requires Valid() && len <= |View().bytes|
      modifies this`readerIndex, this`writerIndex
      ensures Valid() && View() == old(View()).Retrieve(len)
      ensures s == old(View().bytes)[..len]
    {
      s := data[readerIndex..readerIndex + len];
      Retrieve(len);
    }

    method Resize(newSize: nat)
      requires Valid() && data.Length <= newSize <= MAX_BUFFER_SIZE
      modifies this`data
      ensures Valid() && fresh(data) && View() == old(View()).(size := newSize)
    {
      var grown := new Byte[newSize];
      forall i | 0 <= i < data.Length {
        grown[i] := data[i];
      }
      data := grown;
    }

    method MakeSpace(len: nat)
      requires Valid()
      modifies this, data
      ensures Valid() && (data == old(data) || fresh(data))
      ensures View() == old(View()).MakeSpace(len)
    {
      if WritableBytes() >= len {
        return;
      }
      var readable := ReadableBytes();
      if readerIndex >= PREPEND_THRESHOLD {
        forall i | 0 <= i < readable {
          data[i] := data[readerIndex + i];
        }
        readerIndex, writerIndex := 0, readable;
      }
      assert View() == old(View()).Compact();
      if WritableBytes() + readerIndex < len {
        Resize(GrownSize(data.Length, len));
      }
    }

    method EnsureWritableBytes(len: nat)
      requires Valid()
      modifies this, data
      ensures Valid() && (data == old(data) || fresh(data))
      ensures View() == old(View()).EnsureWritable(len)
    {
      if WritableBytes() < len {
        MakeSpace(len);
      }
    }

    /** Copy `bytes` behind the writer index and advance it (`std::copy_n` or `::read`, then `has_written`). */
    method Fill(bytes: Text)
      requires Valid() && |bytes| <= WritableBytes()
      modifies this`writerIndex, data
      ensures Valid() && View() == old(View()).(bytes := old(View()).bytes + bytes)
    {
      forall i | 0 <= i < |bytes| {
        data[writerIndex + i] := bytes[i];
      }
      writerIndex := writerIndex + |bytes|;
    }

    /** Without room `std::copy_n` would run past the storage: `RoomFor` is what the code needs of its callers. */
    method Append(bytes: Text)
      requires Valid() && View().RoomFor(|bytes|)
      modifies this, data
      ensures Valid() && (data == old(data) || fresh(data))
      ensures View() == old(View()).Append(bytes)
    {
      View().EnsureWritableExact(|bytes|);
      EnsureWritableBytes(|bytes|);
      Fill(bytes);
    }

    /** One `::read` into the free end of the storage, which the kernel cannot overrun. */
    method ReadOnce(socket: Socket) returns (outcome: ReadOutcome)
      requires Valid()
      modifies this, data, socket`events
      ensures Valid() && (data == old(data) || fresh(data))
      ensures var c := old(View()).EnsureWritable(READ_CHUNK_SIZE);
        && (outcome, socket.events) == Deliver(old(socket.events), c.Writable())
        && View() == if outcome.Got? then c.(bytes := c.bytes + outcome.bytes) else c
    {
      hide Buf.EnsureWritable, Buf.MakeSpace, Deliver;
      ghost var c := View().EnsureWritable(READ_CHUNK_SIZE);
      EnsureWritableBytes(READ_CHUNK_SIZE);
      assert View() == c && WritableBytes() == c.Writable();
      outcome := socket.Read(WritableBytes());
      if outcome.Got? {
        Fill(outcome.bytes);
      }
    }

    method ReadFd(socket: Socket) returns (total: int, savedErrno: int, ghost calls: nat)
      requires Valid()
      modifies this, data, socket`events
      ensures Valid() && (data == old(data) || fresh(data))
      ensures Reading(View(), socket.events, total, savedErrno, calls, true)
           == ReadLoop(StartReading(old(View()), old(socket.events)))
      ensures calls <= 129
    {
      hide ReadLoop, Deliver, Buf.EnsureWritable, Buf.Valid;
      ghost var start := StartReading(View(), socket.events);
      ReadFdBound(View(), socket.events);
      savedErrno, total, calls := 0, 0, 0;
      ghost var now := start;
      while true
        invariant Valid() && (data == old(data) || fresh(data))
        invariant 0 <= total && savedErrno == 0
        invariant now == Reading(View(), socket.events, total, 0, calls, false)
        invariant ReadLoop(now) == ReadLoop(start)
        decreases ScriptSize(socket.events)
      {
        now.OnceFacts();
        ReadLoopRound(now);
        now := now.Once();
        ReadLoopRound(now);
        var outcome := ReadOnce(socket);
        calls := if outcome.GotInterrupted? then calls else calls + 1;
        match outcome {
          case GotAgain =>
            return;
          case GotInterrupted =>
          case GotError(e) =>
            savedErrno := e;
            if total == 0 {
              total := -1;
            }
            return;
          case Got(bytes) =>
            if bytes == [] {
              return;
            }
            total := total + |bytes|;
            if |bytes| < READ_CHUNK_SIZE / 2 {
              return;
            }
        }
      }
    }
  }
}
