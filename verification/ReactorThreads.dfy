/** One reactor and the threads that talk to it: senders append to output buffers under the buffer mutex, post
    functors under the mailbox mutex and write the eventfd; the reactor drains the eventfd, swaps the mailbox
    out, runs the functors, flushes output and switches EPOLLOUT on and off. Every critical section and every
    system call is one step, and steps of different threads interleave freely. */
module ReactorThreads {
  import opened Config
  import opened Bytes
  import opened Buffers

  type Id = int
  type Fd = int

  datatype Functor = AddConn(id: Id, fd: Fd) | Enable(fd: Fd)

  /** A connection object; `sent` and `accepted` are histories of the socket and of successful `send` calls. */
  datatype Conn = Conn(alive: bool, fd: Fd, out: Buf, sent: Text, accepted: Text)

  /** A thread outside the reactor: between calls; past the unlock in `send` with `become_non_empty` set;
      past the push and before the write to the eventfd. */
  datatype Sender = Idle | MustPost(id: Id) | MustWrite

  datatype State = State(
    conns: map<Id, Conn>,
    table: map<Fd, Id>,
    writing: set<Fd>,
    mailbox: seq<Functor>,
    batch: seq<Functor>,
    ran: seq<Functor>,
    posted: seq<Functor>,
    counter: nat,
    draining: bool,
    needPending: bool,
    exited: bool,
    senders: seq<Sender>,
    inlineEnable: Option<Id>)
  {
    /** Everything posted and not run yet, oldest first. */
    function Queue(): seq<Functor> { batch + mailbox }

    predicate Live(id: Id) { id in conns && conns[id].alive }

    predicate HasOutput(id: Id) { Live(id) && conns[id].out.bytes != [] }
  }

  datatype Step =
    | Accept(t: nat, id: Id, fd: Fd)              // add_connection up to the push
    | Append(t: nat, id: Id, data: Text)          // critical section of send in another thread
    | Post(t: nat)                                // enable_writing in another thread
    | WriteEventFd(t: nat)
    | Shutdown(id: Id)                            // any thread: overflow, error, end of file
    | ReadEventFd                                 // one read of the drain loop
    | SetPending
    | Swap
    | RunOne
    | Flush(fd: Fd, count: nat)                   // handle_write, `count` bytes taken by the kernel
    | InlineAppend(id: Id, data: Text)            // critical section of send in the reactor thread
    | InlineEnable                                // enable_writing in the reactor thread
    | Close(fd: Fd)                               // close_connection
    | Exit                                        // the loop of run sees the stop request

  predicate Reacting(s: State) { s.batch == [] && s.inlineEnable == None }

  predicate Looping(s: State) { Reacting(s) && !s.exited }

  /** `send` accepts: alive, something to send, under the cap, and the append has room for it. */
  predicate CanSend(s: State, id: Id, data: Text) {
    && s.Live(id) && data != []
    && |s.conns[id].out.bytes| + |data| <= MAX_BUFFER_SIZE
    && s.conns[id].out.RoomFor(|data|)
  }

  predicate Can(s: State, step: Step) {
    match step
    case Accept(t, id, fd) =>
      && t < |s.senders| && s.senders[t].Idle? && id !in s.conns
      && forall j | j in s.conns :: s.conns[j].alive ==> s.conns[j].fd != fd
    case Append(t, id, data) => t < |s.senders| && s.senders[t].Idle? && CanSend(s, id, data)
    case Post(t) => t < |s.senders| && s.senders[t].MustPost?
    case WriteEventFd(t) => t < |s.senders| && s.senders[t].MustWrite?
    case Shutdown(id) => s.Live(id)
    case ReadEventFd => Looping(s) && s.counter > 0
    case SetPending => s.draining && s.counter == 0
    case Swap => Looping(s) && s.needPending && !s.draining
    case RunOne => s.batch != []
    case Flush(fd, count) =>
      Looping(s) && fd in s.table && s.Live(s.table[fd]) && count <= |s.conns[s.table[fd]].out.bytes|
    case InlineAppend(id, data) => Looping(s) && CanSend(s, id, data) && Registered(s, id)
    case InlineEnable => s.inlineEnable.Some?
    case Close(fd) => Reacting(s) && fd in s.table
    case Exit => Looping(s) && !s.draining && !s.needPending
  }

  /** Connection objects stay, keep their descriptor and do not come back to life. */
  ghost predicate Ages(s: State, r: State) {
    forall id | id in s.conns ::
      id in r.conns && r.conns[id].fd == s.conns[id].fd && (r.conns[id].alive ==> s.conns[id].alive)
  }

  ghost predicate NoNewOutput(s: State, r: State) {
    forall id | id in r.conns && r.conns[id].alive && r.conns[id].out.bytes != [] :: s.HasOutput(id)
  }

  /** The append under the lock, and whether it made the buffer non-empty. */
  function Appended(s: State, id: Id, data: Text): (r: State)
    requires CanSend(s, id, data) && s.conns[id].out.Valid()
    ensures r == s.(conns := r.conns) && Ages(s, r)
    ensures r.Live(id) && forall j | j in r.conns && j != id :: j in s.conns && r.conns[j] == s.conns[j]
  {
    var c := s.conns[id];
    s.(conns := s.conns[id := c.(out := c.out.Append(data), accepted := c.accepted + data)])
  }

  function Push(s: State, f: Functor): State { s.(mailbox := s.mailbox + [f], posted := s.posted + [f]) }

  /** Shutdown clears the buffer; what was in it is not delivered. */
  function Killed(s: State, id: Id): (r: State)
    requires id in s.conns
    ensures r == s.(conns := r.conns) && Ages(s, r) && NoNewOutput(s, r)
    ensures id in r.conns && !r.conns[id].alive
  {
    s.(conns := s.conns[id := s.conns[id].(alive := false, out := s.conns[id].out.RetrieveAll())])
  }

  function RunFunctor(s: State, f: Functor): (r: State)
    ensures r == s.(conns := r.conns, table := r.table, writing := r.writing) && Ages(s, r) && NoNewOutput(s, r)
  {
    match f
    case Enable(fd) => if fd in s.table then s.(writing := s.writing + {fd}) else s
    case AddConn(id, fd) =>
      if !s.Live(id) then s
      else if fd in s.table then Killed(s, id)
      else s.(table := s.table[fd := id])
  }

  function Flushed(s: State, fd: Fd, count: nat): (r: State)
    requires fd in s.table && s.table[fd] in s.conns && count <= |s.conns[s.table[fd]].out.bytes|
    ensures r == s.(conns := r.conns, writing := r.writing) && r.writing <= s.writing
    ensures Ages(s, r) && NoNewOutput(s, r)
  {
    var id := s.table[fd];
    var c := s.conns[id];
    var d := c.(out := c.out.Retrieve(count), sent := c.sent + c.out.bytes[..count]);
    s.(conns := s.conns[id := d], writing := if d.out.bytes == [] then s.writing - {fd} else s.writing)
  }

  function Next(s: State, step: Step): State
    requires Can(s, step) && Valid(s)
  {
    match step
    case Accept(t, id, fd) =>
      Push(s, AddConn(id, fd)).(
      conns := s.conns[id := Conn(true, fd, EMPTY_BUF, [], [])], senders := s.senders[t := MustWrite])
    case Append(t, id, data) =>
      Appended(s, id, data).(senders := s.senders[t := if s.HasOutput(id) then Idle else MustPost(id)])
    case Post(t) =>
      var id := s.senders[t].id;
      if s.Live(id) then Push(s, Enable(s.conns[id].fd)).(senders := s.senders[t := MustWrite])
      else s.(senders := s.senders[t := Idle])
    case WriteEventFd(t) => s.(counter := s.counter + 1, senders := s.senders[t := Idle])
    case Shutdown(id) => Killed(s, id)
    case ReadEventFd => s.(counter := 0, draining := true)
    case SetPending => s.(draining := false, needPending := true)
    case Swap => s.(batch := s.mailbox, mailbox := [], needPending := false)
    case RunOne => RunFunctor(s.(batch := s.batch[1..], ran := s.ran + [s.batch[0]]), s.batch[0])
    case Flush(fd, count) => Flushed(s, fd, count)
    case InlineAppend(id, data) =>
      Appended(s, id, data).(inlineEnable := if s.HasOutput(id) then None else Some(id))
    case InlineEnable =>
      var id := s.inlineEnable.value;
      s.(inlineEnable := None,
      writing := if s.Live(id) && s.conns[id].fd in s.table then s.writing + {s.conns[id].fd} else s.writing)
    case Close(fd) => Killed(s, s.table[fd]).(table := s.table - {fd}, writing := s.writing - {fd})
    case Exit => s.(exited := true)
  }

  // ---- The invariant ----

  /** Nothing posted is lost, run twice or run out of order, and posted work has a wakeup on its way: a
      positive eventfd, a poster about to write it, or a reactor that is about to swap; until the reactor stops. */
  ghost predicate MailOk(s: State) {
    && s.posted == s.ran + s.Queue()
    && (s.mailbox != [] && !s.exited ==> s.counter > 0 || MustWrite in s.senders || s.draining || s.needPending)
  }

  predicate Registered(s: State, id: Id) {
    id in s.conns && s.conns[id].fd in s.table && s.table[s.conns[id].fd] == id
  }

  ghost predicate TablesOk(s: State) {
    && (forall fd | fd in s.table :: s.table[fd] in s.conns && s.conns[s.table[fd]].fd == fd)
    && s.writing <= s.table.Keys
    && (s.inlineEnable.Some? ==> s.inlineEnable.value in s.conns)
    && (s.inlineEnable.Some? && s.Live(s.inlineEnable.value) ==> Registered(s, s.inlineEnable.value))
  }

  predicate Expected(s: State, f: Functor)
    requires f.AddConn?
  {
    f.id in s.conns && s.conns[f.id].fd == f.fd && !Registered(s, f.id)
  }

  /** Registrations in the mailbox are for connections that are not in the table yet, one for each. */
  ghost predicate PendingOk(s: State) {
    var q := s.Queue();
    && (forall i | 0 <= i < |q| && q[i].AddConn? :: Expected(s, q[i]))
    && (forall i, j | 0 <= i < j < |q| && q[i].AddConn? && q[j].AddConn? :: q[i].id != q[j].id)
  }

  /** Output conservation: what the socket took and what is buffered is what was accepted, in order; a connection
      that was shut down has nothing buffered. */
  ghost predicate OutputOk(s: State) {
    forall id | id in s.conns ::
      && s.conns[id].out.Valid()
      && (if s.conns[id].alive then s.conns[id].sent + s.conns[id].out.bytes == s.conns[id].accepted
          else s.conns[id].out.bytes == [])
  }

  /** Somebody is about to ask for write interest for this connection. */
  ghost predicate Promised(s: State, id: Id) {
    MustPost(id) in s.senders || s.inlineEnable == Some(id)
  }

  /** No stranded output: a live registered connection with buffered output has EPOLLOUT on, or a request for
      it is in the mailbox, or a sender is about to make one. */
  ghost predicate NotStranded(s: State) {
    forall fd | fd in s.table && s.HasOutput(s.table[fd]) ::
      fd in s.writing || Enable(fd) in s.Queue() || Promised(s, s.table[fd])
  }

  /** The same for a connection whose registration is still in the mailbox: the request comes behind it. */
  ghost predicate NotStrandedBefore(s: State) {
    forall i | 0 <= i < |s.Queue()| && s.Queue()[i].AddConn? && s.HasOutput(s.Queue()[i].id) ::
      Enable(s.Queue()[i].fd) in s.Queue()[i + 1..] || Promised(s, s.Queue()[i].id)
  }

  ghost predicate Valid(s: State) {
    MailOk(s) && TablesOk(s) && PendingOk(s) && OutputOk(s) && NotStranded(s) && NotStrandedBefore(s)
  }

  lemma Replaced<T>(xs: seq<T>, i: nat, x: T)
    requires i < |xs|
    ensures x in xs[i := x] && forall y :: y in xs && y != xs[i] ==> y in xs[i := x]
  {
    var ys := xs[i := x];
    assert ys[i] == x;
    forall y | y in xs && y != xs[i] ensures y in ys {
      var j :| 0 <= j < |xs| && xs[j] == y;
      assert ys[j] == y;
    }
  }

  lemma Pushed(s: State, f: Functor)
    ensures Push(s, f).Queue() == s.Queue() + [f]
  {
    Assoc(s.batch, s.mailbox, [f]);
  }

  /** The thread outside the reactor that takes this step, if one does. */
  function Acting(step: Step): Option<nat> {
    match step
    case Accept(t, _, _) => Some(t)
    case Append(t, _, _) => Some(t)
    case Post(t) => Some(t)
    case WriteEventFd(t) => Some(t)
    case _ => None
  }

  /** What the step posts. */
  function NewFunctors(s: State, step: Step): seq<Functor>
    requires Can(s, step)
  {
    match step
    case Accept(_, id, fd) => [AddConn(id, fd)]
    case Post(t) => if s.Live(s.senders[t].id) then [Enable(s.conns[s.senders[t].id].fd)] else []
    case _ => []
  }

  /** How the queue of functors that have not run changes: it loses its head or grows at the end. */
  lemma QueueChange(s: State, step: Step)
    requires Valid(s) && Can(s, step)
    ensures var r := Next(s, step);
      && s.Queue() + NewFunctors(s, step) == (if step.RunOne? then [s.batch[0]] else []) + r.Queue()
      && r.posted == s.posted + NewFunctors(s, step)
      && r.ran == s.ran + if step.RunOne? then [s.batch[0]] else []
  {
    hide Valid, Appended, Killed, RunFunctor, Flushed;
    var r := Next(s, step);
    Units(s.posted);
    Units(s.ran);
    Units(s.Queue());
    Units(r.Queue());
    match step
    case RunOne =>
      assert s.batch == [s.batch[0]] + s.batch[1..];
      Assoc([s.batch[0]], s.batch[1..], s.mailbox);
    case Accept(t, id, fd) => Pushed(s, AddConn(id, fd));
    case Post(t) => if s.Live(s.senders[t].id) { Pushed(s, Enable(s.conns[s.senders[t].id].fd)); }
    case Swap => Units(s.mailbox);
    case _ =>
  }

  /** Only the acting thread changes its place. */
  lemma OtherSenders(s: State, step: Step)
    requires Valid(s) && Can(s, step)
    ensures var r := Next(s, step);
      && |r.senders| == |s.senders|
      && (Acting(step) == None ==> r.senders == s.senders)
      && (Acting(step).Some? ==>
          var t := Acting(step).value;
          t < |s.senders| && r.senders == s.senders[t := r.senders[t]] && r.senders[t] in r.senders)
  {
    hide Valid, Appended, Killed, RunFunctor, Flushed;
    var r := Next(s, step);
    if Acting(step).Some? {
      Replaced(s.senders, Acting(step).value, r.senders[Acting(step).value]);
    }
  }

  lemma MailKept(s: State, step: Step)
    requires Valid(s) && Can(s, step)
    ensures MailOk(Next(s, step))
  {
    hide TablesOk, PendingOk, OutputOk, NotStranded, NotStrandedBefore;
    var r := Next(s, step);
    QueueChange(s, step);
    OrderKept(s, step);
    OtherSenders(s, step);
    if Acting(step).Some? {
      Replaced(s.senders, Acting(step).value, r.senders[Acting(step).value]);
    }
  }

  lemma OrderKept(s: State, step: Step)
    requires Valid(s) && Can(s, step)
    ensures Next(s, step).posted == Next(s, step).ran + Next(s, step).Queue()
  {
    hide Next, State.Queue, TablesOk, PendingOk, OutputOk, NotStranded, NotStrandedBefore;
    var r := Next(s, step);
    var head := if step.RunOne? then [s.batch[0]] else [];
    QueueChange(s, step);
    Assoc(s.ran, s.Queue(), NewFunctors(s, step));
    Assoc(s.ran, head, r.Queue());
  }

  /** How a step changes tables and the pending request of the reactor thread. */
  lemma TablesNext(s: State, step: Step)
    requires Valid(s) && Can(s, step)
    ensures var r := Next(s, step);
      match step
      case RunOne => r == RunFunctor(s.(batch := s.batch[1..], ran := s.ran + [s.batch[0]]), s.batch[0])
      case Close(fd) =>
        s.table[fd] in s.conns && r == Killed(s, s.table[fd]).(table := s.table - {fd}, writing := s.writing - {fd})
      case InlineAppend(id, data) =>
        && s.conns[id].out.Valid()
        && (r == Appended(s, id, data).(inlineEnable := None) || r == Appended(s, id, data).(inlineEnable := Some(id)))
      case InlineEnable =>
        var id := s.inlineEnable.value;
        if s.Live(id) && s.conns[id].fd in s.table
        then r == s.(inlineEnable := None, writing := s.writing + {s.conns[id].fd})
        else r == s.(inlineEnable := None)
      case _ => r.table == s.table && r.writing <= s.writing && r.inlineEnable == s.inlineEnable
  {
    hide Valid, Ages, NoNewOutput, Buf.RoomFor, Buf.Valid, Registered, Killed, RunFunctor;
    OutputsValid(s);
    if step.Close? {
      EntryKnown(s, step.fd);
    }
  }

  lemma TablesKept(s: State, step: Step)
    requires Valid(s) && Can(s, step)
    ensures TablesOk(Next(s, step))
  {
    hide MailOk, OutputOk, NotStranded, NotStrandedBefore, TablesOk, Next;
    hide Appended, Killed, Flushed, RunFunctor, Ages, NoNewOutput;
    var r := Next(s, step);
    AgesNext(s, step);
    TablesNext(s, step);
    match step
    case RunOne =>
      HeadOfQueue(s);
      TablesByDefinition(s, s.(batch := s.batch[1..], ran := s.ran + [s.batch[0]]));
      FunctorKeepsTables(s.(batch := s.batch[1..], ran := s.ran + [s.batch[0]]), s.batch[0]);
    case Close(fd) => CloseKeepsTables(s, fd);
    case InlineAppend(id, data) => InlineKeepsTables(s, id, data);
    case InlineEnable => TablesAfterEnable(s);
    case _ => TablesByDefinition(s, r);
  }

  lemma TablesByDefinition(s: State, r: State)
    requires TablesOk(s) && Ages(s, r)
    requires r.table == s.table && r.writing <= s.writing && r.inlineEnable == s.inlineEnable
    ensures TablesOk(r)
  {
    EntriesAge(s, r);
    if s.inlineEnable.Some? {
      assert s.inlineEnable.value in s.conns;
    }
  }

  lemma EntriesAge(s: State, r: State)
    requires TablesOk(s) && Ages(s, r)
    ensures forall fd | fd in s.table :: s.table[fd] in r.conns && r.conns[s.table[fd]].fd == fd
  {
    forall fd | fd in s.table ensures s.table[fd] in r.conns && r.conns[s.table[fd]].fd == fd {
      var id := s.table[fd];
      assert id in s.conns && s.conns[id].fd == fd;
      assert id in r.conns;
      assert r.conns[id].fd == s.conns[id].fd;
    }
  }

  lemma CloseKeepsTables(s: State, fd: Fd)
    requires TablesOk(s) && fd in s.table
    ensures TablesOk(Killed(s, s.table[fd]).(table := s.table - {fd}, writing := s.writing - {fd}))
  {
    hide Killed;
    EntriesAge(s, Killed(s, s.table[fd]));
    if s.inlineEnable.Some? {
      assert s.inlineEnable.value in s.conns;
    }
  }

  lemma InlineKeepsTables(s: State, id: Id, data: Text)
    requires TablesOk(s) && CanSend(s, id, data) && s.conns[id].out.Valid() && Registered(s, id)
    ensures TablesOk(Appended(s, id, data).(inlineEnable := None))
    ensures TablesOk(Appended(s, id, data).(inlineEnable := Some(id)))
  {
    hide Appended;
    EntriesAge(s, Appended(s, id, data));
  }

  lemma TablesAfterEnable(s: State)
    requires TablesOk(s)
    ensures TablesOk(s.(inlineEnable := None))
    ensures forall fd | fd in s.table :: TablesOk(s.(inlineEnable := None, writing := s.writing + {fd}))
  {
  }

  lemma FunctorKeepsTables(s: State, f: Functor)
    requires TablesOk(s) && (f.AddConn? ==> f.id in s.conns && s.conns[f.id].fd == f.fd)
    ensures TablesOk(RunFunctor(s, f))
  {
  }

  /** A connection is registered after a step only if it was, or its registration has just been run. */
  lemma RegisteredBefore(s: State, step: Step, id: Id)
    requires Valid(s) && Can(s, step) && Registered(Next(s, step), id)
    ensures Registered(s, id) || (step.RunOne? && s.batch[0].AddConn? && s.batch[0].id == id)
  {
    hide MailOk, PendingOk, OutputOk, NotStranded, NotStrandedBefore, Next;
    TableNext(s, step);
    if id in s.conns {
      ConnsKept(s, step, id);
    }
  }

  lemma PendingKept(s: State, step: Step)
    requires Valid(s) && Can(s, step)
    ensures PendingOk(Next(s, step))
  {
    hide Next, Valid, State.Queue, Registered;
    var q := Next(s, step).Queue();
    forall i | 0 <= i < |q| && q[i].AddConn? ensures Expected(Next(s, step), q[i]) {
      EntryKept(s, step, i);
    }
    forall i, j | 0 <= i < j < |q| && q[i].AddConn? && q[j].AddConn? ensures q[i].id != q[j].id {
      EntriesDiffer(s, step, i, j);
    }
  }

  lemma EntryKept(s: State, step: Step, i: nat)
    requires Valid(s) && Can(s, step) && i < |Next(s, step).Queue()| && Next(s, step).Queue()[i].AddConn?
    ensures Expected(Next(s, step), Next(s, step).Queue()[i])
  {
    hide Next, MailOk, TablesOk, OutputOk, NotStranded, NotStrandedBefore, State.Queue, Registered;
    var f, k := Next(s, step).Queue()[i], if step.RunOne? then 1 else 0;
    QueueIndex(s, step);
    if i + k < |s.Queue()| {
      assert s.Queue()[i + k] == f && Expected(s, f);
      ConnsKept(s, step, f.id);
      if Registered(Next(s, step), f.id) {
        RegisteredBefore(s, step, f.id);
      }
    } else {
      FreshIsExpected(s, step);
    }
  }

  lemma EntriesDiffer(s: State, step: Step, i: nat, j: nat)
    requires Valid(s) && Can(s, step)
    requires var q := Next(s, step).Queue(); i < j < |q| && q[i].AddConn? && q[j].AddConn?
    ensures Next(s, step).Queue()[i].id != Next(s, step).Queue()[j].id
  {
    hide Next, MailOk, TablesOk, OutputOk, NotStranded, NotStrandedBefore, State.Queue, Registered;
    var q, k := Next(s, step).Queue(), if step.RunOne? then 1 else 0;
    QueueIndex(s, step);
    assert i + k < |s.Queue()| && s.Queue()[i + k] == q[i] && Expected(s, q[i]);
    if j + k < |s.Queue()| {
      assert s.Queue()[j + k] == q[j];
    }
  }

  lemma FreshIsExpected(s: State, step: Step)
    requires Valid(s) && Can(s, step)
    ensures forall f | f in NewFunctors(s, step) && f.AddConn? :: Expected(Next(s, step), f)
  {
    hide MailOk, OutputOk, NotStranded, NotStrandedBefore, PendingOk, Appended, Killed, RunFunctor, Flushed;
  }

  /** Positions in the queue before and after a step. */
  lemma QueueIndex(s: State, step: Step)
    requires Valid(s) && Can(s, step)
    ensures var q, k := Next(s, step).Queue(), if step.RunOne? then 1 else 0;
      && |q| + k == |s.Queue()| + |NewFunctors(s, step)|
      && (forall i | 0 <= i < |q| && i + k < |s.Queue()| :: q[i] == s.Queue()[i + k])
      && (forall i | 0 <= i < |q| && i + k >= |s.Queue()| :: q[i] == NewFunctors(s, step)[i + k - |s.Queue()|])
      && (step.RunOne? ==> |s.Queue()| > 0 && s.Queue()[0] == s.batch[0])
  {
    hide Next, Valid, State.Queue;
    QueueChange(s, step);
    Shifted(s.Queue(), NewFunctors(s, step), if step.RunOne? then [s.batch[0]] else [], Next(s, step).Queue());
    HeadOfQueue(s);
  }

  lemma Shifted<T>(before: seq<T>, added: seq<T>, head: seq<T>, q: seq<T>)
    requires before + added == head + q
    ensures |q| + |head| == |before| + |added|
    ensures forall i | 0 <= i < |q| && i + |head| < |before| :: q[i] == before[i + |head|]
    ensures forall i | 0 <= i < |q| && i + |head| >= |before| :: q[i] == added[i + |head| - |before|]
  {
    var all := head + q;
    assert forall i | 0 <= i < |q| :: q[i] == all[i + |head|];
  }

  lemma HeadOfQueue(s: State)
    ensures s.batch != [] ==> s.Queue() != [] && s.Queue()[0] == s.batch[0]
  {
  }

  lemma AgesSame(s: State, m: State, r: State)
    requires (m.conns == s.conns || Ages(s, m)) && r.conns == m.conns
    ensures Ages(s, r)
  {
  }

  lemma AgesNext(s: State, step: Step)
    requires Valid(s) && Can(s, step)
    ensures Ages(s, Next(s, step))
  {
    hide MailOk, PendingOk, NotStranded, NotStrandedBefore, Ages, Appended, Killed, RunFunctor, Flushed;
    var r := Next(s, step);
    match step
    case Accept(t, id, fd) => AgesAccept(s, r);
    case Append(t, id, data) => AgesSame(s, Appended(s, id, data), r);
    case InlineAppend(id, data) => AgesSame(s, Appended(s, id, data), r);
    case RunOne => AgesRun(s, s.(batch := s.batch[1..], ran := s.ran + [s.batch[0]]), s.batch[0]);
    case Close(fd) => AgesSame(s, Killed(s, s.table[fd]), r);
    case Shutdown(id) =>
    case Flush(fd, count) =>
    case _ => AgesSame(s, s, r);
  }

  lemma AgesAccept(s: State, r: State)
    requires forall id | id in s.conns :: id in r.conns && r.conns[id] == s.conns[id]
    ensures Ages(s, r)
  {
  }

  lemma AgesRun(s: State, m: State, f: Functor)
    requires m.conns == s.conns
    ensures Ages(s, RunFunctor(m, f))
  {
    hide RunFunctor;
  }

  /** A connection keeps its descriptor. */
  lemma ConnsKept(s: State, step: Step, id: Id)
    requires Valid(s) && Can(s, step) && id in s.conns
    ensures id in Next(s, step).conns && Next(s, step).conns[id].fd == s.conns[id].fd
    ensures Next(s, step).Live(id) ==> s.Live(id)
  {
    hide Next, Valid;
    AgesNext(s, step);
  }

  /** How the table changes. */
  lemma TableNext(s: State, step: Step)
    requires Valid(s) && Can(s, step)
    ensures var r := Next(s, step);
      && (!step.RunOne? && !step.Close? ==> r.table == s.table)
      && (step.Close? ==> r.table == s.table - {step.fd})
      && (step.RunOne? ==>
            r.table == s.table || (s.batch[0].AddConn? && r.table == s.table[s.batch[0].fd := s.batch[0].id]))
  {
    hide Valid, Ages, NoNewOutput, CanSend;
  }

  /** How a step changes the connections. */
  lemma ConnsNext(s: State, step: Step)
    requires Valid(s) && Can(s, step)
    ensures var r := Next(s, step).conns;
      match step
      case Append(_, id, data) => s.conns[id].out.Valid() && r == Appended(s, id, data).conns
      case InlineAppend(id, data) => s.conns[id].out.Valid() && r == Appended(s, id, data).conns
      case Flush(fd, count) => r == Flushed(s, fd, count).conns
      case Accept(_, id, fd) => id !in s.conns && r == s.conns[id := Conn(true, fd, EMPTY_BUF, [], [])]
      case Shutdown(id) => r == Killed(s, id).conns
      case Close(fd) => s.table[fd] in s.conns && r == Killed(s, s.table[fd]).conns
      case RunOne => r == RunFunctor(s.(batch := s.batch[1..], ran := s.ran + [s.batch[0]]), s.batch[0]).conns
      case _ => r == s.conns
  {
    hide Valid, Ages, NoNewOutput, Registered, Appended, Flushed, Killed, RunFunctor, Buf.RoomFor, Buf.Valid;
    OutputsValid(s);
    if step.Close? {
      EntryKnown(s, step.fd);
    }
  }

  lemma OutputKept(s: State, step: Step)
    requires Valid(s) && Can(s, step)
    ensures OutputOk(Next(s, step))
  {
    hide MailOk, TablesOk, PendingOk, OutputOk, NotStranded, NotStrandedBefore;
    hide Next, Appended, Killed, Flushed, RunFunctor, Ages, NoNewOutput;
    var r := Next(s, step);
    ConnsNext(s, step);
    match step
    case Append(t, id, data) =>
      AppendConserves(s, id, data);
      OutputByConns(Appended(s, id, data), r);
    case InlineAppend(id, data) =>
      AppendConserves(s, id, data);
      OutputByConns(Appended(s, id, data), r);
    case Flush(fd, count) =>
      FlushConserves(s, fd, count);
      OutputByConns(Flushed(s, fd, count), r);
    case Accept(t, id, fd) => AcceptConserves(s, r, id, fd);
    case Shutdown(id) =>
      KillConserves(s, id);
      OutputByConns(Killed(s, id), r);
    case Close(fd) =>
      KillConserves(s, s.table[fd]);
      OutputByConns(Killed(s, s.table[fd]), r);
    case RunOne =>
      var m := s.(batch := s.batch[1..], ran := s.ran + [s.batch[0]]);
      OutputByConns(s, m);
      FunctorConserves(m, s.batch[0]);
      OutputByConns(RunFunctor(m, s.batch[0]), r);
    case _ => OutputByConns(s, r);
  }

  lemma OutputByConns(s: State, r: State)
    requires OutputOk(s) && r.conns == s.conns
    ensures OutputOk(r)
  {
  }

  lemma AcceptConserves(s: State, r: State, id: Id, fd: Fd)
    requires OutputOk(s) && r.conns == s.conns[id := Conn(true, fd, EMPTY_BUF, [], [])]
    ensures OutputOk(r)
  {
    Units(EMPTY_BUF.bytes);
  }

  lemma KillConserves(s: State, id: Id)
    requires OutputOk(s) && id in s.conns
    ensures OutputOk(Killed(s, id))
  {
    var r := Killed(s, id);
    assert s.conns[id].out.Valid();
    assert forall j | j in r.conns && j != id :: r.conns[j] == s.conns[j];
  }

  lemma FunctorConserves(s: State, f: Functor)
    requires OutputOk(s)
    ensures OutputOk(RunFunctor(s, f))
  {
    hide Killed;
    if f.AddConn? && f.id in s.conns {
      KillConserves(s, f.id);
    }
  }

  lemma AppendConserves(s: State, id: Id, data: Text)
    requires OutputOk(s) && CanSend(s, id, data)
    ensures OutputOk(Appended(s, id, data)) && Appended(s, id, data).HasOutput(id)
  {
    Assoc(s.conns[id].sent, s.conns[id].out.bytes, data);
  }

  lemma FlushConserves(s: State, fd: Fd, count: nat)
    requires OutputOk(s) && fd in s.table && s.table[fd] in s.conns && count <= |s.conns[s.table[fd]].out.bytes|
    ensures OutputOk(Flushed(s, fd, count))
  {
    var id := s.table[fd];
    var c := s.conns[id];
    var d := c.out.Retrieve(count);
    assert c.out.Valid();
    assert c.out.bytes == c.out.bytes[..count] + d.bytes;
    Assoc(c.sent, c.out.bytes[..count], d.bytes);
    var r := Flushed(s, fd, count);
    assert r.conns[id].out == d && d.Valid();
    assert r.conns[id].sent + d.bytes == c.sent + c.out.bytes;
    forall j | j in r.conns
      ensures r.conns[j].out.Valid()
      ensures if r.conns[j].alive then r.conns[j].sent + r.conns[j].out.bytes == r.conns[j].accepted
              else r.conns[j].out.bytes == []
    {
      if j != id {
        assert r.conns[j] == s.conns[j];
      }
    }
  }

  /** A connection that has output after a step had it before, or the step promises the request. */
  lemma OutputIsOldOrPromised(s: State, step: Step, id: Id)
    requires Valid(s) && Can(s, step) && Next(s, step).HasOutput(id)
    ensures s.HasOutput(id) || Promised(Next(s, step), id)
    ensures s.Live(id) && Next(s, step).conns[id].fd == s.conns[id].fd
  {
    hide MailOk, TablesOk, PendingOk, NotStranded, NotStrandedBefore, Appended, Killed, RunFunctor, Flushed;
    OtherSenders(s, step);
  }

  /** Promises are kept until they are redeemed. */
  lemma PromisesKept(s: State, step: Step, id: Id)
    requires Valid(s) && Can(s, step) && Promised(s, id) && s.Live(id)
    ensures var r := Next(s, step);
      || Promised(r, id)
      || NewFunctors(s, step) == [Enable(s.conns[id].fd)]
      || (step.InlineEnable? && s.inlineEnable == Some(id) && Registered(s, id) && s.conns[id].fd in r.writing)
  {
    hide MailOk, PendingOk, OutputOk, NotStranded, NotStrandedBefore;
    var r := Next(s, step);
    OtherSenders(s, step);
    if MustPost(id) in s.senders && Acting(step).Some? {
      Replaced(s.senders, Acting(step).value, r.senders[Acting(step).value]);
    }
  }

  lemma NotStrandedKept(s: State, step: Step)
    requires Valid(s) && Can(s, step)
    ensures NotStranded(Next(s, step))
  {
    hide MailOk, PendingOk, OutputOk, NotStranded, NotStrandedBefore, Next;
    var r := Next(s, step);
    TablesKept(s, step);
    forall fd | fd in r.table && r.HasOutput(r.table[fd])
      ensures fd in r.writing || Enable(fd) in r.Queue() || Promised(r, r.table[fd])
    {
      var id := r.table[fd];
      OutputIsOldOrPromised(s, step, id);
      assert Registered(r, id);
      RegisteredBefore(s, step, id);
      if !Promised(r, id) {
        if Promised(s, id) {
          PromisesKept(s, step, id);
          NewInQueue(s, step);
        } else {
          WasAsked(s, step, id);
        }
      }
    }
    StrandedByDefinition(r);
  }

  lemma StrandedByDefinition(r: State)
    requires forall fd | fd in r.table && r.HasOutput(r.table[fd]) ::
               fd in r.writing || Enable(fd) in r.Queue() || Promised(r, r.table[fd])
    ensures NotStranded(r)
  {
  }

  lemma NewInQueue(s: State, step: Step)
    requires Valid(s) && Can(s, step)
    ensures NewFunctors(s, step) != [] ==> NewFunctors(s, step)[0] in Next(s, step).Queue()
  {
    hide Next, Valid, State.Queue;
    QueueIndex(s, step);
    var q := Next(s, step).Queue();
    if NewFunctors(s, step) != [] {
      assert q[|s.Queue()|] == NewFunctors(s, step)[0];
    }
  }

  /** A request that was in the queue is there still, unless it has just been run. */
  lemma StillQueued(s: State, step: Step, fd: Fd)
    requires Valid(s) && Can(s, step) && Enable(fd) in s.Queue()
    ensures Enable(fd) in Next(s, step).Queue() || (step.RunOne? && s.batch[0] == Enable(fd))
  {
    hide Next, Valid, State.Queue;
    QueueIndex(s, step);
    var k := if step.RunOne? then 1 else 0;
    var i :| 0 <= i < |s.Queue()| && s.Queue()[i] == Enable(fd);
    if i >= k {
      assert Next(s, step).Queue()[i - k] == Enable(fd);
    }
  }

  lemma WasAsked(s: State, step: Step, id: Id)
    requires Valid(s) && Can(s, step)
    requires s.HasOutput(id) && !Promised(s, id) && Next(s, step).HasOutput(id) && Registered(Next(s, step), id)
    ensures var r := Next(s, step); r.conns[id].fd in r.writing || Enable(r.conns[id].fd) in r.Queue()
  {
    hide MailOk, PendingOk, OutputOk;
    var fd := s.conns[id].fd;
    ConnsKept(s, step, id);
    RegisteredBefore(s, step, id);
    if Registered(s, id) {
      if Enable(fd) in s.Queue() {
        StillQueued(s, step, fd);
      }
    } else {
      HeadOfQueue(s);
      QueueIndex(s, step);
      assert s.Queue()[1..] == Next(s, step).Queue();
    }
  }

  lemma NotStrandedBeforeKept(s: State, step: Step)
    requires Valid(s) && Can(s, step)
    ensures NotStrandedBefore(Next(s, step))
  {
    hide MailOk, TablesOk, PendingOk, OutputOk, NotStranded, Next;
    var r := Next(s, step);
    forall i | 0 <= i < |r.Queue()| && r.Queue()[i].AddConn? && r.HasOutput(r.Queue()[i].id)
      ensures Enable(r.Queue()[i].fd) in r.Queue()[i + 1..] || Promised(r, r.Queue()[i].id)
    {
      if !Promised(r, r.Queue()[i].id) {
        AskedBehind(s, step, i);
      }
    }
  }

  lemma AskedBehind(s: State, step: Step, i: nat)
    requires Valid(s) && Can(s, step)
    requires var r := Next(s, step);
      i < |r.Queue()| && r.Queue()[i].AddConn? && r.HasOutput(r.Queue()[i].id) && !Promised(r, r.Queue()[i].id)
    ensures Enable(Next(s, step).Queue()[i].fd) in Next(s, step).Queue()[i + 1..]
  {
    hide MailOk, TablesOk, OutputOk, NotStranded, Next, State.Queue;
    var r := Next(s, step);
    var q, before := r.Queue(), s.Queue();
    var f, k := q[i], if step.RunOne? then 1 else 0;
    OutputIsOldOrPromised(s, step, f.id);
    QueueIndex(s, step);
    assert i + k < |before| by { NotNew(s, step, i); }
    assert before[i + k] == f;
    if Promised(s, f.id) {
      PromisesKept(s, step, f.id);
      assert NewFunctors(s, step) == [Enable(f.fd)];
      assert q[|q| - 1] == Enable(f.fd);
      assert q[i + 1..][|q| - 1 - (i + 1)] == Enable(f.fd);
    } else {
      var j :| 0 <= j < |before[i + k + 1..]| && before[i + k + 1..][j] == Enable(f.fd);
      assert before[i + k + 1 + j] == Enable(f.fd);
      assert q[i + 1 + j] == Enable(f.fd);
      assert q[i + 1..][j] == Enable(f.fd);
    }
  }

  /** A registration posted just now is for a connection without output. */
  lemma NotNew(s: State, step: Step, i: nat)
    requires Valid(s) && Can(s, step)
    requires var r := Next(s, step); i < |r.Queue()| && r.Queue()[i].AddConn? && r.HasOutput(r.Queue()[i].id)
    ensures i + (if step.RunOne? then 1 else 0) < |s.Queue()|
  {
    hide MailOk, TablesOk, OutputOk, NotStranded, State.Queue;
    QueueIndex(s, step);
  }

  lemma NextKeepsValid(s: State, step: Step)
    requires Valid(s) && Can(s, step)
    ensures Valid(Next(s, step))
  {
    hide Next, MailOk, TablesOk, PendingOk, OutputOk, NotStranded, NotStrandedBefore;
    MailKept(s, step);
    TablesKept(s, step);
    PendingKept(s, step);
    OutputKept(s, step);
    NotStrandedKept(s, step);
    NotStrandedBeforeKept(s, step);
  }

  // ---- Whole runs ----

  function Boot(threads: nat): State {
    State(map[], map[], {}, [], [], [], [], 0, false, false, false, seq(threads, _ => Idle), None)
  }

  ghost predicate Run(s: State, steps: seq<Step>, end: State)
    requires Valid(s)
    decreases |steps|
  {
    if steps == [] then s == end
    else Can(s, steps[0]) && (NextKeepsValid(s, steps[0]); Run(Next(s, steps[0]), steps[1..], end))
  }

  lemma {:induction false} RunKeepsValid(s: State, steps: seq<Step>, end: State)
    requires Valid(s) && Run(s, steps, end)
    ensures Valid(end)
    decreases |steps|
  {
    if steps != [] {
      NextKeepsValid(s, steps[0]);
      RunKeepsValid(Next(s, steps[0]), steps[1..], end);
    }
  }

  lemma BootIsValid(threads: nat)
    ensures Valid(Boot(threads))
  {
  }

  /** The mailbox over all runs: functors are run in the order they were posted, each at most once, and what
      has not run is still queued; queued work always has a wakeup on its way, until the reactor is stopped. */
  lemma MailboxIsSafe(threads: nat, steps: seq<Step>, s: State)
    requires (BootIsValid(threads); Run(Boot(threads), steps, s))
    ensures s.ran <= s.posted && s.posted[|s.ran|..] == s.Queue()
    ensures s.mailbox != [] && !s.exited ==> s.counter > 0 || MustWrite in s.senders || s.draining || s.needPending
  {
    BootIsValid(threads);
    RunKeepsValid(Boot(threads), steps, s);
  }

  /** What a step adds to the data given to `send` for a connection. */
  function SaidBy(step: Step, id: Id): Text {
    match step
    case Append(_, j, data) => if j == id then data else []
    case InlineAppend(j, data) => if j == id then data else []
    case _ => []
  }

  /** Everything given to `send` for the connection in these steps, in order. */
  function Said(steps: seq<Step>, id: Id): Text {
    if steps == [] then [] else SaidBy(steps[0], id) + Said(steps[1..], id)
  }

  /** How many bytes of the connection the kernel takes in a step. */
  function TakenBy(s: State, step: Step, id: Id): nat {
    if step.Flush? && step.fd in s.table && s.table[step.fd] == id then step.count else 0
  }

  ghost function Taken(s: State, steps: seq<Step>, end: State, id: Id): nat
    requires Valid(s) && Run(s, steps, end)
    decreases |steps|
  {
    if steps == [] then 0
    else
      NextKeepsValid(s, steps[0]);
      TakenBy(s, steps[0], id) + Taken(Next(s, steps[0]), steps[1..], end, id)
  }

  function AcceptedFor(s: State, id: Id): Text { if id in s.conns then s.conns[id].accepted else [] }

  function SentFor(s: State, id: Id): Text { if id in s.conns then s.conns[id].sent else [] }

  lemma StepTransfers(s: State, step: Step, id: Id)
    requires Valid(s) && Can(s, step)
    ensures var r := Next(s, step);
      && AcceptedFor(r, id) == AcceptedFor(s, id) + SaidBy(step, id)
      && |SentFor(r, id)| == |SentFor(s, id)| + TakenBy(s, step, id)
  {
    hide Valid, Appended, Flushed, Killed, RunFunctor, Ages, NoNewOutput, Registered, Buf.RoomFor, Buf.Valid;
    hide AcceptedFor, SentFor, Next;
    Units(AcceptedFor(s, id));
    var r := Next(s, step);
    ConnsNext(s, step);
    match step
    case Append(_, j, data) =>
      AppendTransfers(s, j, data, id);
      SameConns(Appended(s, j, data), r, id);
    case InlineAppend(j, data) =>
      AppendTransfers(s, j, data, id);
      SameConns(Appended(s, j, data), r, id);
    case Flush(fd, count) =>
      FlushTransfers(s, fd, count, id);
      SameConns(Flushed(s, fd, count), r, id);
    case Shutdown(j) =>
      KillTransfers(s, j, id);
      SameConns(Killed(s, j), r, id);
    case Close(fd) =>
      KillTransfers(s, s.table[fd], id);
      SameConns(Killed(s, s.table[fd]), r, id);
    case RunOne =>
      var m := s.(batch := s.batch[1..], ran := s.ran + [s.batch[0]]);
      SameConns(s, m, id);
      FunctorTransfers(m, s.batch[0], id);
      SameConns(RunFunctor(m, s.batch[0]), r, id);
    case Accept(t, j, fd) => AcceptTransfers(s, r, j, fd, id);
    case _ => SameConns(s, r, id);
  }

  lemma SameConns(s: State, r: State, id: Id)
    requires s.conns == r.conns
    ensures AcceptedFor(r, id) == AcceptedFor(s, id) && SentFor(r, id) == SentFor(s, id)
  {
  }

  lemma AcceptTransfers(s: State, r: State, j: Id, fd: Fd, id: Id)
    requires j !in s.conns && r.conns == s.conns[j := Conn(true, fd, EMPTY_BUF, [], [])]
    ensures AcceptedFor(r, id) == AcceptedFor(s, id) && SentFor(r, id) == SentFor(s, id)
  {
  }

  lemma EntryKnown(s: State, fd: Fd)
    requires Valid(s) && fd in s.table
    ensures s.table[fd] in s.conns
  {
    hide MailOk, PendingOk, OutputOk, NotStranded, NotStrandedBefore;
  }

  lemma OutputsValid(s: State)
    requires Valid(s)
    ensures forall id | id in s.conns :: s.conns[id].out.Valid()
  {
    hide MailOk, TablesOk, PendingOk, NotStranded, NotStrandedBefore;
  }

  lemma AppendTransfers(s: State, j: Id, data: Text, id: Id)
    requires CanSend(s, j, data) && s.conns[j].out.Valid()
    ensures var r := Appended(s, j, data);
      && AcceptedFor(r, id) == AcceptedFor(s, id) + (if j == id then data else []) && SentFor(r, id) == SentFor(s, id)
  {
    hide Ages;
    Units(AcceptedFor(s, id));
  }

  lemma FlushTransfers(s: State, fd: Fd, count: nat, id: Id)
    requires fd in s.table && s.table[fd] in s.conns && count <= |s.conns[s.table[fd]].out.bytes|
    ensures var r := Flushed(s, fd, count);
      && AcceptedFor(r, id) == AcceptedFor(s, id)
      && |SentFor(r, id)| == |SentFor(s, id)| + if s.table[fd] == id then count else 0
  {
    hide Ages, NoNewOutput;
  }

  lemma KillTransfers(s: State, j: Id, id: Id)
    requires j in s.conns
    ensures AcceptedFor(Killed(s, j), id) == AcceptedFor(s, id) && SentFor(Killed(s, j), id) == SentFor(s, id)
  {
  }

  lemma FunctorTransfers(s: State, f: Functor, id: Id)
    ensures AcceptedFor(RunFunctor(s, f), id) == AcceptedFor(s, id) && SentFor(RunFunctor(s, f), id) == SentFor(s, id)
  {
    hide Killed, Ages, NoNewOutput;
    if f.AddConn? && f.id in s.conns {
      KillTransfers(s, f.id, id);
    }
  }

  lemma {:induction false} RunTransfers(s: State, steps: seq<Step>, end: State, id: Id)
    requires Valid(s) && Run(s, steps, end)
    ensures AcceptedFor(end, id) == AcceptedFor(s, id) + Said(steps, id)
    ensures |SentFor(end, id)| == |SentFor(s, id)| + Taken(s, steps, end, id)
    decreases |steps|
  {
    hide Next, Can, Valid, AcceptedFor, SentFor, SaidBy, TakenBy;
    Units(AcceptedFor(s, id));
    if steps != [] {
      StepTransfers(s, steps[0], id);
      NextKeepsValid(s, steps[0]);
      RunTransfers(Next(s, steps[0]), steps[1..], end, id);
      Assoc(AcceptedFor(s, id), SaidBy(steps[0], id), Said(steps[1..], id));
    }
  }

  /** Output over all runs: of everything given to `send` for a live registered connection, in order, the socket has
      the first bytes, as many as the flushes took; the rest is buffered, and it cannot be forgotten: EPOLLOUT is on,
      or asked for, or about to be asked for. */
  lemma OutputIsDelivered(threads: nat, steps: seq<Step>, s: State, fd: Fd)
    requires (BootIsValid(threads); Run(Boot(threads), steps, s))
    requires fd in s.table && s.Live(s.table[fd])
    ensures var id := s.table[fd]; var c := s.conns[id];
      var said, n := Said(steps, id), (BootIsValid(threads); Taken(Boot(threads), steps, s, id));
      && n <= |said| && c.sent == said[..n] && c.out.bytes == said[n..]
      && (c.out.bytes != [] ==> fd in s.writing || Enable(fd) in s.Queue() || Promised(s, id))
  {
    BootIsValid(threads);
    RunKeepsValid(Boot(threads), steps, s);
    var id := s.table[fd];
    var c := s.conns[id];
    RunTransfers(Boot(threads), steps, s, id);
    Units(Said(steps, id));
    assert c.sent + c.out.bytes == Said(steps, id);
    CutConcat(c.sent, c.out.bytes, |c.sent|);
    assert c.sent[..|c.sent|] == c.sent && c.sent[|c.sent|..] == [];
    Units(c.out.bytes);
  }

  // ---- Requests do not stay under way for ever ----

  /** Steps that finish something already begun; the others are new calls and new events. */
  predicate Finishing(step: Step) {
    || step.Post? || step.WriteEventFd? || step.ReadEventFd? || step.SetPending?
    || step.Swap? || step.RunOne? || step.InlineEnable?
  }

  /** When none of them can be taken and the reactor has not been stopped, everything posted has been run and write
      interest is on for every live registered connection with output. */
  lemma QuietMeansDone(threads: nat, steps: seq<Step>, s: State)
    requires (BootIsValid(threads); Run(Boot(threads), steps, s))
    requires !s.exited && forall step | Finishing(step) :: !Can(s, step)
    ensures s.ran == s.posted
    ensures forall fd | fd in s.table && s.HasOutput(s.table[fd]) :: fd in s.writing
  {
    NothingBegun(s);
    MailboxIsSafe(threads, steps, s);
    Units(s.ran);
    forall fd | fd in s.table && s.HasOutput(s.table[fd]) ensures fd in s.writing {
      OutputIsDelivered(threads, steps, s, fd);
    }
  }

  lemma NothingBegun(s: State)
    requires !s.exited && forall step | Finishing(step) :: !Can(s, step)
    ensures s.batch == [] && s.inlineEnable == None && s.counter == 0 && !s.draining && !s.needPending
    ensures forall x | x in s.senders :: x.Idle?
  {
    assert !Can(s, RunOne) && !Can(s, InlineEnable) && !Can(s, ReadEventFd) && !Can(s, SetPending) && !Can(s, Swap);
    forall x | x in s.senders ensures x.Idle? {
      var t :| 0 <= t < |s.senders| && s.senders[t] == x;
      assert !Can(s, Post(t)) && !Can(s, WriteEventFd(t));
    }
  }

  function Owed(senders: seq<Sender>): nat {
    if senders == [] then 0
    else (if senders[0].MustPost? then 7 else if senders[0].MustWrite? then 4 else 0) + Owed(senders[1..])
  }

  /** How many finishing steps are possible at most before something new happens. */
  function Work(s: State): nat {
    Owed(s.senders) + 3 * s.counter + (if s.draining then 2 else 0) + (if s.needPending then 1 else 0)
    + 2 * |s.mailbox| + |s.batch| + if s.inlineEnable.Some? then 1 else 0
  }

  lemma {:induction false} OwedChanges(senders: seq<Sender>, t: nat, x: Sender)
    requires t < |senders|
    ensures Owed(senders[t := x]) + Owed([senders[t]]) == Owed(senders) + Owed([x])
  {
    if t == 0 {
      assert senders[t := x][1..] == senders[1..];
    } else {
      assert senders[t := x][1..] == senders[1..][t - 1 := x];
      OwedChanges(senders[1..], t - 1, x);
    }
  }

  lemma FinishingDecreases(s: State, step: Step)
    requires Valid(s) && Can(s, step) && Finishing(step)
    ensures Work(Next(s, step)) < Work(s)
  {
    hide Valid, RunFunctor, Appended, Killed, Flushed, Owed, CanSend, Registered;
    match step
    case Post(t) => PostOwes(s, t);
    case WriteEventFd(t) => WriteOwes(s, t);
    case _ =>
  }

  lemma PostOwes(s: State, t: nat)
    requires t < |s.senders| && s.senders[t].MustPost?
    ensures Owed(s.senders[t := MustWrite]) + 3 == Owed(s.senders) && Owed(s.senders[t := Idle]) + 7 == Owed(s.senders)
  {
    OwedChanges(s.senders, t, MustWrite);
    OwedChanges(s.senders, t, Idle);
  }

  lemma WriteOwes(s: State, t: nat)
    requires t < |s.senders| && s.senders[t].MustWrite?
    ensures Owed(s.senders[t := Idle]) + 4 == Owed(s.senders)
  {
    OwedChanges(s.senders, t, Idle);
  }

  /** However the threads are scheduled, requests under way are finished within `Work(s)` steps. */
  lemma {:induction false} FinishingIsBounded(s: State, steps: seq<Step>, end: State)
    requires Valid(s) && Run(s, steps, end) && forall step | step in steps :: Finishing(step)
    ensures |steps| <= Work(s)
    decreases |steps|
  {
    if steps != [] {
      assert steps[0] in steps;
      FinishingDecreases(s, steps[0]);
      NextKeepsValid(s, steps[0]);
      FinishingIsBounded(Next(s, steps[0]), steps[1..], end);
    }
  }
}
