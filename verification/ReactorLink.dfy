/** The two views of a reactor agree: the one with threads, mailbox and output, and the one with deadlines and the
    metric do the same to the set of registered descriptors and to write interest, functor by functor and over
    every run of the threads. */
module ReactorLink {
  import opened Bytes
  import opened ReactorThreads
  import SubReactors
  import Timeouts

  ghost predicate Agree(s: State, t: SubReactors.Table) {
    s.table.Keys == t.conns.Keys && s.writing == t.writing
  }

  /** The functor of the mailbox as the tables see it, when it is run in state `s` for a connection like `c`. */
  function Seen(s: State, f: Functor, c: Timeouts.Conn): SubReactors.Functor {
    match f
    case AddConn(id, fd) => SubReactors.AddConnection(fd, c, s.Live(id), fd !in s.table)
    case Enable(fd) => SubReactors.EnableFd(fd)
  }

  lemma FunctorsAgree(s: State, f: Functor, t: SubReactors.Table, c: Timeouts.Conn, now: int)
    requires Agree(s, t) && f.fd >= 0
    ensures Agree(RunFunctor(s, f), SubReactors.RunFunctor(t, Seen(s, f, c), now))
  {
  }

  /** A whole batch, oldest first. */
  function SeenAll(s: State, fs: seq<Functor>, c: Timeouts.Conn): seq<SubReactors.Functor>
    decreases |fs|
  {
    if fs == [] then [] else [Seen(s, fs[0], c)] + SeenAll(RunFunctor(s, fs[0]), fs[1..], c)
  }

  function RunAll(s: State, fs: seq<Functor>): State
    decreases |fs|
  {
    if fs == [] then s else RunAll(RunFunctor(s, fs[0]), fs[1..])
  }

  lemma {:induction false} BatchesAgree(s: State, fs: seq<Functor>, t: SubReactors.Table, c: Timeouts.Conn, now: int)
    requires Agree(s, t) && forall f | f in fs :: f.fd >= 0
    ensures Agree(RunAll(s, fs), SubReactors.RunFunctors(t, SeenAll(s, fs, c), now))
    decreases |fs|
  {
    if fs != [] {
      hide Agree, RunFunctor, Seen, SubReactors.RunFunctor;
      var g := Seen(s, fs[0], c);
      FunctorsAgree(s, fs[0], t, c, now);
      BatchesAgree(RunFunctor(s, fs[0]), fs[1..], SubReactors.RunFunctor(t, g, now), c, now);
      FirstFunctor(t, g, SeenAll(RunFunctor(s, fs[0]), fs[1..], c), now);
    }
  }

  /** `RunFunctors` peels from the end; this is the same from the front. */
  lemma {:induction false} FirstFunctor(t: SubReactors.Table, g: SubReactors.Functor, gs: seq<SubReactors.Functor>,
                                        now: int)
    ensures SubReactors.RunFunctors(t, [g] + gs, now) ==
            SubReactors.RunFunctors(SubReactors.RunFunctor(t, g, now), gs, now)
    decreases |gs|
  {
    hide SubReactors.RunFunctor;
    var all := [g] + gs;
    if gs == [] {
      assert all == [g] && all[..0] == [];
    } else {
      var n := |gs| - 1;
      assert all[..|all| - 1] == [g] + gs[..n] && all[|all| - 1] == gs[n];
      FirstFunctor(t, g, gs[..n], now);
    }
  }

  /** One undisturbed run of `do_pending_functors` (a swap, then every functor of the batch) as steps of the reactor. */
  lemma {:induction false} BatchSteps(s: State) returns (end: State)
    requires Valid(s)
    ensures Valid(end) && Run(s, seq(|s.batch|, _ => RunOne), end)
    ensures end.batch == [] && end.ran == s.ran + s.batch && end.mailbox == s.mailbox
    ensures end.conns == RunAll(s, s.batch).conns && end.table == RunAll(s, s.batch).table
    ensures end.writing == RunAll(s, s.batch).writing
    decreases |s.batch|
  {
    var steps := seq(|s.batch|, _ => RunOne);
    if s.batch == [] {
      end := s;
    } else {
      hide Valid, RunFunctor;
      NextKeepsValid(s, RunOne);
      var n := Next(s, RunOne);
      end := BatchSteps(n);
      assert steps[1..] == seq(|n.batch|, _ => RunOne);
      Assoc(s.ran, [s.batch[0]], s.batch[1..]);
      assert s.batch == [s.batch[0]] + s.batch[1..];
      OnlyTablesMatter(s, n, s.batch[0]);
      SameTables(n, RunFunctor(s, s.batch[0]), s.batch[1..]);
    }
  }

  lemma OnlyTablesMatter(s: State, n: State, f: Functor)
    requires Valid(s) && s.batch != [] && f == s.batch[0] && n == Next(s, RunOne)
    ensures var r := RunFunctor(s, f); n.conns == r.conns && n.table == r.table && n.writing == r.writing
  {
    hide Valid, Ages, NoNewOutput;
  }

  lemma {:induction false} SameTables(s: State, r: State, fs: seq<Functor>)
    requires s.conns == r.conns && s.table == r.table && s.writing == r.writing
    ensures var x, y := RunAll(s, fs), RunAll(r, fs); x.conns == y.conns && x.table == y.table && x.writing == y.writing
    decreases |fs|
  {
    if fs != [] {
      hide RunFunctor;
      SameStep(s, r, fs[0]);
      SameTables(RunFunctor(s, fs[0]), RunFunctor(r, fs[0]), fs[1..]);
    }
  }

  lemma SameStep(s: State, r: State, f: Functor)
    requires s.conns == r.conns && s.table == r.table && s.writing == r.writing
    ensures var x, y := RunFunctor(s, f), RunFunctor(r, f);
      x.conns == y.conns && x.table == y.table && x.writing == y.writing
  {
    hide Ages, NoNewOutput, RunFunctor;
    Effect(s, f);
    Effect(r, f);
  }

  lemma Effect(s: State, f: Functor)
    ensures var r := RunFunctor(s, f);
      match f
      case Enable(fd) =>
        && r.conns == s.conns && r.table == s.table
        && r.writing == if fd in s.table then s.writing + {fd} else s.writing
      case AddConn(id, fd) =>
        if !(id in s.conns && s.conns[id].alive) then r == s
        else if fd in s.table
        then r.table == s.table && r.writing == s.writing
             && r.conns == s.conns[id := s.conns[id].(alive := false, out := s.conns[id].out.RetrieveAll())]
        else r.conns == s.conns && r.writing == s.writing && r.table == s.table[fd := id]
  {
    hide Ages, NoNewOutput;
  }

  /** So running a batch step by step does to the tables what the tables' own run of the same functors does. */
  lemma PendingAgrees(s: State, t: SubReactors.Table, c: Timeouts.Conn, now: int) returns (end: State)
    requires Valid(s) && Agree(s, t) && forall f | f in s.batch :: f.fd >= 0
    ensures Valid(end) && Run(s, seq(|s.batch|, _ => RunOne), end) && end.batch == []
    ensures Agree(end, SubReactors.RunFunctors(t, SeenAll(s, s.batch, c), now))
  {
    hide Valid, RunFunctor, SubReactors.RunFunctors, Run, SeenAll;
    end := BatchSteps(s);
    BatchesAgree(s, s.batch, t, c, now);
  }

  // ---- Whole runs ----

  /** What a step of the threads is at the tables: running a functor, the end of a flush that emptied the buffer
      (`disable_writing`), `enable_writing` in the reactor thread, `close_connection`; everything else is
      nothing. A registration brings the deadline data `c` and happens at the moment `at`. */
  function Mirrored(s: State, step: Step, c: Timeouts.Conn, at: int): seq<SubReactors.Event>
    requires Can(s, step)
  {
    match step
    case RunOne =>
      (match s.batch[0]
       case AddConn(id, fd) => if s.Live(id) && fd !in s.table then [SubReactors.Added(fd, c, at)] else []
       case Enable(fd) => [SubReactors.WriteOn(fd)])
    case Flush(fd, count) =>
      if count == |s.conns[s.table[fd]].out.bytes| then [SubReactors.WriteOff(fd)] else []
    case InlineEnable =>
      var id := s.inlineEnable.value;
      if s.Live(id) then [SubReactors.WriteOn(s.conns[id].fd)] else []
    case Close(fd) => [SubReactors.Closed(fd)]
    case _ => []
  }

  ghost predicate InTime(steps: seq<Step>, news: seq<Timeouts.Conn>, at: seq<int>, clock: int) {
    && |news| == |at| == |steps|
    && (forall i | 0 <= i < |at| :: clock <= at[i] && news[i].lastActive <= at[i])
    && (forall i, j | 0 <= i < j < |at| :: at[i] <= at[j])
  }

  lemma FlushAgrees(s: State, fd: Fd, count: nat, t: SubReactors.Table)
    requires Agree(s, t) && fd in s.table && s.table[fd] in s.conns && count <= |s.conns[s.table[fd]].out.bytes|
    ensures Agree(Flushed(s, fd, count), if count == |s.conns[s.table[fd]].out.bytes| then t.DisableWriting(fd) else t)
  {
    hide Ages, NoNewOutput;
  }

  lemma CloseAgrees(s: State, fd: Fd, t: SubReactors.Table)
    requires Agree(s, t) && fd in s.table && s.table[fd] in s.conns
    ensures Agree(Killed(s, s.table[fd]).(table := s.table - {fd}, writing := s.writing - {fd}), t.Close(fd))
  {
    hide Ages, NoNewOutput;
    var r := Killed(s, s.table[fd]).(table := s.table - {fd}, writing := s.writing - {fd});
    assert r.table.Keys == s.table.Keys - {fd} && t.Close(fd).conns.Keys == t.conns.Keys - {fd};
  }

  lemma EnableAgrees(s: State, fd: Fd, t: SubReactors.Table)
    requires Agree(s, t)
    ensures Agree(s.(inlineEnable := None, writing := if fd in s.table then s.writing + {fd} else s.writing),
                  t.EnableWriting(fd))
  {
  }

  lemma RunOneAgrees(s: State, f: Functor, t: SubReactors.Table, c: Timeouts.Conn, at: int)
    requires Agree(s, t)
    ensures Agree(RunFunctor(s, f), match f
                  case AddConn(id, fd) => if s.Live(id) && fd !in s.table then t.Add(fd, c, at) else t
                  case Enable(fd) => t.EnableWriting(fd))
  {
    hide Ages, NoNewOutput;
    Effect(s, f);
  }

  ghost predicate SameTablesAs(s: State, r: State) { r.table == s.table && r.writing == s.writing }

  /** The other steps leave registrations and write interest alone. */
  lemma OthersLeaveTables(s: State, step: Step)
    requires Valid(s) && Can(s, step)
    requires !step.RunOne? && !step.Flush? && !step.InlineEnable? && !step.Close?
    ensures SameTablesAs(s, Next(s, step))
  {
    hide Valid, Ages, NoNewOutput, Can;
  }

  lemma AgreeFollows(s: State, r: State, t: SubReactors.Table)
    requires Agree(s, t) && SameTablesAs(s, r)
    ensures Agree(r, t)
  {
  }

  /** Reactor-thread requests are for registered connections. */
  lemma RequestKnown(s: State)
    requires Valid(s) && s.inlineEnable.Some? && s.Live(s.inlineEnable.value)
    ensures s.conns[s.inlineEnable.value].fd in s.table
  {
    hide MailOk, PendingOk, OutputOk, NotStranded, NotStrandedBefore;
  }

  /** The tables after a mirrored step; one event at most. */
  ghost function Mirror(t: SubReactors.Table, es: seq<SubReactors.Event>, clock: int): SubReactors.Table
    requires |es| <= 1 && (es != [] ==> SubReactors.Possible(t, es[0], clock))
  {
    if es == [] then t else SubReactors.After(t, es[0], clock)
  }

  lemma OneEvent(t: SubReactors.Table, es: seq<SubReactors.Event>, clock: int, at: int)
    requires |es| <= 1 && clock <= at
    requires es != [] ==> SubReactors.Possible(t, es[0], clock) && SubReactors.Clock(es[0], clock) <= at
    ensures var next := if es == [] then clock else SubReactors.Clock(es[0], clock);
      SubReactors.Reaches(t, clock, es, Mirror(t, es, clock), next) && next <= at
  {
    if es != [] {
      assert es[1..] == [];
    }
  }

  lemma MirroredIsPossible(s: State, step: Step, t: SubReactors.Table, clock: int, c: Timeouts.Conn, at: int)
    requires Can(s, step) && clock <= at && c.lastActive <= at
    ensures var es := Mirrored(s, step, c, at);
      |es| <= 1 && (es != [] ==> SubReactors.Possible(t, es[0], clock) && SubReactors.Clock(es[0], clock) <= at)
  {
    hide Can, Timeouts.Sorted, Timeouts.Ties;
  }

  lemma MirrorAgrees(s: State, step: Step, t: SubReactors.Table, clock: int, c: Timeouts.Conn, at: int)
    requires Valid(s) && Can(s, step) && Agree(s, t) && clock <= at && c.lastActive <= at
    ensures var es := Mirrored(s, step, c, at);
      && |es| <= 1 && (es != [] ==> SubReactors.Possible(t, es[0], clock))
      && Agree(Next(s, step), Mirror(t, es, clock))
  {
    hide Valid, Agree, Flushed, Killed, RunFunctor, Ages, NoNewOutput, SubReactors.Possible;
    MirroredIsPossible(s, step, t, clock, c, at);
    match step
    case RunOne =>
      var m := s.(batch := s.batch[1..], ran := s.ran + [s.batch[0]]);
      AgreeFollows(s, m, t);
      RunOneAgrees(m, s.batch[0], t, c, at);
    case Flush(fd, count) =>
      EntryKnown(s, fd);
      FlushAgrees(s, fd, count, t);
    case InlineEnable =>
      if s.Live(s.inlineEnable.value) {
        RequestKnown(s);
        EnableAgrees(s, s.conns[s.inlineEnable.value].fd, t);
      } else {
        AgreeFollows(s, Next(s, step), t);
      }
    case Close(fd) =>
      EntryKnown(s, fd);
      CloseAgrees(s, fd, t);
    case _ =>
      OthersLeaveTables(s, step);
      AgreeFollows(s, Next(s, step), t);
  }

  lemma StepAgrees(s: State, step: Step, t: SubReactors.Table, clock: int, c: Timeouts.Conn, at: int)
    returns (u: SubReactors.Table, next: int)
    requires Valid(s) && Can(s, step) && Agree(s, t) && clock <= at && c.lastActive <= at
    ensures SubReactors.Reaches(t, clock, Mirrored(s, step, c, at), u, next) && next <= at
    ensures Agree(Next(s, step), u)
  {
    hide Valid, Can, Agree, Next, Mirrored, SubReactors.Possible, SubReactors.After, SubReactors.Clock;
    var es := Mirrored(s, step, c, at);
    MirroredIsPossible(s, step, t, clock, c, at);
    MirrorAgrees(s, step, t, clock, c, at);
    OneEvent(t, es, clock, at);
    u, next := Mirror(t, es, clock), if es == [] then clock else SubReactors.Clock(es[0], clock);
  }

  /** Every interleaving of the threads is mirrored by a run of the tables that registers the same descriptors
      and asks for the same write interest, whenever it happens and whatever the deadlines are. */
  lemma {:induction false} RunsAgree(s: State, steps: seq<Step>, end: State, t: SubReactors.Table, clock: int,
                                     news: seq<Timeouts.Conn>, at: seq<int>)
    returns (events: seq<SubReactors.Event>, u: SubReactors.Table, last: int)
    requires Valid(s) && Run(s, steps, end) && Agree(s, t) && InTime(steps, news, at, clock)
    ensures SubReactors.Reaches(t, clock, events, u, last) && Agree(end, u)
    decreases |steps|
  {
    hide Valid, Can, Agree, Mirrored, SubReactors.Reaches;
    if steps == [] {
      events, u, last := [], t, clock;
      SubReactors.NoEvents(t, clock);
    } else {
      NextKeepsValid(s, steps[0]);
      var m, mid := StepAgrees(s, steps[0], t, clock, news[0], at[0]);
      var later;
      later, u, last := RunsAgree(Next(s, steps[0]), steps[1..], end, m, mid, news[1..], at[1..]);
      events := Mirrored(s, steps[0], news[0], at[0]) + later;
      SubReactors.RunsAppend(t, clock, Mirrored(s, steps[0], news[0], at[0]), m, mid, later, u, last);
    }
  }

  /** So in every state the threads can reach from the start, the descriptors registered there and the write
      interest there are those of a table state with a consistent index that covers every watched connection. */
  lemma ThreadsKeepTables(threads: nat, steps: seq<Step>, s: State, news: seq<Timeouts.Conn>, at: seq<int>)
    returns (events: seq<SubReactors.Event>, u: SubReactors.Table, last: int)
    requires (BootIsValid(threads); Run(Boot(threads), steps, s)) && InTime(steps, news, at, 0)
    ensures SubReactors.Reaches(SubReactors.EMPTY_TABLE, 0, events, u, last)
    ensures Agree(s, u) && u.Valid()
  {
    hide Run, SubReactors.Reaches, InTime;
    BootIsValid(threads);
    events, u, last := RunsAgree(Boot(threads), steps, s, SubReactors.EMPTY_TABLE, 0, news, at);
    SubReactors.ReachableIsValid(SubReactors.EMPTY_TABLE, 0, events, u, last);
  }
}
