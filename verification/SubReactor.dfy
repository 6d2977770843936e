/** src/net/sub_reactor.cpp: the tables of one reactor, what every operation does to them, and the invariant
    that ties the lazy deadline index to the connection table over whole runs. */
module SubReactors {
  import opened Timeouts

  /** Descriptor tables of a reactor. `registered` remembers when each connection was added. */
  datatype Table = Table(conns: Conns, timeouts: Index, writing: set<int>, registered: map<int, int>) {
    /** One index entry at most for each descriptor, all of them for registered connections, and for every
        connection that is watched for idling an entry no later than its true deadline could be. */
    ghost predicate Valid() { ValidBut({}) }

    /** The same, except that the connections in `expired` have lost their entry. */
    ghost predicate ValidBut(expired: set<int>) {
      && Sorted(timeouts) && OneEach(timeouts)
      && registered.Keys == conns.Keys && writing <= conns.Keys
      && (forall e | e in timeouts :: e.fd in conns)
      && (forall fd | fd in conns && fd !in expired && conns[fd].idleEnabled :: HasEntry(fd))
    }

    /** The latest moment the connection could be due, counted from its registration or last activity. */
    function Deadline(fd: int): int
      requires fd in conns && fd in registered
    {
      (if conns[fd].lastActive < registered[fd] then registered[fd] else conns[fd].lastActive) + conns[fd].idle
    }

    ghost predicate HasEntry(fd: int)
      requires fd in conns && fd in registered
    {
      exists e :: e in timeouts && e.fd == fd && e.at <= Deadline(fd)
    }

    /** The functor of `add_connection`, once `epoll_add` succeeded. A descriptor already present is left alone. */
    function Add(fd: int, c: Conn, now: int): Table {
      if fd in conns then this
      else this.(
        conns := conns[fd := c],
        timeouts := Insert(timeouts, Entry(now + c.idle, fd)),
        registered := registered[fd := now])
    }

    function Close(fd: int): Table {
      if fd !in conns then this
      else Table(conns - {fd}, EraseFd(timeouts, fd), writing - {fd}, registered - {fd})
    }

    function CloseAll(fds: seq<int>): Table
      decreases |fds|
    {
      if fds == [] then this else Close(fds[0]).CloseAll(fds[1..])
    }

    /** `update_active_time`. */
    function Touch(fd: int, now: int): Table {
      if fd in conns then this.(conns := conns[fd := conns[fd].(lastActive := now)]) else this
    }

    function EnableWriting(fd: int): Table { if fd in conns then this.(writing := writing + {fd}) else this }

    function DisableWriting(fd: int): Table { this.(writing := writing - {fd}) }

    /** `check_timeouts`; it does not return when two deadlines coincide with `now`. */
    ghost function Tick(now: int): Table
      requires Sorted(timeouts) && Ties(conns, now, timeouts) <= 1
    {
      var s := Finish(conns, Start(timeouts), now);
      this.(timeouts := s.timeouts).CloseAll(s.expired)
    }
  }

  const EMPTY_TABLE := Table(map[], [], {}, map[])

  lemma EraseFdKeeps(ts: Index, fd: int)
    requires Sorted(ts) && OneEach(ts)
    ensures Sorted(EraseFd(ts, fd)) && OneEach(EraseFd(ts, fd))
  {
    if ts != [] {
      var rest := EraseFd(ts[1..], fd);
      EraseFdKeeps(ts[1..], fd);
      forall i | 0 <= i < |rest| ensures ts[0].at <= rest[i].at && (rest[i].fd != ts[0].fd) {
        assert rest[i] in rest && rest[i] in ts[1..];
      }
    }
  }

  lemma AddKeepsValid(t: Table, fd: int, c: Conn, now: int)
    requires t.Valid()
    ensures t.Add(fd, c, now).Valid()
  {
    if fd !in t.conns {
      var e, r := Entry(now + c.idle, fd), t.Add(fd, c, now);
      InsertSorted(t.timeouts, e);
      InsertElements(t.timeouts, e);
      InsertOneEach(t.timeouts, e);
      forall g | g in r.conns && r.conns[g].idleEnabled ensures r.HasEntry(g) {
        if g == fd {
          assert e in r.timeouts && e.at <= r.Deadline(fd);
        } else {
          assert t.HasEntry(g);
          var f :| f in t.timeouts && f.fd == g && f.at <= t.Deadline(g);
          assert f in r.timeouts && f.at <= r.Deadline(g);
        }
      }
    }
  }

  lemma CloseKeepsValid(t: Table, fd: int, expired: set<int>)
    requires t.ValidBut(expired)
    ensures t.Close(fd).ValidBut(expired - {fd}) && t.Close(fd).conns == t.conns - {fd}
  {
    var r := t.Close(fd);
    if fd in t.conns {
      EraseFdKeeps(t.timeouts, fd);
      forall g | g in r.conns && g !in expired && r.conns[g].idleEnabled ensures r.HasEntry(g) {
        assert t.HasEntry(g);
        var f :| f in t.timeouts && f.fd == g && f.at <= t.Deadline(g);
        assert f in r.timeouts && f.at <= r.Deadline(g);
      }
    } else {
      assert t.conns - {fd} == t.conns;
    }
  }

  lemma {:induction false} CloseAllKeepsValid(t: Table, fds: seq<int>, expired: set<int>)
    requires t.ValidBut(expired)
    ensures var gone := set fd | fd in fds;
      t.CloseAll(fds).ValidBut(expired - gone) && t.CloseAll(fds).conns == t.conns - gone
    decreases |fds|
  {
    var gone := set fd | fd in fds;
    if fds == [] {
      assert expired - gone == expired && t.conns - gone == t.conns;
    } else {
      CloseKeepsValid(t, fds[0], expired);
      CloseAllKeepsValid(t.Close(fds[0]), fds[1..], expired - {fds[0]});
      var later := set fd | fd in fds[1..];
      assert fds == [fds[0]] + fds[1..];
      assert gone == {fds[0]} + later;
      assert expired - {fds[0]} - later == expired - gone;
      assert t.conns - {fds[0]} - later == t.conns - gone;
    }
  }

  /** Activity only moves the true deadline away, so the index may stay as it is. */
  lemma TouchKeepsValid(t: Table, fd: int, now: int)
    requires t.Valid() && (fd in t.conns ==> t.conns[fd].lastActive <= now)
    ensures t.Touch(fd, now).Valid()
  {
    var r := t.Touch(fd, now);
    forall g | g in r.conns && r.conns[g].idleEnabled ensures r.HasEntry(g) {
      assert t.HasEntry(g);
      var f :| f in t.timeouts && f.fd == g && f.at <= t.Deadline(g);
      assert f in r.timeouts && f.at <= r.Deadline(g);
    }
  }

  /** The connections a tick closes: those due in the index that are really idle too long. */
  ghost predicate ClosedByTick(t: Table, now: int, fd: int) {
    fd in t.conns && t.conns[fd].Expired(now) && exists e :: e in t.timeouts && e.fd == fd && e.at <= now
  }

  lemma TickKeepsValid(t: Table, now: int)
    requires t.Valid() && Ties(t.conns, now, t.timeouts) <= 1
    ensures t.Tick(now).Valid()
    ensures t.Tick(now).conns == map fd | fd in t.conns && !ClosedByTick(t, now, fd) :: t.conns[fd]
    ensures forall e | e in t.Tick(now).timeouts :: e.at >= now
  {
    hide Finish, Ties, CameFrom, FoundExpired, ClosedByTick, Table.CloseAll;
    var s := Finish(t.conns, Start(t.timeouts), now);
    var m := t.(timeouts := s.timeouts);
    var gone := set fd | fd in s.expired;
    ScanOutcome(t.conns, t.timeouts, now);
    DueIsClosed(t, now);
    ScanKeepsEntries(t, now);
    CloseAllKeepsValid(m, s.expired, gone);
    assert gone - gone == {};
    CloseAllErases(m, s.expired);
  }

  lemma DueIsClosed(t: Table, now: int)
    ensures forall fd :: FoundExpired(t.conns, now, t.timeouts, fd) <==> ClosedByTick(t, now, fd)
  {
  }

  /** After the scan only the collected connections have lost their entry. */
  lemma ScanKeepsEntries(t: Table, now: int)
    requires t.Valid() && Ties(t.conns, now, t.timeouts) <= 1
    ensures var s := Finish(t.conns, Start(t.timeouts), now);
      t.(timeouts := s.timeouts).ValidBut(set fd | fd in s.expired)
  {
    hide Finish, Ties, CameFrom, FoundExpired;
    var s := Finish(t.conns, Start(t.timeouts), now);
    var m := t.(timeouts := s.timeouts);
    ScanOutcome(t.conns, t.timeouts, now);
    forall f | f in m.timeouts ensures f.fd in m.conns {
      OriginRegistered(t, now, f);
    }
    forall fd | fd in m.conns && fd !in s.expired && m.conns[fd].idleEnabled ensures m.HasEntry(fd) {
      assert t.HasEntry(fd);
      var e :| e in t.timeouts && e.fd == fd && e.at <= t.Deadline(fd);
      var f := if e.at > now then e else Moved(t.conns, fd);
      Successor(t, now, e, f);
      assert f in m.timeouts && f.at <= m.Deadline(fd);
    }
  }

  lemma OriginRegistered(t: Table, now: int, f: Entry)
    requires t.Valid() && CameFrom(t.conns, now, t.timeouts, f)
    ensures f.fd in t.conns
  {
  }

  lemma Successor(t: Table, now: int, e: Entry, f: Entry)
    requires e in t.timeouts && e.fd in t.conns && t.conns[e.fd].idleEnabled
    requires !FoundExpired(t.conns, now, t.timeouts, e.fd)
    requires f == if e.at > now then e else Moved(t.conns, e.fd)
    ensures CameFrom(t.conns, now, t.timeouts, f)
  {
    assert Becomes(t.conns, now, e, f);
  }

  lemma CloseAllErases(t: Table, fds: seq<int>)
    ensures forall e | e in t.CloseAll(fds).timeouts :: e in t.timeouts
    decreases |fds|
  {
    if fds != [] {
      CloseAllErases(t.Close(fds[0]), fds[1..]);
    }
  }

  /** Against a full scan of all connections: a tick closes only connections that are idle too long, and
      closes every one whose deadline, counted from registration or last activity, has passed. */
  lemma TickAgainstFullScan(t: Table, now: int)
    requires t.Valid() && Ties(t.conns, now, t.timeouts) <= 1
    ensures var r := t.Tick(now);
      && (forall fd | fd in t.conns && fd !in r.conns :: t.conns[fd].Expired(now))
      && (forall fd | fd in t.conns && t.conns[fd].idleEnabled && t.Deadline(fd) < now :: fd !in r.conns)
      && (forall fd | fd in r.conns :: fd in t.conns && r.conns[fd] == t.conns[fd])
  {
    TickKeepsValid(t, now);
    forall fd | fd in t.conns && t.conns[fd].idleEnabled && t.Deadline(fd) < now ensures fd !in t.Tick(now).conns {
      assert t.HasEntry(fd);
      assert ClosedByTick(t, now, fd);
    }
  }

  /** A connection that was active since it was registered is closed exactly when a full scan would. */
  lemma TickIsFullScan(t: Table, now: int, fd: int)
    requires t.Valid() && Ties(t.conns, now, t.timeouts) <= 1
    requires fd in t.conns && t.registered[fd] <= t.conns[fd].lastActive
    ensures fd in t.Tick(now).conns <==> !t.conns[fd].Expired(now)
  {
    TickAgainstFullScan(t, now);
  }

  // ---- Whole runs ----

  datatype Event =
    | Added(fd: int, conn: Conn, at: int)
    | Active(fd: int, at: int)
    | Ticked(at: int)
    | Closed(fd: int)
    | WriteOn(fd: int)
    | WriteOff(fd: int)

  function Clock(e: Event, clock: int): int {
    match e
    case Added(_, _, at) => at
    case Active(_, at) => at
    case Ticked(at) => at
    case _ => clock
  }

  ghost predicate Possible(t: Table, e: Event, clock: int) {
    && clock <= Clock(e, clock)
    && (e.Added? ==> e.conn.lastActive <= e.at)
    && (e.Ticked? ==> Sorted(t.timeouts) && Ties(t.conns, e.at, t.timeouts) <= 1)
  }

  ghost function After(t: Table, e: Event, clock: int): Table
    requires Possible(t, e, clock)
  {
    match e
    case Added(fd, c, at) => t.Add(fd, c, at)
    case Active(fd, at) => t.Touch(fd, at)
    case Ticked(at) => t.Tick(at)
    case Closed(fd) => t.Close(fd)
    case WriteOn(fd) => t.EnableWriting(fd)
    case WriteOff(fd) => t.DisableWriting(fd)
  }

  /** `u` can be reached from `t` by these events, on a clock that never runs backwards. */
  ghost predicate Reaches(t: Table, clock: int, events: seq<Event>, u: Table, end: int)
    decreases |events|
  {
    if events == [] then t == u && clock == end
    else
      && Possible(t, events[0], clock)
      && Reaches(After(t, events[0], clock), Clock(events[0], clock), events[1..], u, end)
  }

  ghost predicate ActiveBefore(t: Table, clock: int) {
    forall fd | fd in t.conns :: t.conns[fd].lastActive <= clock
  }

  /** In every reachable state the tables are consistent and the lazy index covers every connection. */
  lemma {:induction false} ReachableIsValid(t: Table, clock: int, events: seq<Event>, u: Table, end: int)
    requires t.Valid() && ActiveBefore(t, clock) && Reaches(t, clock, events, u, end)
    ensures u.Valid() && ActiveBefore(u, end)
    decreases |events|
  {
    if events != [] {
      var e := events[0];
      EventKeepsValid(t, e, clock);
      ReachableIsValid(After(t, e, clock), Clock(e, clock), events[1..], u, end);
    }
  }

  lemma EventKeepsValid(t: Table, e: Event, clock: int)
    requires t.Valid() && ActiveBefore(t, clock) && Possible(t, e, clock)
    ensures After(t, e, clock).Valid() && ActiveBefore(After(t, e, clock), Clock(e, clock))
  {
    match e
    case Added(fd, c, at) => AddKeepsValid(t, fd, c, at);
    case Active(fd, at) => TouchKeepsValid(t, fd, at);
    case Ticked(at) => TickKeepsValid(t, at);
    case Closed(fd) => CloseKeepsValid(t, fd, {});
    case WriteOn(fd) => SameEntries(t, t.EnableWriting(fd));
    case WriteOff(fd) => SameEntries(t, t.DisableWriting(fd));
  }

  lemma SameEntries(t: Table, u: Table)
    requires t.Valid() && u == t.(writing := u.writing) && u.writing <= t.conns.Keys
    ensures u.Valid()
  {
    forall fd | fd in u.conns && u.conns[fd].idleEnabled ensures u.HasEntry(fd) {
      assert t.HasEntry(fd);
      var f :| f in t.timeouts && f.fd == fd && f.at <= t.Deadline(fd);
      assert f in u.timeouts && f.at <= u.Deadline(fd);
    }
  }

  lemma {:induction false} RunsAppend(t: Table, clock: int, first: seq<Event>, u: Table, mid: int, second: seq<Event>,
                                      v: Table, end: int)
    requires Reaches(t, clock, first, u, mid) && Reaches(u, mid, second, v, end)
    ensures Reaches(t, clock, first + second, v, end)
    decreases |first|
  {
    hide Possible, After, Clock;
    if first == [] {
      assert first + second == second;
    } else {
      assert (first + second)[1..] == first[1..] + second;
      RunsAppend(After(t, first[0], clock), Clock(first[0], clock), first[1..], u, mid, second, v, end);
    }
  }

  lemma NoEvents(t: Table, clock: int)
    ensures Reaches(t, clock, [], t, clock)
  {
  }

  /** The state in front of the last event. */
  lemma {:induction false} BeforeLast(t: Table, clock: int, events: seq<Event>, u: Table, end: int)
    returns (m: Table, mid: int)
    requires events != [] && Reaches(t, clock, events, u, end)
    ensures var e := events[|events| - 1];
      && Reaches(t, clock, events[..|events| - 1], m, mid)
      && Possible(m, e, mid) && u == After(m, e, mid) && end == Clock(e, mid)
    decreases |events|
  {
    hide Possible, After, Clock;
    var later := events[1..];
    if later == [] {
      m, mid := t, clock;
    } else {
      m, mid := BeforeLast(After(t, events[0], clock), Clock(events[0], clock), later, u, end);
      var front := events[..|events| - 1];
      assert front[1..] == later[..|later| - 1] && front[0] == events[0];
    }
  }

  lemma {:induction false} OneOutcome(t: Table, clock: int, events: seq<Event>, u: Table, end: int, v: Table, last: int)
    requires Reaches(t, clock, events, u, end) && Reaches(t, clock, events, v, last)
    ensures u == v && end == last
    decreases |events|
  {
    hide Possible, After, Clock;
    if events != [] {
      OneOutcome(After(t, events[0], clock), Clock(events[0], clock), events[1..], u, end, v, last);
    }
  }

  // ---- Activity over whole runs ----

  /** Whether the descriptor is registered after these events. */
  ghost predicate Registered(events: seq<Event>, fd: int) {
    exists u: Table, end: int :: Reaches(EMPTY_TABLE, 0, events, u, end) && fd in u.conns
  }

  /** Event `k` registered the descriptor, and it has been registered ever since. */
  ghost predicate Entered(events: seq<Event>, fd: int, k: nat) {
    && k < |events| && events[k].Added? && events[k].fd == fd && !Registered(events[..k], fd)
    && forall j | k < j <= |events| :: Registered(events[..j], fd)
  }

  /** The moment of the last activity of the descriptor among these events; `before` if there is none. */
  function LastSign(events: seq<Event>, fd: int, before: int): int {
    if events == [] then before
    else
      var e := events[|events| - 1];
      if e.Active? && e.fd == fd then e.at else LastSign(events[..|events| - 1], fd, before)
  }

  ghost predicate NoActivitySince(events: seq<Event>, fd: int, k: nat, moment: int) {
    forall j | k < j < |events| && events[j].Active? && events[j].fd == fd :: events[j].at < moment
  }

  /** What an event leaves of a connection that stays registered. */
  lemma EventOnConn(t: Table, e: Event, clock: int, fd: int)
    requires t.Valid() && Possible(t, e, clock) && fd in After(t, e, clock).conns
    ensures fd in After(t, e, clock).registered
    ensures fd !in t.conns ==> e.Added? && e.fd == fd && After(t, e, clock).conns[fd] == e.conn
                               && After(t, e, clock).registered[fd] == e.at
    ensures fd in t.conns ==>
              && After(t, e, clock).conns[fd] ==
                 (if e.Active? && e.fd == fd then t.conns[fd].(lastActive := e.at) else t.conns[fd])
              && After(t, e, clock).registered[fd] == t.registered[fd]
  {
    hide Finish, Ties, Table.CloseAll, Table.Tick;
    match e
    case Ticked(at) =>
      TickKeepsValid(t, at);
      TickKeepsRegistered(t, at);
    case _ =>
  }

  lemma TickKeepsRegistered(t: Table, now: int)
    requires t.Valid() && Ties(t.conns, now, t.timeouts) <= 1
    ensures var r := t.Tick(now);
      forall fd | fd in r.registered :: fd in t.registered && r.registered[fd] == t.registered[fd]
  {
    hide Finish, Ties, Table.CloseAll;
    var s := Finish(t.conns, Start(t.timeouts), now);
    CloseAllKeepsRegistered(t.(timeouts := s.timeouts), s.expired);
  }

  lemma {:induction false} CloseAllKeepsRegistered(t: Table, fds: seq<int>)
    ensures var r := t.CloseAll(fds);
      forall fd | fd in r.registered :: fd in t.registered && r.registered[fd] == t.registered[fd]
    decreases |fds|
  {
    if fds != [] {
      CloseAllKeepsRegistered(t.Close(fds[0]), fds[1..]);
    }
  }

  /** Over all runs the connection in the table is the one that was registered last, with the moment of its last
      activity since: a fact about the list of events. */
  lemma {:induction false} ActivityCounts(events: seq<Event>, u: Table, end: int, fd: int) returns (k: nat)
    requires Reaches(EMPTY_TABLE, 0, events, u, end) && fd in u.conns
    ensures Entered(events, fd, k) && fd in u.registered && u.registered[fd] == events[k].at
    ensures var c := events[k].conn; u.conns[fd] == c.(lastActive := LastSign(events[k + 1..], fd, c.lastActive))
    ensures NoActivitySince(events, fd, k, u.conns[fd].lastActive + 1)
    decreases |events|
  {
    hide Possible, After, Reaches, Table.Valid, Registered;
    NothingYet(events, u, end);
    var n := |events| - 1;
    var front, e := events[..n], events[n];
    var m, mid := BeforeLast(EMPTY_TABLE, 0, events, u, end);
    ReachableIsValid(EMPTY_TABLE, 0, front, m, mid);
    EventOnConn(m, e, mid, fd);
    assert events[..|events|] == events;
    NowRegistered(events, u, end, fd);
    if fd !in m.conns {
      k := n;
      NotRegistered(front, m, mid, fd);
      assert events[n + 1..] == [];
    } else {
      k := ActivityCounts(front, m, mid, fd);
      assert front[..k] == events[..k];
      assert forall j | k < j <= n :: front[..j] == events[..j];
      var since := events[k + 1..];
      assert since[..|since| - 1] == front[k + 1..] && since[|since| - 1] == e;
      LaterSign(m, mid, e, fd);
      forall j | k < j < |events| && events[j].Active? && events[j].fd == fd
        ensures events[j].at < u.conns[fd].lastActive + 1
      {
        assert j < n ==> front[j] == events[j];
      }
    }
  }

  lemma NothingYet(events: seq<Event>, u: Table, end: int)
    requires Reaches(EMPTY_TABLE, 0, events, u, end) && u.conns != map[]
    ensures events != []
    ensures EMPTY_TABLE.Valid() && ActiveBefore(EMPTY_TABLE, 0)
  {
  }

  lemma NowRegistered(events: seq<Event>, u: Table, end: int, fd: int)
    requires Reaches(EMPTY_TABLE, 0, events, u, end) && fd in u.conns
    ensures Registered(events, fd)
  {
  }

  lemma NotRegistered(events: seq<Event>, u: Table, end: int, fd: int)
    requires Reaches(EMPTY_TABLE, 0, events, u, end) && fd !in u.conns
    ensures !Registered(events, fd)
  {
    hide Reaches;
    forall v: Table, last: int | Reaches(EMPTY_TABLE, 0, events, v, last) ensures v == u {
      OneOutcome(EMPTY_TABLE, 0, events, u, end, v, last);
    }
  }

  lemma LaterSign(m: Table, mid: int, e: Event, fd: int)
    requires ActiveBefore(m, mid) && Possible(m, e, mid) && fd in m.conns
    ensures e.Active? ==> m.conns[fd].lastActive <= e.at
  {
  }

  lemma {:induction false} EnteredOnce(events: seq<Event>, fd: int, k: nat, l: nat)
    requires Entered(events, fd, k) && Entered(events, fd, l)
    ensures k == l
  {
    hide Registered;
  }

  /** The idle timeout over whole runs, in terms of what happened: a tick closes a connection only if it is watched
      and every sign of life since its registration is longer ago than its idle time, and it closes every watched
      connection whose registration and last sign of life are both longer ago than that. */
  lemma EveryTickIsSound(events: seq<Event>, u: Table, end: int, now: int, fd: int, k: nat)
    requires Reaches(EMPTY_TABLE, 0, events, u, end) && end <= now && Ties(u.conns, now, u.timeouts) <= 1
    requires Entered(events, fd, k)
    ensures u.Valid() && fd in u.conns
    ensures var c, left := events[k].conn, fd in u.Tick(now).conns;
      var sign := LastSign(events[k + 1..], fd, c.lastActive);
      && (!left ==> c.idleEnabled && now - sign > c.idle && NoActivitySince(events, fd, k, now - c.idle))
      && (c.idleEnabled && now - sign > c.idle && now - events[k].at > c.idle ==> !left)
  {
    hide Reaches, Registered, Ties, Table.Tick, Table.Valid;
    assert events[..|events|] == events;
    StillThere(events, u, end, fd);
    var l := ActivityCounts(events, u, end, fd);
    EnteredOnce(events, fd, k, l);
    NothingYet(events, u, end);
    ReachableIsValid(EMPTY_TABLE, 0, events, u, end);
    TickAgainstFullScan(u, now);
  }

  lemma StillThere(events: seq<Event>, u: Table, end: int, fd: int)
    requires Reaches(EMPTY_TABLE, 0, events, u, end) && Registered(events, fd)
    ensures fd in u.conns
  {
    hide Reaches;
    var v: Table, last: int :| Reaches(EMPTY_TABLE, 0, events, v, last) && fd in v.conns;
    OneOutcome(EMPTY_TABLE, 0, events, u, end, v, last);
  }

  const SILENT_PAIR: seq<Event> := [Added(3, Conn(0, true, 60), 0), Added(4, Conn(0, true, 60), 0)]

  /** The tick that does not end is reachable: two connections accepted at the same moment, silent for exactly
      their idle time. */
  lemma TwoTiesReachable() returns (t: Table)
    ensures Reaches(EMPTY_TABLE, 0, SILENT_PAIR, t, 0) && t.Valid()
    ensures !Terminates(t.conns, t.timeouts, 60)
  {
    hide Insert, UpperBound, Ties, Terminates, Reaches;
    var c := Conn(0, true, 60);
    var u := EMPTY_TABLE.Add(3, c, 0);
    t := u.Add(4, c, 0);
    PairReaches(u, t);
    AddKeepsValid(EMPTY_TABLE, 3, c, 0);
    AddKeepsValid(u, 4, c, 0);
    TwoSilent(u, t);
    TerminationExact(t.conns, t.timeouts, 60);
  }

  lemma PairReaches(u: Table, t: Table)
    requires u == EMPTY_TABLE.Add(3, Conn(0, true, 60), 0) && t == u.Add(4, Conn(0, true, 60), 0)
    ensures Reaches(EMPTY_TABLE, 0, SILENT_PAIR, t, 0)
  {
    hide Insert, UpperBound, Table.Add;
    assert SILENT_PAIR[1..][1..] == [];
    assert Reaches(t, 0, [], t, 0);
    assert Reaches(u, 0, SILENT_PAIR[1..], t, 0);
  }

  lemma TwoSilent(u: Table, t: Table)
    requires u == EMPTY_TABLE.Add(3, Conn(0, true, 60), 0) && t == u.Add(4, Conn(0, true, 60), 0)
    ensures Ties(t.conns, 60, t.timeouts) == 2
  {
    assert u.timeouts == [Entry(60, 3)] && t.timeouts == [Entry(60, 3), Entry(60, 4)];
    var last := t.timeouts[1..];
    assert last == [Entry(60, 4)] && last[1..] == [];
    assert IsTie(t.conns, 60, Entry(60, 3)) && IsTie(t.conns, 60, Entry(60, 4));
    assert Ties(t.conns, 60, last) == 1;
  }

  // ---- Several reactors, one metric ----

  function TotalSize(tables: seq<Table>): int {
    if tables == [] then 0 else |tables[0].conns| + TotalSize(tables[1..])
  }

  lemma {:induction false} ReplaceTable(tables: seq<Table>, i: nat, t: Table)
    requires i < |tables|
    ensures TotalSize(tables[i := t]) == TotalSize(tables) - |tables[i].conns| + |t.conns|
  {
    var next := tables[i := t];
    if i == 0 {
      assert next[1..] == tables[1..];
    } else {
      assert next[1..] == tables[1..][i - 1 := t];
      ReplaceTable(tables[1..], i - 1, t);
    }
  }

  /** How often `close_connection` counts off: once for each call that finds its descriptor in the table. */
  function CountedOff(t: Table, fds: seq<int>): nat
    decreases |fds|
  {
    if fds == [] then 0 else (if fds[0] in t.conns then 1 else 0) + CountedOff(t.Close(fds[0]), fds[1..])
  }

  lemma {:induction false} CloseAllCounts(t: Table, fds: seq<int>)
    ensures |t.CloseAll(fds).conns| == |t.conns| - CountedOff(t, fds)
    decreases |fds|
  {
    if fds != [] {
      CloseCounts(t, fds[0]);
      CloseAllCounts(t.Close(fds[0]), fds[1..]);
    }
  }

  lemma CloseCounts(t: Table, fd: int)
    ensures |t.Close(fd).conns| == |t.conns| - if fd in t.conns then 1 else 0
  {
    if fd in t.conns {
      SizeWithout(t.conns, fd);
    }
  }

  /** What an event does to the metric all reactors share. */
  ghost function Counted(t: Table, e: Event, clock: int): int
    requires Possible(t, e, clock)
  {
    match e
    case Added(fd, _, _) => if fd in t.conns then 0 else 1
    case Ticked(at) =>
      var s := Finish(t.conns, Start(t.timeouts), at);
      0 - CountedOff(t.(timeouts := s.timeouts), s.expired)
    case Closed(fd) => if fd in t.conns then -1 else 0
    case _ => 0
  }

  lemma EventCounts(t: Table, e: Event, clock: int)
    requires Possible(t, e, clock)
    ensures |After(t, e, clock).conns| == |t.conns| + Counted(t, e, clock)
  {
    hide Finish, Ties, Table.CloseAll, CountedOff;
    match e
    case Ticked(at) =>
      var s := Finish(t.conns, Start(t.timeouts), at);
      CloseAllCounts(t.(timeouts := s.timeouts), s.expired);
    case Closed(fd) => CloseCounts(t, fd);
    case Active(fd, at) => assert t.Touch(fd, at).conns.Keys == t.conns.Keys;
    case _ =>
  }

  /** A step of the whole server: an event at one reactor, or the shutdown of one. */
  datatype Move = At(i: nat, event: Event, clock: int) | Down(i: nat)

  ghost predicate Moves(tables: seq<Table>, metric: int, moves: seq<Move>, after: seq<Table>, end: int)
    decreases |moves|
  {
    if moves == [] then tables == after && metric == end
    else
      && moves[0].i < |tables|
      && var t := tables[moves[0].i];
      match moves[0]
      case At(i, e, clock) =>
        && Possible(t, e, clock)
        && Moves(tables[i := After(t, e, clock)], metric + Counted(t, e, clock), moves[1..], after, end)
      case Down(i) => Moves(tables[i := EMPTY_TABLE], metric - |t.conns|, moves[1..], after, end)
  }

  /** Over all runs of any number of reactors the shared metric is the number of registered connections, so it
      is zero again when every table is empty. */
  lemma {:induction false} MetricIsTotal(tables: seq<Table>, metric: int, moves: seq<Move>, after: seq<Table>, end: int)
    requires metric == TotalSize(tables) && Moves(tables, metric, moves, after, end)
    ensures end == TotalSize(after)
    ensures (forall t | t in after :: t.conns == map[]) ==> end == 0
    decreases |moves|
  {
    hide Possible, Counted, After;
    if moves == [] {
      AllEmpty(after);
    } else {
      var t := tables[moves[0].i];
      match moves[0]
      case At(i, e, clock) =>
        EventCounts(t, e, clock);
        ReplaceTable(tables, i, After(t, e, clock));
        MetricIsTotal(tables[i := After(t, e, clock)], metric + Counted(t, e, clock), moves[1..], after, end);
      case Down(i) =>
        ReplaceTable(tables, i, EMPTY_TABLE);
        MetricIsTotal(tables[i := EMPTY_TABLE], metric - |t.conns|, moves[1..], after, end);
    }
  }

  lemma {:induction false} AllEmpty(tables: seq<Table>)
    ensures (forall t | t in tables :: t.conns == map[]) ==> TotalSize(tables) == 0
  {
    if tables != [] {
      AllEmpty(tables[1..]);
      assert tables[0] in tables && forall t | t in tables[1..] :: t in tables;
    }
  }

  // ---- The object ----

  /** A functor of the mailbox; the flags are what its run finds out about the connection and `epoll_add`. */
  datatype Functor =
    | AddConnection(fd: int, conn: Conn, alive: bool, epollOk: bool)
    | EnableFd(fd: int)
    | DisableFd(fd: int)

  function RunFunctor(t: Table, f: Functor, now: int): Table {
    match f
    case AddConnection(fd, c, alive, epollOk) => if fd >= 0 && alive && epollOk then t.Add(fd, c, now) else t
    case EnableFd(fd) => t.EnableWriting(fd)
    case DisableFd(fd) => if fd in t.conns then t.DisableWriting(fd) else t
  }

  /** Oldest first. */
  function RunFunctors(t: Table, fs: seq<Functor>, now: int): Table {
    if fs == [] then t else RunFunctor(RunFunctors(t, fs[..|fs| - 1], now), fs[|fs| - 1], now)
  }

  lemma EraseOne(ts: Index, i: nat, fd: int)
    requires i < |ts| && ts[i].fd == fd
    ensures EraseFd(Erase(ts, i), fd) == EraseFd(ts, fd)
  {
    if i == 0 {
      assert Erase(ts, 0) == ts[1..];
    } else {
      assert Erase(ts, i)[1..] == Erase(ts[1..], i - 1) && Erase(ts, i)[0] == ts[0];
      EraseOne(ts[1..], i - 1, fd);
    }
  }

  lemma NothingToErase(ts: Index, fd: int)
    requires forall i | 0 <= i < |ts| :: ts[i].fd != fd
    ensures EraseFd(ts, fd) == ts
  {
    if ts != [] {
      NothingToErase(ts[1..], fd);
    }
  }

  lemma SizeWithout(m: Conns, fd: int)
    requires fd in m
    ensures |m - {fd}| == |m| - 1
  {
    assert (m - {fd}).Keys == m.Keys - {fd};
  }

  class Metrics {
    var activeConnections: int

    constructor ()
      ensures activeConnections == 0
    {
      activeConnections := 0;
    }
  }

  class SubReactor {
    var connections: Conns
    var timeouts: Index
    var writing: set<int>
    ghost var registered: map<int, int>
    var pendingFunctors: seq<Functor>
    const metrics: Metrics

    ghost function View(): Table
      reads this
    {
      Table(connections, timeouts, writing, registered)
    }

    /** The share of the metric that other reactors account for. */
    ghost function Others(): int
      reads this, metrics
    {
      metrics.activeConnections - |connections|
    }

    constructor (metrics: Metrics)
      ensures this.metrics == metrics && View() == EMPTY_TABLE && pendingFunctors == []
    {
      this.metrics := metrics;
      connections, timeouts, writing, registered, pendingFunctors := map[], [], {}, map[], [];
    }

    /** The registration functor. */
    method Register(fd: int, c: Conn, now: int)
      modifies this, metrics
      ensures View() == old(View()).Add(fd, c, now) && Others() == old(Others())
      ensures pendingFunctors == old(pendingFunctors)
    {
      if fd in connections {
        return;
      }
      connections := connections[fd := c];
      metrics.activeConnections := metrics.activeConnections + 1;
      timeouts := Insert(timeouts, Entry(now + c.idle, fd));
      registered := registered[fd := now];
    }

    /** Swap the mailbox out and run it, oldest first. */
    method DoPendingFunctors(now: int)
      modifies this, metrics
      ensures View() == RunFunctors(old(View()), old(pendingFunctors), now)
      ensures pendingFunctors == [] && Others() == old(Others())
    {
      var functors := pendingFunctors;
      pendingFunctors := [];
      ghost var start := View();
      for i := 0 to |functors|
        invariant View() == RunFunctors(start, functors[..i], now)
        invariant pendingFunctors == [] && Others() == old(Others())
      {
        assert functors[..i + 1][..i] == functors[..i];
        match functors[i] {
          case AddConnection(fd, c, alive, epollOk) =>
            if fd >= 0 && alive && epollOk {
              Register(fd, c, now);
            }
          case EnableFd(fd) =>
            if fd in connections {
              writing := writing + {fd};
            }
          case DisableFd(fd) =>
            if fd in connections {
              writing := writing - {fd};
            }
        }
      }
      assert functors[..|functors|] == functors;
    }

    /** The iterator loop over the index. */
    method EraseEntries(fd: int)
      modifies this`timeouts
      ensures timeouts == EraseFd(old(timeouts), fd)
    {
      hide EraseFd;
      var i := 0;
      while i < |timeouts|
        invariant i <= |timeouts| && forall k | 0 <= k < i :: timeouts[k].fd != fd
        invariant EraseFd(timeouts, fd) == EraseFd(old(timeouts), fd)
        decreases |timeouts| - i
      {
        if timeouts[i].fd == fd {
          EraseOne(timeouts, i, fd);
          timeouts := Erase(timeouts, i);
        } else {
          i := i + 1;
        }
      }
      NothingToErase(timeouts, fd);
    }

    /** Drop a connection from the tables and take one off the metric; every index entry of it goes. */
    method CloseConnection(fd: int)
      requires fd in connections ==> fd >= 0
      modifies this, metrics
      ensures View() == old(View()).Close(fd) && Others() == old(Others())
      ensures pendingFunctors == old(pendingFunctors)
    {
      if fd < 0 || fd !in connections {
        return;
      }
      hide EraseFd, Erase;
      SizeWithout(connections, fd);
      connections := connections - {fd};
      EraseEntries(fd);
      writing, registered := writing - {fd}, registered - {fd};
      metrics.activeConnections := metrics.activeConnections - 1;
    }

    ghost predicate GoodFds()
      reads this
    {
      forall fd | fd in connections :: fd >= 0
    }

    method CloseEach(fds: seq<int>)
      requires GoodFds()
      modifies this, metrics
      ensures View() == old(View()).CloseAll(fds) && Others() == old(Others())
      ensures GoodFds() && pendingFunctors == old(pendingFunctors)
    {
      ghost var start := View();
      for i := 0 to |fds|
        invariant start.CloseAll(fds) == View().CloseAll(fds[i..])
        invariant GoodFds() && Others() == old(Others()) && pendingFunctors == old(pendingFunctors)
      {
        assert fds[i..][1..] == fds[i + 1..];
        ghost var before := connections;
        CloseConnection(fds[i]);
        assert forall fd | fd in connections :: fd in before;
      }
    }

    /** The first loop of `check_timeouts`. With two due deadlines at `now` it would not end. */
    method CollectExpired(now: int) returns (expired: seq<int>)
      requires Sorted(timeouts) && Ties(connections, now, timeouts) <= 1
      modifies this`timeouts
      ensures var s := Finish(connections, Start(old(timeouts)), now);
        timeouts == s.timeouts && expired == s.expired
    {
      hide Finish, Ties, Measure, Insert, UpperBound;
      expired := [];
      var it := 0;
      ghost var scan := Start(timeouts);
      ghost var end := Finish(connections, scan, now);
      while it < |timeouts| && timeouts[it].at <= now
        invariant scan == Scan(timeouts, it, expired) && Good(scan, now)
        invariant Ties(connections, now, timeouts) <= 1
        invariant Finish(connections, scan, now) == end
        decreases Measure(connections, scan, now)
      {
        FinishStep(connections, scan, now);
        scan := scan.Visit(connections, now);
        var fd := timeouts[it].fd;
        timeouts := Erase(timeouts, it);
        if fd in connections && connections[fd].idleEnabled {
          if now - connections[fd].lastActive > connections[fd].idle {
            expired := expired + [fd];
          } else {
            var next := connections[fd].lastActive + connections[fd].idle;
            it := if UpperBound(timeouts, next) <= it then it + 1 else it;
            timeouts := Insert(timeouts, Entry(next, fd));
          }
        }
      }
      FinishStep(connections, scan, now);
    }

    /** The timer: collect the expired connections, then close them. */
    method CheckTimeouts(now: int)
      requires View().Valid() && Ties(connections, now, timeouts) <= 1 && GoodFds()
      modifies this, metrics
      ensures View() == old(View()).Tick(now) && View().Valid() && Others() == old(Others())
      ensures forall e | e in timeouts :: e.at >= now
    {
      hide Finish, Ties, Table.CloseAll;
      TickKeepsValid(View(), now);
      var expired := CollectExpired(now);
      CloseEach(expired);
    }

    /** The cleanup when the loop of `run` ends, in the order `fds` in which the table lists its keys. */
    method CloseRemaining(fds: seq<int>)
      requires View().Valid() && GoodFds() && connections.Keys == set fd | fd in fds
      modifies this, metrics
      ensures View() == EMPTY_TABLE && Others() == old(Others())
    {
      ghost var none: set<int> := {};
      CloseAllKeepsValid(View(), fds, none);
      CloseEach(fds);
      assert none - (set fd | fd in fds) == none;
      NoConnections(View());
    }

    /** `shutdown` after the thread was joined: whatever is left is counted off and the tables are cleared. */
    method Shutdown()
      modifies this, metrics
      ensures View() == EMPTY_TABLE && Others() == old(Others())
    {
      for left := |connections| downto 0
        invariant metrics.activeConnections - left == old(Others()) && connections == old(connections)
      {
        metrics.activeConnections := metrics.activeConnections - 1;
      }
      connections, timeouts := map[], [];
      writing, registered := {}, map[];
    }
  }

  lemma HeadIn(ts: Index)
    ensures ts != [] ==> ts[0] in ts
  {
  }

  lemma NoConnections(t: Table)
    requires t.Valid() && t.conns.Keys == {}
    ensures t == EMPTY_TABLE
  {
    assert t.conns == map[] && t.registered == map[];
    HeadIn(t.timeouts);
  }
}
