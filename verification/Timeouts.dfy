/** The idle-timeout index of `SubReactor`: a multimap from deadline to descriptor that is maintained lazily,
    and the loop of `check_timeouts` that erases and re-inserts entries while it iterates. */
module Timeouts {
  /** A connection as the reactor's timer sees it. Times and periods are clock ticks. */
  datatype Conn = Conn(lastActive: int, idleEnabled: bool, idle: nat) {
    predicate Expired(now: int) { idleEnabled && now - lastActive > idle }
  }

  datatype Entry = Entry(at: int, fd: int)

  type Index = seq<Entry>
  type Conns = map<int, Conn>

  ghost predicate Sorted(ts: Index) {
    forall i, j | 0 <= i < j < |ts| :: ts[i].at <= ts[j].at
  }

  ghost predicate OneEach(ts: Index) {
    forall i, j | 0 <= i < j < |ts| :: ts[i].fd != ts[j].fd
  }

  /** Where a multimap inserts: behind every entry that is not later. */
  function UpperBound(ts: Index, at: int): (u: nat)
    ensures u <= |ts|
    ensures forall i | 0 <= i < u :: ts[i].at <= at
    ensures u < |ts| ==> ts[u].at > at
  {
    if ts == [] || ts[0].at > at then 0 else 1 + UpperBound(ts[1..], at)
  }

  function Insert(ts: Index, e: Entry): Index {
    var u := UpperBound(ts, e.at);
    ts[..u] + [e] + ts[u..]
  }

  function Erase(ts: Index, i: nat): Index
    requires i < |ts|
  {
    ts[..i] + ts[i + 1..]
  }

  /** The scan in `close_connection`: every entry of that descriptor goes. */
  function EraseFd(ts: Index, fd: int): (r: Index)
    ensures forall e :: e in r <==> e in ts && e.fd != fd
  {
    if ts == [] then []
    else (if ts[0].fd == fd then [] else [ts[0]]) + EraseFd(ts[1..], fd)
  }

  /** The variables of the first loop: the index, the position of the iterator, the descriptors collected. */
  datatype Scan = Scan(timeouts: Index, it: nat, expired: seq<int>) {
    predicate Running(now: int) { it < |timeouts| && timeouts[it].at <= now }

    /** One iteration. A re-inserted entry that lands at or before the iterator pushes it on. */
    function Visit(conns: Conns, now: int): Scan
      requires Running(now)
    {
      var fd := timeouts[it].fd;
      var ts := Erase(timeouts, it);
      if fd in conns && conns[fd].idleEnabled then
        if now - conns[fd].lastActive > conns[fd].idle then Scan(ts, it, expired + [fd])
        else
          var e := Entry(conns[fd].lastActive + conns[fd].idle, fd);
          Scan(Insert(ts, e), if UpperBound(ts, e.at) <= it then it + 1 else it, expired)
      else Scan(ts, it, expired)
    }
  }

  function Start(ts: Index): Scan { Scan(ts, 0, []) }

  /** A due entry whose connection's deadline is this very instant: it is re-inserted with key `now`. */
  predicate IsTie(conns: Conns, now: int, e: Entry) {
    && e.at <= now && e.fd in conns && conns[e.fd].idleEnabled
    && conns[e.fd].lastActive + conns[e.fd].idle == now
  }

  function Ties(conns: Conns, now: int, ts: Index): nat {
    if ts == [] then 0 else (if IsTie(conns, now, ts[0]) then 1 else 0) + Ties(conns, now, ts[1..])
  }

  /** Due entries that are not ties. */
  function Others(conns: Conns, now: int, ts: Index): nat {
    if ts == [] then 0
    else (if ts[0].at <= now && !IsTie(conns, now, ts[0]) then 1 else 0) + Others(conns, now, ts[1..])
  }

  lemma CountsAppend(conns: Conns, now: int, xs: Index, ys: Index)
    ensures Ties(conns, now, xs + ys) == Ties(conns, now, xs) + Ties(conns, now, ys)
    ensures Others(conns, now, xs + ys) == Others(conns, now, xs) + Others(conns, now, ys)
  {
    if xs == [] {
      assert xs + ys == ys;
    } else {
      assert (xs + ys)[1..] == xs[1..] + ys;
      CountsAppend(conns, now, xs[1..], ys);
    }
  }

  lemma CountsInsert(conns: Conns, now: int, ts: Index, e: Entry)
    ensures Ties(conns, now, Insert(ts, e)) == Ties(conns, now, ts) + Ties(conns, now, [e])
    ensures Others(conns, now, Insert(ts, e)) == Others(conns, now, ts) + Others(conns, now, [e])
  {
    var u := UpperBound(ts, e.at);
    assert ts == ts[..u] + ts[u..];
    CountsAppend(conns, now, ts[..u], ts[u..]);
    CountsAppend(conns, now, ts[..u] + [e], ts[u..]);
    CountsAppend(conns, now, ts[..u], [e]);
  }

  lemma InsertSorted(ts: Index, e: Entry)
    requires Sorted(ts)
    ensures Sorted(Insert(ts, e))
  {
    hide UpperBound;
    var u, r := UpperBound(ts, e.at), Insert(ts, e);
    forall i, j | 0 <= i < j < |r| ensures r[i].at <= r[j].at {
      assert r[i] == if i < u then ts[i] else if i == u then e else ts[i - 1];
      assert r[j] == if j < u then ts[j] else if j == u then e else ts[j - 1];
      assert u < |ts| ==> e.at < ts[u].at;
    }
  }

  lemma NothingDue(conns: Conns, now: int, ts: Index)
    requires Sorted(ts) && (ts == [] || ts[0].at > now)
    ensures Ties(conns, now, ts) == 0 && Others(conns, now, ts) == 0
  {
    if ts != [] {
      assert ts[1..] == [] || ts[1..][0].at >= ts[0].at;
      NothingDue(conns, now, ts[1..]);
    }
  }

  /** While the loop runs the iterator is at the front. */
  ghost predicate Good(s: Scan, now: int) {
    Sorted(s.timeouts) && s.it <= |s.timeouts| && (s.Running(now) ==> s.it == 0)
  }

  ghost function Measure(conns: Conns, s: Scan, now: int): nat {
    if !s.Running(now) then 0
    else 2 * Others(conns, now, s.timeouts) + (if IsTie(conns, now, s.timeouts[s.it]) then 1 else 0) + 1
  }

  /** A due entry of this connection is put back rather than dropped. */
  predicate Stays(conns: Conns, now: int, fd: int) {
    fd in conns && conns[fd].idleEnabled && !conns[fd].Expired(now)
  }

  function Moved(conns: Conns, fd: int): Entry
    requires fd in conns
  {
    Entry(conns[fd].lastActive + conns[fd].idle, fd)
  }

  /** What an iteration does when the iterator is at the front. */
  lemma VisitShape(conns: Conns, s: Scan, now: int)
    requires Good(s, now) && s.Running(now)
    ensures var r, fd, ts := s.Visit(conns, now), s.timeouts[0].fd, s.timeouts[1..];
      && s.it == 0 && Sorted(ts) && s.timeouts == [s.timeouts[0]] + ts && s.timeouts[0].at <= now
      && (Stays(conns, now, fd) ==>
          var f := Moved(conns, fd);
          f.at >= now && r.timeouts == Insert(ts, f) && r.it == (if UpperBound(ts, f.at) == 0 then 1 else 0))
      && (!Stays(conns, now, fd) ==> r.timeouts == ts && r.it == 0)
      && r.expired == s.expired + if fd in conns && conns[fd].Expired(now) then [fd] else []
  {
    hide Insert, UpperBound;
    assert Erase(s.timeouts, 0) == s.timeouts[1..];
    assert s.expired + [] == s.expired;
  }

  lemma InsertFront(ts: Index, f: Entry, now: int)
    requires Sorted(ts) && f.at >= now
    ensures Sorted(Insert(ts, f)) && |Insert(ts, f)| == |ts| + 1
    ensures ts != [] && ts[0].at <= now ==> UpperBound(ts, f.at) > 0 && Insert(ts, f)[0] == ts[0]
    ensures UpperBound(ts, f.at) == 0 ==> Insert(ts, f) == [f] + ts
    ensures UpperBound(ts, f.at) > 0 ==> Insert(ts, f)[0] == ts[0]
  {
    InsertSorted(ts, f);
  }

  lemma VisitKeepsGood(conns: Conns, s: Scan, now: int)
    requires Good(s, now) && s.Running(now)
    ensures var r := s.Visit(conns, now);
      && Good(r, now)
      && (s.timeouts[1..] != [] && s.timeouts[1].at <= now ==> r.Running(now) && r.timeouts[0] == s.timeouts[1])
      && (!(s.timeouts[1..] != [] && s.timeouts[1].at <= now) ==> !r.Running(now))
  {
    hide Scan.Visit, Insert, UpperBound;
    var fd, ts := s.timeouts[0].fd, s.timeouts[1..];
    VisitShape(conns, s, now);
    if Stays(conns, now, fd) {
      InsertFront(ts, Moved(conns, fd), now);
    }
  }

  lemma VisitCounts(conns: Conns, s: Scan, now: int)
    requires Good(s, now) && s.Running(now)
    ensures var r, tie := s.Visit(conns, now), IsTie(conns, now, s.timeouts[0]);
      && Ties(conns, now, r.timeouts) == Ties(conns, now, s.timeouts)
      && Ties(conns, now, s.timeouts) == Ties(conns, now, s.timeouts[1..]) + (if tie then 1 else 0)
      && Others(conns, now, s.timeouts) == Others(conns, now, r.timeouts) + (if tie then 0 else 1)
  {
    hide Scan.Visit, Insert, UpperBound;
    var fd, ts := s.timeouts[0].fd, s.timeouts[1..];
    VisitShape(conns, s, now);
    if Stays(conns, now, fd) {
      var f := Moved(conns, fd);
      CountsInsert(conns, now, ts, f);
      assert [f][1..] == [];
    }
  }

  /** One iteration keeps the index sorted and the iterator at the front, the number of ties is kept, two
      ties keep the loop going, and with at most one the measure goes down. */
  lemma VisitFacts(conns: Conns, s: Scan, now: int)
    requires Good(s, now) && s.Running(now)
    ensures var r := s.Visit(conns, now);
      && Good(r, now)
      && Ties(conns, now, r.timeouts) == Ties(conns, now, s.timeouts)
      && (Ties(conns, now, s.timeouts) >= 2 ==> r.Running(now))
      && (Ties(conns, now, s.timeouts) <= 1 ==> Measure(conns, r, now) < Measure(conns, s, now))
  {
    hide Scan.Visit;
    var ts := s.timeouts[1..];
    VisitKeepsGood(conns, s, now);
    VisitCounts(conns, s, now);
    if !s.Visit(conns, now).Running(now) {
      NothingDue(conns, now, ts);
    }
  }

  /** The loop run to its end, which it has when at most one tie is due. */
  ghost function Finish(conns: Conns, s: Scan, now: int): (r: Scan)
    requires Good(s, now) && (s.Running(now) ==> Ties(conns, now, s.timeouts) <= 1)
    ensures Good(r, now) && !r.Running(now)
    decreases Measure(conns, s, now)
  {
    if s.Running(now) then VisitFacts(conns, s, now); Finish(conns, s.Visit(conns, now), now) else s
  }

  lemma FinishStep(conns: Conns, s: Scan, now: int)
    requires Good(s, now) && (s.Running(now) ==> Ties(conns, now, s.timeouts) <= 1)
    ensures !s.Running(now) ==> Finish(conns, s, now) == s
    ensures s.Running(now) ==>
              var r := s.Visit(conns, now);
              && Good(r, now) && Ties(conns, now, r.timeouts) <= 1
              && Measure(conns, r, now) < Measure(conns, s, now)
              && Finish(conns, s, now) == Finish(conns, r, now)
  {
    if s.Running(now) {
      VisitFacts(conns, s, now);
    }
  }

  /** `n` iterations, or fewer if the loop ends before. */
  ghost function Iterate(conns: Conns, s: Scan, now: int, n: nat): Scan
    decreases n
  {
    if n == 0 || !s.Running(now) then s else Iterate(conns, s.Visit(conns, now), now, n - 1)
  }

  ghost predicate Terminates(conns: Conns, ts: Index, now: int) {
    exists n: nat :: !Iterate(conns, Start(ts), now, n).Running(now)
  }

  lemma {:induction false} TwoTiesRunOn(conns: Conns, s: Scan, now: int, n: nat)
    requires Good(s, now) && s.Running(now) && Ties(conns, now, s.timeouts) >= 2
    ensures Iterate(conns, s, now, n).Running(now)
    decreases n
  {
    if n > 0 {
      VisitFacts(conns, s, now);
      TwoTiesRunOn(conns, s.Visit(conns, now), now, n - 1);
    }
  }

  lemma {:induction false} OneTieEnds(conns: Conns, s: Scan, now: int)
    requires Good(s, now) && (s.Running(now) ==> Ties(conns, now, s.timeouts) <= 1)
    ensures !Iterate(conns, s, now, Measure(conns, s, now)).Running(now)
    decreases Measure(conns, s, now)
  {
    if s.Running(now) {
      VisitFacts(conns, s, now);
      var r := s.Visit(conns, now);
      OneTieEnds(conns, r, now);
      IterateLonger(conns, r, now, Measure(conns, r, now), Measure(conns, s, now) - 1);
    }
  }

  lemma IterateLonger(conns: Conns, s: Scan, now: int, m: nat, n: nat)
    requires m <= n && !Iterate(conns, s, now, m).Running(now)
    ensures Iterate(conns, s, now, n) == Iterate(conns, s, now, m)
    decreases n
  {
    if m > 0 && s.Running(now) {
      IterateLonger(conns, s.Visit(conns, now), now, m - 1, n - 1);
    }
  }

  /** `check_timeouts` comes to an end exactly when no two due entries have their deadline at this instant. */
  lemma TerminationExact(conns: Conns, ts: Index, now: int)
    requires Sorted(ts)
    ensures Terminates(conns, ts, now) <==> Ties(conns, now, ts) <= 1
  {
    var s := Start(ts);
    if Ties(conns, now, ts) <= 1 {
      OneTieEnds(conns, s, now);
    } else {
      if !s.Running(now) {
        NothingDue(conns, now, ts);
      }
      forall n: nat ensures Iterate(conns, s, now, n).Running(now) {
        TwoTiesRunOn(conns, s, now, n);
      }
    }
  }

  /** What becomes of an entry in the scan: it stays if not due; a due one moves to its connection's current
      deadline unless that has passed or the connection is not watched any more. */
  ghost predicate Becomes(conns: Conns, now: int, e: Entry, f: Entry) {
    if e.at > now then f == e
    else Stays(conns, now, e.fd) && f == Moved(conns, e.fd)
  }

  ghost predicate CameFrom(conns: Conns, now: int, ts: Index, f: Entry) {
    exists e :: e in ts && Becomes(conns, now, e, f)
  }

  ghost predicate FoundExpired(conns: Conns, now: int, ts: Index, fd: int) {
    exists e :: e in ts && e.fd == fd && e.at <= now && fd in conns && conns[fd].Expired(now)
  }

  lemma InsertElements(ts: Index, e: Entry)
    ensures forall f :: f in Insert(ts, e) <==> f in ts || f == e
  {
    var u := UpperBound(ts, e.at);
    assert ts == ts[..u] + ts[u..];
  }

  lemma InsertOneEach(ts: Index, e: Entry)
    requires OneEach(ts) && forall f | f in ts :: f.fd != e.fd
    ensures OneEach(Insert(ts, e))
  {
    var u, r := UpperBound(ts, e.at), Insert(ts, e);
    forall i, j | 0 <= i < j < |r| ensures r[i].fd != r[j].fd {
      assert r[i] == if i < u then ts[i] else if i == u then e else ts[i - 1];
      assert r[j] == if j < u then ts[j] else if j == u then e else ts[j - 1];
    }
  }

  ghost predicate SameOutcome(conns: Conns, now: int, s: Scan, r: Scan) {
    && (forall f :: CameFrom(conns, now, r.timeouts, f) <==> CameFrom(conns, now, s.timeouts, f))
    && SameExpired(conns, now, s, r)
  }

  ghost predicate SameExpired(conns: Conns, now: int, s: Scan, r: Scan) {
    forall fd :: (fd in r.expired || FoundExpired(conns, now, r.timeouts, fd))
            <==> (fd in s.expired || FoundExpired(conns, now, s.timeouts, fd))
  }

  lemma VisitOutcome(conns: Conns, s: Scan, now: int)
    requires Good(s, now) && s.Running(now) && OneEach(s.timeouts)
    ensures var r := s.Visit(conns, now); OneEach(r.timeouts) && SameOutcome(conns, now, s, r)
  {
    hide Scan.Visit, Insert, UpperBound;
    var e, ts := s.timeouts[0], s.timeouts[1..];
    VisitShape(conns, s, now);
    var r := s.Visit(conns, now);
    forall f | f in ts ensures f.fd != e.fd {
      var i :| 0 <= i < |ts| && ts[i] == f;
      assert s.timeouts[i + 1] == f;
    }
    if Stays(conns, now, e.fd) {
      var f := Moved(conns, e.fd);
      InsertElements(ts, f);
      InsertOneEach(ts, f);
      SameCameFrom(conns, now, s.timeouts, r.timeouts, e, f, ts);
    } else {
      forall f ensures CameFrom(conns, now, ts, f) <==> CameFrom(conns, now, s.timeouts, f) {
        assert !(e.at > now) && !Becomes(conns, now, e, f);
      }
    }
    VisitExpired(conns, s, now);
  }

  lemma SameCameFrom(conns: Conns, now: int, before: Index, after: Index, e: Entry, f: Entry, ts: Index)
    requires e.at <= now && Stays(conns, now, e.fd) && f == Moved(conns, e.fd)
    requires forall g :: g in before <==> g in ts || g == e
    requires forall g :: g in after <==> g in ts || g == f
    ensures forall g :: CameFrom(conns, now, after, g) <==> CameFrom(conns, now, before, g)
  {
    assert Becomes(conns, now, e, f) && Becomes(conns, now, f, f) && e in before && f in after;
    forall g ensures CameFrom(conns, now, after, g) <==> CameFrom(conns, now, before, g) {
      if CameFrom(conns, now, after, g) {
        var x :| x in after && Becomes(conns, now, x, g);
        assert x == f ==> g == f;
        assert x in ts ==> x in before;
      }
      if CameFrom(conns, now, before, g) {
        var x :| x in before && Becomes(conns, now, x, g);
        assert x == e ==> g == f;
        assert x in ts ==> x in after;
      }
    }
  }

  lemma VisitExpired(conns: Conns, s: Scan, now: int)
    requires Good(s, now) && s.Running(now)
    ensures SameExpired(conns, now, s, s.Visit(conns, now))
  {
    hide Scan.Visit, Insert, UpperBound;
    var e, ts := s.timeouts[0], s.timeouts[1..];
    VisitShape(conns, s, now);
    var r := s.Visit(conns, now);
    if Stays(conns, now, e.fd) {
      InsertElements(ts, Moved(conns, e.fd));
    }
    var collected := if e.fd in conns && conns[e.fd].Expired(now) then [e.fd] else [];
    forall fd
      ensures FoundExpired(conns, now, s.timeouts, fd) <==> FoundExpired(conns, now, r.timeouts, fd) || fd in collected
    {
    }
    forall fd ensures fd in r.expired <==> fd in s.expired || fd in collected {
      assert r.expired == s.expired + collected;
    }
  }

  /** The outcome of the whole scan: the entries that are left, one for each descriptor and none before
      `now`, are those that became of the old ones; collected are the expired connections that were due. */
  lemma {:induction false} FinishOutcome(conns: Conns, s: Scan, now: int)
    requires Good(s, now) && (s.Running(now) ==> Ties(conns, now, s.timeouts) <= 1) && OneEach(s.timeouts)
    requires !s.Running(now) ==> Settled(conns, s, now)
    ensures var r := Finish(conns, s, now);
      OneEach(r.timeouts) && SameOutcome(conns, now, s, r) && Settled(conns, r, now)
    decreases Measure(conns, s, now)
  {
    hide Scan.Visit, CameFrom, FoundExpired, Ties, Measure;
    if s.Running(now) {
      VisitFacts(conns, s, now);
      VisitOutcome(conns, s, now);
      VisitSettles(conns, s, now);
      FinishOutcome(conns, s.Visit(conns, now), now);
    }
  }

  /** Nothing is left to do: every entry is later than `now`, or is a tie that was put back at `now`. */
  ghost predicate Settled(conns: Conns, s: Scan, now: int) {
    forall f | f in s.timeouts :: f.at > now || (f.at == now && IsTie(conns, now, f))
  }

  lemma VisitSettles(conns: Conns, s: Scan, now: int)
    requires Good(s, now) && s.Running(now)
    ensures var r := s.Visit(conns, now); !r.Running(now) ==> Settled(conns, r, now)
  {
    hide Scan.Visit, Insert, UpperBound;
    var e, ts := s.timeouts[0], s.timeouts[1..];
    VisitShape(conns, s, now);
    VisitKeepsGood(conns, s, now);
    if !s.Visit(conns, now).Running(now) {
      assert forall i | 0 <= i < |ts| :: ts[0].at <= ts[i].at;
      if Stays(conns, now, e.fd) {
        InsertElements(ts, Moved(conns, e.fd));
      }
    }
  }

  lemma SettledIsFixed(conns: Conns, r: Scan, now: int)
    requires Settled(conns, r, now)
    ensures forall f :: f in r.timeouts <==> CameFrom(conns, now, r.timeouts, f)
    ensures forall fd :: !FoundExpired(conns, now, r.timeouts, fd)
  {
    forall f ensures f in r.timeouts <==> CameFrom(conns, now, r.timeouts, f) {
      if f in r.timeouts {
        assert Becomes(conns, now, f, f);
      }
    }
  }

  /** `check_timeouts` as seen from outside, on an index with one entry for each descriptor. */
  lemma ScanOutcome(conns: Conns, ts: Index, now: int)
    requires Sorted(ts) && OneEach(ts) && Ties(conns, now, ts) <= 1
    ensures var r := Finish(conns, Start(ts), now);
      && Sorted(r.timeouts) && OneEach(r.timeouts)
      && (forall f | f in r.timeouts :: f.at >= now)
      && (forall f :: f in r.timeouts <==> CameFrom(conns, now, ts, f))
      && (forall fd :: fd in r.expired <==> FoundExpired(conns, now, ts, fd))
  {
    hide Finish, Ties, Scan.Visit;
    var s := Start(ts);
    if !s.Running(now) {
      assert forall i | 0 <= i < |ts| :: ts[0].at <= ts[i].at;
    }
    FinishOutcome(conns, s, now);
    var r := Finish(conns, s, now);
    SettledIsFixed(conns, r, now);
  }
}
