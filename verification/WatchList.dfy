/** The two structures the server must keep in step, as values: the peers by socket, with whether each connection is
    still open, and the descriptors given to poll. */
module WatchList {

  const MAX_CONNECTIONS := 1000

  datatype Table = Table(peers: map<int, bool>, fds: seq<int>)

  function FdSet(fds: seq<int>): set<int> {
    set fd | fd in fds
  }

  function Closed(t: Table): set<int> {
    set fd | fd in t.peers && !t.peers[fd]
  }

  function Active(t: Table): map<int, bool> {
    map fd | fd in t.peers && t.peers[fd] :: true
  }

  /** A watched descriptor that belongs to no peer and is not the listener. */
  function Stale(t: Table, listener: int): set<int> {
    FdSet(t.fds) - t.peers.Keys - {listener}
  }

  /** The listener is polled first and only there, and every peer is polled. */
  ghost predicate Covers(t: Table, listener: int) {
    && t.fds != [] && t.fds[0] == listener
    && (forall i :: 0 < i < |t.fds| ==> t.fds[i] != listener && t.fds[i] >= 0)
    && listener !in t.peers && (forall fd :: fd in t.peers ==> fd in t.fds)
  }

  /** Exactly the listener and the peers are polled. */
  predicate Exact(t: Table, listener: int) {
    FdSet(t.fds) == {listener} + t.peers.Keys
  }

  /** `vector::erase` of every entry for `fd`, or for -1. */
  function Without(fds: seq<int>, fd: int): seq<int> {
    if fds == [] then []
    else if fds[0] == fd || fds[0] == -1 then Without(fds[1..], fd)
    else [fds[0]] + Without(fds[1..], fd)
  }

  lemma {:induction false} WithoutMembers(fds: seq<int>, fd: int)
    ensures FdSet(Without(fds, fd)) == FdSet(fds) - {fd, -1}
  {
    if fds != [] {
      WithoutMembers(fds[1..], fd);
      assert fds == [fds[0]] + fds[1..];
      assert FdSet(fds) == {fds[0]} + FdSet(fds[1..]);
      if fds[0] != fd && fds[0] != -1 {
        assert FdSet(Without(fds, fd)) == {fds[0]} + FdSet(Without(fds[1..], fd));
      }
    }
  }

  lemma {:induction false} WithoutAppend(a: seq<int>, b: seq<int>, fd: int)
    ensures Without(a + b, fd) == Without(a, fd) + Without(b, fd)
  {
    if a == [] {
      assert a + b == b;
    } else {
      assert (a + b)[1..] == a[1..] + b;
      WithoutAppend(a[1..], b, fd);
    }
  }

  // ----- the operations -----

  /** A connection is accepted, or refused above the limit. A socket that is already a key keeps its peer. */
  function Accept(t: Table, fd: int): Table {
    if |t.peers| > MAX_CONNECTIONS then t else Watch(t, fd)
  }

  /** A connection to a peer succeeded. */
  function Connect(t: Table, fd: int): Table {
    if |t.peers| >= MAX_CONNECTIONS then t else Watch(t, fd)
  }

  function Watch(t: Table, fd: int): Table {
    Table(if fd in t.peers then t.peers else t.peers[fd := true], t.fds + [fd])
  }

  /** A read found the connection closed, and the socket was closed too. */
  function Hangup(t: Table, fd: int): Table {
    if fd in t.peers then t.(peers := t.peers[fd := false]) else t
  }

  /** The sweep as written: all closed peers leave the map, but the scan of the descriptors is not restarted, so only
      the first of them, in the order the map was walked, leaves the list. */
  function Sweep(t: Table, order: seq<int>): Table {
    Table(Active(t), if order == [] then t.fds else Without(t.fds, order[0]))
  }

  /** The same with the scan restarted for each closed socket. */
  function SweepRestarted(t: Table, order: seq<int>): Table {
    Table(Active(t), WithoutAll(t.fds, order))
  }

  function WithoutAll(fds: seq<int>, order: seq<int>): seq<int>
    decreases |order|
  {
    if order == [] then fds else WithoutAll(Without(fds, order[0]), order[1..])
  }

  /** The closed peers, each once. */
  ghost predicate IsOrder(order: seq<int>, t: Table) {
    FdSet(order) == Closed(t) && forall i, j :: 0 <= i < j < |order| ==> order[i] != order[j]
  }

  lemma OrderCount(order: seq<int>, t: Table)
    requires IsOrder(order, t)
    ensures |order| == |Closed(t)|
  {
    DistinctCount(order);
  }

  lemma {:induction false} DistinctCount(s: seq<int>)
    requires forall i, j :: 0 <= i < j < |s| ==> s[i] != s[j]
    ensures |FdSet(s)| == |s|
  {
    if s != [] {
      var k := |s| - 1;
      DistinctCount(s[..k]);
      assert s == s[..k] + [s[k]];
      assert FdSet(s) == FdSet(s[..k]) + {s[k]};
      assert s[k] !in s[..k];
    }
  }

  // ----- what the operations keep -----

  lemma WatchCovers(t: Table, fd: int, listener: int)
    requires Covers(t, listener) && fd >= 0 && fd != listener
    ensures Covers(Watch(t, fd), listener)
    ensures Stale(Watch(t, fd), listener) == Stale(t, listener) - {fd}
  {
    var u := Watch(t, fd);
    assert forall x :: x in u.fds <==> x in t.fds || x == fd;
  }

  /** The sweep keeps every remaining peer and the listener watched, however many peers it finds closed. */
  lemma SweepCovers(t: Table, order: seq<int>, listener: int)
    requires Covers(t, listener) && listener != -1 && IsOrder(order, t)
    requires forall fd :: fd in t.peers ==> fd >= 0
    ensures Covers(Sweep(t, order), listener)
  {
    if order != [] {
      var first := order[0];
      assert first in FdSet(order) && first in Closed(t) && first != listener;
      assert t.fds == [t.fds[0]] + t.fds[1..];
      WithoutMembers(t.fds, first);
      WithoutMembers(t.fds[1..], first);
      var rest := Without(t.fds[1..], first);
      assert Without(t.fds, first) == [listener] + rest;
      forall i | 0 < i < 1 + |rest|
        ensures ([listener] + rest)[i] != listener && ([listener] + rest)[i] >= 0
      {
        assert rest[i - 1] in FdSet(rest) && rest[i - 1] in FdSet(t.fds[1..]);
        var j :| 0 <= j < |t.fds| - 1 && t.fds[1..][j] == rest[i - 1];
        assert t.fds[j + 1] == rest[i - 1];
      }
      forall fd | fd in Active(t)
        ensures fd in Without(t.fds, first)
      {
        assert fd !in Closed(t) && fd in FdSet(t.fds);
        assert fd in FdSet(Without(t.fds, first));
      }
    }
  }

  /** What the sweep leaves stale: what was stale before, and all the closed sockets but the first. */
  lemma SweepLeavesStale(t: Table, order: seq<int>, listener: int)
    requires Covers(t, listener) && IsOrder(order, t) && listener >= 0
    ensures Stale(Sweep(t, order), listener)
         == Stale(t, listener) + (if order == [] then {} else Closed(t) - {order[0]})
  {
    var u := Sweep(t, order);
    if order != [] {
      WithoutMembers(t.fds, order[0]);
      assert order[0] in FdSet(order);
    }
    forall fd
      ensures fd in Stale(u, listener) <==>
                fd in Stale(t, listener) + (if order == [] then {} else Closed(t) - {order[0]})
    {
      if fd in FdSet(t.fds) && fd != listener {
        var i :| 0 <= i < |t.fds| && t.fds[i] == fd;
        assert fd >= 0;
      }
      if order == [] && fd in t.peers {
        assert fd !in Closed(t) by { assert Closed(t) == FdSet(order) == {}; }
      }
    }
  }

  /** The exact condition: after the sweep as written, exactly the listener and the remaining peers are polled if and
      only if nothing was stale before and at most one peer was closed. */
  lemma SweepExactly(t: Table, order: seq<int>, listener: int)
    requires Covers(t, listener) && IsOrder(order, t) && listener >= 0
    ensures Exact(Sweep(t, order), listener) <==> Stale(t, listener) == {} && |Closed(t)| <= 1
  {
    var u := Sweep(t, order);
    SweepLeavesStale(t, order, listener);
    SweepCovers(t, order, listener) by {
      forall fd | fd in t.peers ensures fd >= 0 { var i :| 0 <= i < |t.fds| && t.fds[i] == fd; }
    }
    ExactMeansNoStale(u, listener);
    OrderCount(order, t);
    if order != [] {
      var first := order[0];
      assert first in FdSet(order);
      if |order| == 1 {
        assert Closed(t) == {first};
      } else {
        assert order[1] in FdSet(order) && order[1] != first;
        assert order[1] in Closed(t) - {first};
      }
    }
  }

  lemma ExactMeansNoStale(t: Table, listener: int)
    requires Covers(t, listener)
    ensures Exact(t, listener) <==> Stale(t, listener) == {}
  {
    var wanted := {listener} + t.peers.Keys;
    assert forall fd :: fd in wanted ==> fd in FdSet(t.fds);
    assert FdSet(t.fds) == Stale(t, listener) + wanted;
  }

  lemma {:induction false} WithoutAllMembers(fds: seq<int>, order: seq<int>)
    ensures FdSet(WithoutAll(fds, order)) == FdSet(fds) - FdSet(order) - if order == [] then {} else {-1}
    decreases |order|
  {
    if order != [] {
      WithoutMembers(fds, order[0]);
      WithoutAllMembers(Without(fds, order[0]), order[1..]);
      assert order == [order[0]] + order[1..];
      assert FdSet(order) == {order[0]} + FdSet(order[1..]);
    }
  }

  /** With the scan restarted, the sweep leaves nothing stale that was not so before, whatever it finds closed. */
  lemma RestartedSweepExactly(t: Table, order: seq<int>, listener: int)
    requires Covers(t, listener) && IsOrder(order, t) && listener >= 0
    ensures Exact(SweepRestarted(t, order), listener) <==> Exact(t, listener)
  {
    WithoutAllMembers(t.fds, order);
    var u, closed := SweepRestarted(t, order), Closed(t);
    forall fd | fd in FdSet(t.fds)
      ensures fd >= 0
    {
      var i :| 0 <= i < |t.fds| && t.fds[i] == fd;
    }
    assert FdSet(u.fds) == FdSet(t.fds) - closed;
    assert u.peers.Keys == t.peers.Keys - closed;
    assert forall fd :: fd in t.peers ==> fd in FdSet(t.fds);
    assert FdSet(t.fds) == FdSet(u.fds) + closed;
    assert {listener} + t.peers.Keys == ({listener} + u.peers.Keys) + closed;
    assert ({listener} + t.peers.Keys) - closed == {listener} + u.peers.Keys;
  }

  // ----- runs -----

  datatype Action = Accepted(fd: int) | Connected(fd: int) | HungUp(fd: int) | Swept(order: seq<int>)

  /** A new socket is a descriptor that is not in use: not the listener, and not an open connection's. */
  ghost predicate Enabled(t: Table, a: Action, listener: int) {
    match a
    case Accepted(fd) => fd >= 0 && fd != listener && (fd in t.peers ==> !t.peers[fd])
    case Connected(fd) => fd >= 0 && fd != listener && (fd in t.peers ==> !t.peers[fd])
    case HungUp(fd) => fd in t.peers
    case Swept(order) => IsOrder(order, t)
  }

  function Step(t: Table, a: Action): Table {
    match a
    case Accepted(fd) => Accept(t, fd)
    case Connected(fd) => Connect(t, fd)
    case HungUp(fd) => Hangup(t, fd)
    case Swept(order) => Sweep(t, order)
  }

  function Run(listener: int, actions: seq<Action>): Table
    decreases |actions|
  {
    if actions == [] then Table(map[], [listener]) else
    Step(Run(listener, actions[..|actions| - 1]), actions[|actions| - 1])
  }

  ghost predicate IsRun(listener: int, actions: seq<Action>)
    decreases |actions|
  {
    actions == [] ||
    var k := |actions| - 1;
    IsRun(listener, actions[..k]) && Enabled(Run(listener, actions[..k]), actions[k], listener)
  }

  /** In every reachable state the listener and every peer are polled, and there are at most 1001 peers. */
  lemma {:induction false} AlwaysCovers(listener: int, actions: seq<Action>)
    requires listener >= 0 && IsRun(listener, actions)
    ensures Covers(Run(listener, actions), listener)
    ensures |Run(listener, actions).peers| <= MAX_CONNECTIONS + 1
    decreases |actions|
  {
    if actions != [] {
      var k := |actions| - 1;
      var t, a := Run(listener, actions[..k]), actions[k];
      AlwaysCovers(listener, actions[..k]);
      StepCovers(t, a, listener);
    }
  }

  lemma StepCovers(t: Table, a: Action, listener: int)
    requires listener >= 0 && Covers(t, listener) && Enabled(t, a, listener) && |t.peers| <= MAX_CONNECTIONS + 1
    ensures Covers(Step(t, a), listener) && |Step(t, a).peers| <= MAX_CONNECTIONS + 1
  {
    match a
    case Accepted(fd) => WatchCovers(t, fd, listener);
    case Connected(fd) => WatchCovers(t, fd, listener);
    case HungUp(fd) =>
      assert t.peers[fd := false].Keys == t.peers.Keys;
    case Swept(order) =>
      forall fd | fd in t.peers ensures fd >= 0 { var i :| 0 <= i < |t.fds| && t.fds[i] == fd; }
      SweepCovers(t, order, listener);
      ActiveSize(t);
  }

  /** The exact condition under which the limit holds: an accept goes beyond it exactly when the map is full and the
      socket is no key yet, because the comparison is with >. */
  lemma AcceptLimit(t: Table, fd: int)
    requires |t.peers| <= MAX_CONNECTIONS
    ensures |Accept(t, fd).peers| <= MAX_CONNECTIONS <==> |t.peers| < MAX_CONNECTIONS || fd in t.peers
  {
    WatchSize(t, fd);
  }

  /** A connection of our own never does. */
  lemma ConnectLimit(t: Table, fd: int)
    requires |t.peers| <= MAX_CONNECTIONS
    ensures |Connect(t, fd).peers| <= MAX_CONNECTIONS
  {
    WatchSize(t, fd);
  }

  lemma WatchSize(t: Table, fd: int)
    ensures |Watch(t, fd).peers| == |t.peers| + if fd in t.peers then 0 else 1
  {
    assert |t.peers| == |t.peers.Keys|;
    if fd !in t.peers {
      assert t.peers[fd := true].Keys == t.peers.Keys + {fd};
      assert |t.peers[fd := true]| == |t.peers[fd := true].Keys|;
    }
  }

  /** A step of a run passes the limit exactly when it is such an accept. */
  lemma StepLimit(t: Table, a: Action)
    requires |t.peers| <= MAX_CONNECTIONS
    ensures |Step(t, a).peers| > MAX_CONNECTIONS
            <==> a.Accepted? && |t.peers| == MAX_CONNECTIONS && a.fd !in t.peers
  {
    match a
    case Accepted(fd) => AcceptLimit(t, fd);
    case Connected(fd) => ConnectLimit(t, fd);
    case HungUp(fd) =>
      if fd in t.peers {
        assert t.peers[fd := false].Keys == t.peers.Keys;
        assert |t.peers[fd := false]| == |t.peers[fd := false].Keys| && |t.peers| == |t.peers.Keys|;
      }
    case Swept(order) => ActiveSize(t);
  }

  /** No state of the run has more peers than the limit. */
  predicate WithinLimit(listener: int, actions: seq<Action>)
    decreases |actions|
  {
    && |Run(listener, actions).peers| <= MAX_CONNECTIONS
    && (actions == [] || WithinLimit(listener, actions[..|actions| - 1]))
  }

  /** No accept of the run comes when the map is full, on a socket that is no key. */
  predicate NeverOverfull(listener: int, actions: seq<Action>)
    decreases |actions|
  {
    actions == [] ||
    var k := |actions| - 1;
    var t, a := Run(listener, actions[..k]), actions[k];
    NeverOverfull(listener, actions[..k]) && !(a.Accepted? && |t.peers| == MAX_CONNECTIONS && a.fd !in t.peers)
  }

  /** A run stays within the limit exactly when it holds no such accept. */
  lemma {:induction false} RunLimit(listener: int, actions: seq<Action>)
    ensures WithinLimit(listener, actions) <==> NeverOverfull(listener, actions)
    decreases |actions|
  {
    if actions != [] {
      var k := |actions| - 1;
      RunLimit(listener, actions[..k]);
      if WithinLimit(listener, actions[..k]) {
        StepLimit(Run(listener, actions[..k]), actions[k]);
      }
    }
  }

  lemma ActiveSize(t: Table)
    ensures |Active(t)| <= |t.peers|
  {
    SubsetSize(Active(t).Keys, t.peers.Keys);
    assert |Active(t)| == |Active(t).Keys| && |t.peers| == |t.peers.Keys|;
  }

  /** Connections accepted on the n descriptors after the listener's. */
  function Accepts(listener: int, n: nat): (actions: seq<Action>)
    ensures |actions| == n
  {
    if n == 0 then [] else Accepts(listener, n - 1) + [Accepted(listener + n)]
  }

  lemma {:induction false} AcceptsRun(listener: int, n: nat)
    requires listener >= 0 && n <= MAX_CONNECTIONS + 1
    ensures IsRun(listener, Accepts(listener, n)) && |Run(listener, Accepts(listener, n)).peers| == n
    ensures forall fd :: fd in Run(listener, Accepts(listener, n)).peers ==> fd <= listener + n
    decreases n
  {
    hide Run, IsRun, Accept, Watch;
    if n == 0 {
      NoActions(listener);
    } else {
      AcceptsRun(listener, n - 1);
      RunSnoc(listener, Accepts(listener, n - 1), Accepted(listener + n));
      AcceptNew(Run(listener, Accepts(listener, n - 1)), listener + n);
    }
  }

  lemma NoActions(listener: int)
    ensures IsRun(listener, []) && Run(listener, []) == Table(map[], [listener])
  {
  }

  lemma AcceptNew(t: Table, fd: int)
    requires |t.peers| <= MAX_CONNECTIONS && forall x :: x in t.peers ==> x < fd
    ensures |Accept(t, fd).peers| == |t.peers| + 1 && forall x :: x in Accept(t, fd).peers ==> x <= fd
  {
    WatchSize(t, fd);
  }

  /** So the limit can be passed: a run that accepts 1001 connections has 1001 peers. */
  lemma LimitPassed(listener: int)
    requires listener >= 0
    ensures var actions := Accepts(listener, MAX_CONNECTIONS + 1);
      && IsRun(listener, actions) && |actions| == 1001 && |Run(listener, actions).peers| == 1001 > MAX_CONNECTIONS
      && forall a :: a in actions ==> a.Accepted?
  {
    AcceptsRun(listener, MAX_CONNECTIONS + 1);
    AcceptsOnly(listener, MAX_CONNECTIONS + 1);
  }

  lemma {:induction false} AcceptsOnly(listener: int, n: nat)
    ensures forall a :: a in Accepts(listener, n) ==> a.Accepted?
    decreases n
  {
    if n > 0 {
      AcceptsOnly(listener, n - 1);
    }
  }

  lemma SubsetSize(a: set<int>, b: set<int>)
    requires a <= b
    ensures |a| <= |b|
  {
    assert b == a + (b - a);
  }

  /** If no sweep of a run found more than one peer closed, exactly the listener and the peers are polled. */
  lemma {:induction false} ExactRuns(listener: int, actions: seq<Action>)
    requires listener >= 0 && IsRun(listener, actions)
    requires forall i :: 0 <= i < |actions| && actions[i].Swept? ==> |actions[i].order| <= 1
    ensures Exact(Run(listener, actions), listener)
    decreases |actions|
  {
    AlwaysCovers(listener, actions);
    if actions != [] {
      var k := |actions| - 1;
      var t, a := Run(listener, actions[..k]), actions[k];
      AlwaysCovers(listener, actions[..k]);
      ExactRuns(listener, actions[..k]);
      StepExact(t, a, listener);
    }
  }

  lemma StepExact(t: Table, a: Action, listener: int)
    requires listener >= 0 && Covers(t, listener) && Exact(t, listener) && Enabled(t, a, listener)
    requires |t.peers| <= MAX_CONNECTIONS + 1
    requires a.Swept? ==> |a.order| <= 1
    ensures Exact(Step(t, a), listener)
  {
    ExactMeansNoStale(t, listener);
    StepCovers(t, a, listener);
    ExactMeansNoStale(Step(t, a), listener);
    match a
    case Accepted(fd) => WatchCovers(t, fd, listener);
    case Connected(fd) => WatchCovers(t, fd, listener);
    case HungUp(fd) => assert t.peers[fd := false].Keys == t.peers.Keys;
    case Swept(order) => SweepExactly(t, order, listener); OrderCount(order, t);
  }

  /** Two peers closed at once: one of the two descriptors stays in the list, although its peer is gone. */
  lemma TwoClosedLeaveOne(listener: int, a: int, b: int)
    requires listener >= 0 && a >= 0 && b >= 0 && listener != a && listener != b && a != b
    ensures var actions := [Accepted(a), Accepted(b), HungUp(a), HungUp(b), Swept([a, b])];
      && IsRun(listener, actions)
      && Run(listener, actions) == Table(map[], [listener, b])
      && !Exact(Run(listener, actions), listener)
  {
    hide Run, IsRun, Exact, Sweep, IsOrder;
    TwoClosed(listener, a, b);
    var before := [Accepted(a), Accepted(b), HungUp(a), HungUp(b)];
    var t := Table(map[a := false, b := false], [listener, a, b]);
    RunSnoc(listener, before, Swept([a, b]));
    BothInOrder(listener, a, b);
    SweepBoth(listener, a, b);
    assert before + [Swept([a, b])] == [Accepted(a), Accepted(b), HungUp(a), HungUp(b), Swept([a, b])];
  }

  lemma TwoAccepted(listener: int, a: int, b: int)
    requires listener >= 0 && a >= 0 && b >= 0 && listener != a && listener != b && a != b
    ensures IsRun(listener, [Accepted(a), Accepted(b)])
    ensures Run(listener, [Accepted(a), Accepted(b)]) == Table(map[a := true, b := true], [listener, a, b])
  {
    RunSnoc(listener, [], Accepted(a));
    RunSnoc(listener, [Accepted(a)], Accepted(b));
    assert [] + [Accepted(a)] == [Accepted(a)] && [Accepted(a)] + [Accepted(b)] == [Accepted(a), Accepted(b)];
    assert Run(listener, [Accepted(a)]) == Table(map[a := true], [listener, a]);
  }

  lemma TwoClosed(listener: int, a: int, b: int)
    requires listener >= 0 && a >= 0 && b >= 0 && listener != a && listener != b && a != b
    ensures var actions := [Accepted(a), Accepted(b), HungUp(a), HungUp(b)];
      IsRun(listener, actions) && Run(listener, actions) == Table(map[a := false, b := false], [listener, a, b])
  {
    hide Run, IsRun;
    TwoAccepted(listener, a, b);
    var a2, a3 := [Accepted(a), Accepted(b)], [Accepted(a), Accepted(b), HungUp(a)];
    RunSnoc(listener, a2, HungUp(a));
    RunSnoc(listener, a3, HungUp(b));
    assert a2 + [HungUp(a)] == a3 && a3 + [HungUp(b)] == [Accepted(a), Accepted(b), HungUp(a), HungUp(b)];
    assert map[a := true, b := true][a := false][b := false] == map[a := false, b := false];
  }

  lemma BothInOrder(listener: int, a: int, b: int)
    requires a != b
    ensures IsOrder([a, b], Table(map[a := false, b := false], [listener, a, b]))
  {
    assert Closed(Table(map[a := false, b := false], [listener, a, b])) == {a, b} == FdSet([a, b]);
  }

  lemma SweepBoth(listener: int, a: int, b: int)
    requires listener >= 0 && a >= 0 && b >= 0 && listener != a && listener != b && a != b
    ensures var u := Sweep(Table(map[a := false, b := false], [listener, a, b]), [a, b]);
      u == Table(map[], [listener, b]) && !Exact(u, listener)
  {
    assert [listener, a, b][1..] == [a, b] && [a, b][1..] == [b] && [b][1..] == [];
    assert Without([b], a) == [b] && Without([a, b], a) == [b];
    assert b in FdSet([listener, b]);
  }

  lemma RunSnoc(listener: int, actions: seq<Action>, a: Action)
    ensures Run(listener, actions + [a]) == Step(Run(listener, actions), a)
    ensures IsRun(listener, actions + [a]) <==> IsRun(listener, actions) && Enabled(Run(listener, actions), a, listener)
  {
    assert (actions + [a])[..|actions|] == actions;
  }
}
