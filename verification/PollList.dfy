/** `pollfd_list`: its entries, what a pass over it reads, and scanning it for a descriptor. */
module PollList {
  import opened Framing
  import opened Connections
  import opened WatchList

  /** An entry; `readable` is (revents & POLLIN) == POLLIN. */
  datatype PollFd = PollFd(fd: int, readable: bool)

  function Fds(list: seq<PollFd>): (fds: seq<int>)
    ensures |fds| == |list| && forall i :: 0 <= i < |list| ==> fds[i] == list[i].fd
  {
    seq(|list|, i requires 0 <= i < |list| => list[i].fd)
  }

  ghost predicate Distinct(list: seq<PollFd>) {
    forall i, j :: 0 <= i < j < |list| ==> list[i].fd != list[j].fd
  }

  // ----- a pass -----

  /** The list after the listener's entry has been looked at, with `peers` peers in the map. */
  function Grown(list: seq<PollFd>, peers: nat, client: PollFd): seq<PollFd> {
    list + if list != [] && list[0].readable && peers <= MAX_CONNECTIONS then [client] else []
  }

  /** The connections after that. */
  function Joins(list: seq<PollFd>, conns: map<int, Conn>, fd: int): map<int, Conn> {
    if list != [] && list[0].readable then Joined(conns, fd) else conns
  }

  /** A connection is accepted: refused above the limit, and a descriptor that is a key already keeps its connection. */
  function Joined(conns: map<int, Conn>, fd: int): map<int, Conn> {
    if |conns| > MAX_CONNECTIONS || fd in conns then conns else conns[fd := ACCEPTED]
  }

  /** A connection of our own has succeeded. */
  function Dialed(conns: map<int, Conn>, fd: int): map<int, Conn> {
    if |conns| >= MAX_CONNECTIONS || fd in conns then conns else conns[fd := CONNECTED]
  }

  /** The reads of a pass: on each readable entry behind the first, in order. `env` tells what each entry's read
      meets. */
  function ReadsOf(list: seq<PollFd>, env: nat -> Input): seq<Read> {
    if |list| <= 1 then [] else
    var k := |list| - 1;
    ReadsOf(list[..k], env) + if list[k].readable then [Read(list[k].fd, env(k))] else []
  }

  lemma NothingRead(list: seq<PollFd>, env: nat -> Input)
    requires list != []
    ensures ReadsOf(list[..1], env) == []
  {
  }

  lemma ReadsStep(list: seq<PollFd>, k: nat, env: nat -> Input)
    requires 0 < k < |list|
    ensures ReadsOf(list[..k + 1], env)
         == ReadsOf(list[..k], env) + if list[k].readable then [Read(list[k].fd, env(k))] else []
    ensures !list[k].readable ==> ReadsOf(list[..k + 1], env) == ReadsOf(list[..k], env)
  {
    assert list[..k + 1][..k] == list[..k];
  }

  lemma {:induction false} ReadsAdmissible(keeps: bool, start: map<int, Conn>, list: seq<PollFd>, k: nat,
                                           env: nat -> Input)
    requires AllAdmissible(keeps, start, ReadsOf(list, env)) && k <= |list|
    ensures AllAdmissible(keeps, start, ReadsOf(list[..k], env))
    decreases |list|
  {
    if k == |list| {
      assert list[..k] == list;
    } else if |list| > 1 {
      var n := |list| - 1;
      if list[n].readable {
        OneMoreRead(keeps, start, ReadsOf(list[..n], env), Read(list[n].fd, env(n)));
      } else {
        assert ReadsOf(list, env) == ReadsOf(list[..n], env);
      }
      ReadsAdmissible(keeps, start, list[..n], k, env);
      assert list[..n][..k] == list[..k];
    }
  }

  /** Each read is one of a readable entry ... */
  lemma {:induction false} ReadEntry(list: seq<PollFd>, env: nat -> Input, n: nat) returns (i: nat)
    requires n < |ReadsOf(list, env)|
    ensures 0 < i < |list| && list[i].readable && ReadsOf(list, env)[n] == Read(list[i].fd, env(i))
    decreases |list|
  {
    i := |list| - 1;
    if n < |ReadsOf(list[..i], env)| {
      i := ReadEntry(list[..i], env, n);
    }
  }

  /** ... and each readable entry has one. */
  lemma {:induction false} EntryRead(list: seq<PollFd>, env: nat -> Input, i: nat) returns (n: nat)
    requires 0 < i < |list| && list[i].readable
    ensures n < |ReadsOf(list, env)| && ReadsOf(list, env)[n] == Read(list[i].fd, env(i))
    decreases |list|
  {
    var k := |list| - 1;
    if i == k {
      n := |ReadsOf(list[..k], env)|;
    } else {
      n := EntryRead(list[..k], env, i);
    }
  }

  /** With distinct descriptors, none is read twice. */
  lemma {:induction false} ReadsDistinct(list: seq<PollFd>, env: nat -> Input, m: nat, n: nat)
    requires Distinct(list) && m < n < |ReadsOf(list, env)|
    ensures ReadsOf(list, env)[m].fd != ReadsOf(list, env)[n].fd
    decreases |list|
  {
    var k := |list| - 1;
    if n < |ReadsOf(list[..k], env)| {
      ReadsDistinct(list[..k], env, m, n);
    } else {
      var i := ReadEntry(list[..k], env, m);
    }
  }

  /** In a pass over distinct descriptors each connection takes exactly the read of its own entry, or stays as it
      was. */
  lemma OwnReadOnly(keeps: bool, start: map<int, Conn>, list: seq<PollFd>, env: nat -> Input, i: nat)
    requires Distinct(list) && 0 < i < |list| && list[i].fd in start
    ensures ConnsAfter(keeps, start, ReadsOf(list, env))[list[i].fd]
         == if list[i].readable then Next(keeps, start[list[i].fd], env(i)) else start[list[i].fd]
  {
    var log := ReadsOf(list, env);
    if list[i].readable {
      var n := EntryRead(list, env, i);
      forall m | 0 <= m < |log| && m != n
        ensures log[m].fd != log[n].fd
      {
        if m < n { ReadsDistinct(list, env, m, n); } else { ReadsDistinct(list, env, n, m); }
      }
      ReadOnce(keeps, start, log, n);
    } else {
      forall r | r in log
        ensures r.fd != list[i].fd
      {
        var m :| 0 <= m < |log| && log[m] == r;
        var j := ReadEntry(list, env, m);
      }
      NotRead(keeps, start, log, list[i].fd);
    }
  }

  /** Erasing keeps descriptors distinct. */
  lemma {:induction false} WithoutDistinct(fds: seq<int>, fd: int)
    requires forall i, j :: 0 <= i < j < |fds| ==> fds[i] != fds[j]
    ensures var w := Without(fds, fd); forall i, j :: 0 <= i < j < |w| ==> w[i] != w[j]
  {
    if fds != [] {
      WithoutDistinct(fds[1..], fd);
      WithoutMembers(fds[1..], fd);
      var w := Without(fds[1..], fd);
      forall x | x in w
        ensures x != fds[0]
      {
        assert x in FdSet(w) && x in FdSet(fds[1..]);
      }
      assert forall j :: 0 <= j < |w| ==> w[j] in w;
    }
  }

  // ----- a turn: a pass and a sweep -----

  function OpenOnly(conns: map<int, Conn>): map<int, Conn> {
    map fd | fd in conns && conns[fd].open :: conns[fd]
  }

  /** A pass leaves stale what was so before, but for the descriptor it has accepted. */
  lemma PassStale(list: seq<PollFd>, conns: map<int, Conn>, client: PollFd, listener: int, before: Table, after: Table)
    requires before.fds == Fds(list) && before.peers.Keys == conns.Keys
    requires after.fds == Fds(Grown(list, |conns|, client)) && after.peers.Keys == Joins(list, conns, client.fd).Keys
    ensures Stale(after, listener)
         == Stale(before, listener) - if Grown(list, |conns|, client) == list then {} else {client.fd}
  {
    var grown := Grown(list, |conns|, client);
    if grown != list {
      assert Fds(grown) == Fds(list) + [client.fd];
      assert forall fd: int :: fd in FdSet(after.fds) <==> fd in FdSet(before.fds) || fd == client.fd;
      assert after.peers.Keys == before.peers.Keys + {client.fd};
    } else {
      assert |grown| == |list|;
    }
  }

  /** So the sweep after it leaves exactly the listener and the peers polled if and only if nothing else was stale
      before the pass and it found at most one peer closed. */
  lemma TurnExactly(after: Table, order: seq<int>, listener: int, stale: set<int>, accepted: set<int>)
    requires Covers(after, listener) && listener >= 0 && IsOrder(order, after)
    requires Stale(after, listener) == stale - accepted
    ensures Exact(Sweep(after, order), listener) <==> stale <= accepted && |order| <= 1
  {
    SweepExactly(after, order, listener);
    OrderCount(order, after);
    assert stale - accepted == {} <==> stale <= accepted by {
      assert forall fd: int :: fd in stale - accepted <==> fd in stale && fd !in accepted;
    }
  }

  lemma GrownDistinct(list: seq<PollFd>, peers: nat, client: PollFd)
    requires Distinct(list) && client.fd !in Fds(list)
    ensures Distinct(Grown(list, peers, client))
  {
    assert forall i :: 0 <= i < |list| ==> Fds(list)[i] in Fds(list);
  }

  /** The sweep keeps descriptors distinct. */
  lemma SweptDistinct(before: seq<PollFd>, order: seq<int>, after: seq<PollFd>)
    requires Distinct(before) && Fds(after) == if order == [] then Fds(before) else Without(Fds(before), order[0])
    ensures Distinct(after)
  {
    if order != [] {
      WithoutDistinct(Fds(before), order[0]);
    }
    assert forall i :: 0 <= i < |after| ==> after[i].fd == Fds(after)[i];
  }

  // ----- a scan -----

  lemma FdsErased(list: seq<PollFd>, k: nat)
    requires k < |list|
    ensures Fds(list[..k] + list[k + 1..]) == Fds(list)[..k] + Fds(list)[k + 1..]
  {
  }

  /** A scan for `fd` that has come to `it`: `kept` is what lies before the scan, and `done` of the entries `fds` have
      been looked at. */
  ghost predicate Scanned(list: seq<int>, it: nat, kept: seq<int>, fds: seq<int>, done: nat, fd: int) {
    && done <= |fds| && it == |kept| + |Without(fds[..done], fd)|
    && list == kept + Without(fds[..done], fd) + fds[done..]
  }

  lemma ScanStarts(list: seq<int>, start: nat, fd: int)
    requires start <= |list|
    ensures Scanned(list, start, list[..start], list[start..], 0, fd)
  {
    assert list[start..][..0] == [];
  }

  lemma ScanStep(list: seq<int>, it: nat, kept: seq<int>, fds: seq<int>, done: nat, fd: int)
    requires Scanned(list, it, kept, fds, done, fd) && it < |list|
    ensures list[it] == fd || list[it] == -1 ==> Scanned(list[..it] + list[it + 1..], it, kept, fds, done + 1, fd)
    ensures list[it] != fd && list[it] != -1 ==> Scanned(list, it + 1, kept, fds, done + 1, fd)
  {
    StepWithout(fds, done, fd);
    var w := kept + Without(fds[..done], fd);
    AtPoint(w, fds, done);
    Assoc(kept, Without(fds[..done], fd), [fds[done]]);
  }

  lemma ScanEnds(list: seq<int>, it: nat, kept: seq<int>, fds: seq<int>, done: nat, fd: int)
    requires Scanned(list, it, kept, fds, done, fd) && it >= |list|
    ensures list == kept + Without(fds, fd) && it == |list|
  {
    assert fds[..|fds|] == fds;
  }

  /** A list that has been scanned up to `done`, with `w` kept of that part. */
  lemma AtPoint(w: seq<int>, fds: seq<int>, done: nat)
    requires done < |fds|
    ensures var all := w + fds[done..];
      && all[|w|] == fds[done]
      && all[..|w|] + all[|w| + 1..] == w + fds[done + 1..]
      && all == w + [fds[done]] + fds[done + 1..]
  {
  }

  lemma StepWithout(fds: seq<int>, done: nat, fd: int)
    requires done < |fds|
    ensures Without(fds[..done + 1], fd)
         == Without(fds[..done], fd) + if fds[done] == fd || fds[done] == -1 then [] else [fds[done]]
  {
    assert fds[..done + 1] == fds[..done] + [fds[done]];
    WithoutAppend(fds[..done], [fds[done]], fd);
    assert [fds[done]][1..] == [];
  }
}
