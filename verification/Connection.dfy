/** One connection as a value, and what the reads on many connections do: to each of them, and to the callback. */
module Connections {
  import opened Bytes
  import opened Framing
  import opened Reassembly
  import opened Sockets

  /** What one read on a connection will meet. */
  datatype Input = Input(answer: Recv, stack: Stack, shutdownOk: bool, closeOk: bool)

  /** The image of the bytes received, the position in the receive buffer, and the state of the socket. */
  datatype Conn = Conn(seen: seq<byte>, pos: int, open: bool, init: bool)

  const ACCEPTED := Conn([], 0, true, false)
  const CONNECTED := Conn([], 0, true, true)

  /** The read is one that a socket and a well-formed stream can produce, and it does not use a missing header. */
  predicate Admissible(keeps: bool, c: Conn, input: Input) {
    input.answer.Data? && c.open ==>
      && 0 < |input.answer.bytes| <= BUFF_SIZE - c.pos
      && !Crashes(keeps, Decode(c.seen).rest, input.answer.bytes)
      && StreamOk(See(keeps, c.seen, input.answer.bytes, input.stack))
  }

  /** Where a read of n bytes leaves the position: at 0, or behind the header of a packet without a payload, for
      good. */
  function PosAfter(pos: int, before: seq<byte>, rest: seq<byte>, n: nat): int {
    if Stuck(before) then pos
    else if Stuck(rest) then n - (|rest| - |Clip(rest)|)
    else 0
  }

  function Next(keeps: bool, c: Conn, input: Input): Conn {
    if !c.open then c else
    match input.answer
    case Data(bytes) =>
      var seen := See(keeps, c.seen, bytes, input.stack);
      c.(seen := seen, pos := PosAfter(c.pos, Decode(c.seen).rest, Decode(seen).rest, |bytes|))
    case Closed =>
      c.(open := !((!c.init || input.shutdownOk) && input.closeOk), init := c.init && !input.shutdownOk)
    case Error => c
  }

  /** The same field by field: a read that fails changes nothing; only an orderly close can close the socket, and then
      does so exactly if what it takes succeeds; only bytes on an open socket reach the image and the position. */
  lemma NextFields(keeps: bool, c: Conn, input: Input)
    ensures var next := Next(keeps, c, input);
      var closing, taken := c.open && input.answer.Closed?, c.open && input.answer.Data?;
      && (next.open <==> c.open && !(closing && (!c.init || input.shutdownOk) && input.closeOk))
      && (next.init <==> c.init && !(closing && input.shutdownOk))
      && (!taken ==> next.seen == c.seen && next.pos == c.pos)
      && (taken ==>
            && next.seen == See(keeps, c.seen, input.answer.bytes, input.stack)
            && var before, rest := Decode(c.seen).rest, Decode(next.seen).rest;
            && (Stuck(before) ==> next.pos == c.pos)
            && (!Stuck(before) && Stuck(rest) ==>
                  next.pos == |input.answer.bytes| - (|rest| - FullHeaderLen(rest)))
            && (!Stuck(before) && !Stuck(rest) ==> next.pos == 0))
  {
  }

  /** When `recv_pkt` ends in an exception: the read failed, or the bytes read are looked at and the packet in front of
      `rest`, what is undecoded after the read, has no payload. */
  predicate Throws(c: Conn, answer: Recv, rest: seq<byte>) {
    c.open && (answer.Error? || (answer.Data? && Stuck(rest) && c.pos < |answer.bytes|))
  }

  /** The index of the completed packet that the read hands to the callback; -1 for no call. */
  function Call(keeps: bool, c: Conn, input: Input): (call: int)
    ensures -1 <= call < |Decode(Next(keeps, c, input).seen).frames|
    ensures var d := Decode(Next(keeps, c, input).seen);
      && (call >= 0 ==> call == |d.frames| - 1)
      && (call < 0 <==>
            || d.frames == []
            || (c.open && input.answer.Error?)
            || (c.open && input.answer.Data? && c.pos < |input.answer.bytes| && Stuck(d.rest)))
  {
    var next := Next(keeps, c, input);
    if Throws(c, input.answer, Decode(next.seen).rest) then -1 else |Decode(next.seen).frames| - 1
  }

  // ----- many connections -----

  datatype Read = Read(fd: int, input: Input)

  datatype Delivery = Delivery(fd: int, index: int)

  function Served(keeps: bool, conns: map<int, Conn>, r: Read): (m: map<int, Conn>)
    ensures m.Keys == conns.Keys
  {
    if r.fd in conns then conns[r.fd := Next(keeps, conns[r.fd], r.input)] else conns
  }

  function Handed(keeps: bool, conns: map<int, Conn>, r: Read): seq<Delivery> {
    if r.fd in conns && Call(keeps, conns[r.fd], r.input) >= 0 then
      [Delivery(r.fd, Call(keeps, conns[r.fd], r.input))]
    else
      []
  }

  /** All connections after a sequence of reads. */
  function ConnsAfter(keeps: bool, start: map<int, Conn>, log: seq<Read>): (m: map<int, Conn>)
    ensures m.Keys == start.Keys
    decreases |log|
  {
    if log == [] then start else
    var k := |log| - 1;
    Served(keeps, ConnsAfter(keeps, start, log[..k]), log[k])
  }

  /** The calls of the callback in the course of it. */
  function Deliveries(keeps: bool, start: map<int, Conn>, log: seq<Read>): seq<Delivery>
    decreases |log|
  {
    if log == [] then [] else
    var k := |log| - 1;
    Deliveries(keeps, start, log[..k]) + Handed(keeps, ConnsAfter(keeps, start, log[..k]), log[k])
  }

  predicate AllAdmissible(keeps: bool, start: map<int, Conn>, log: seq<Read>)
    decreases |log|
  {
    log == [] ||
    var k := |log| - 1;
    var conns := ConnsAfter(keeps, start, log[..k]);
    && AllAdmissible(keeps, start, log[..k])
    && (log[k].fd in conns ==> Admissible(keeps, conns[log[k].fd], log[k].input))
  }

  lemma OneMoreRead(keeps: bool, start: map<int, Conn>, log: seq<Read>, r: Read)
    ensures var conns := ConnsAfter(keeps, start, log);
      && ConnsAfter(keeps, start, log + [r]) == Served(keeps, conns, r)
      && Deliveries(keeps, start, log + [r]) == Deliveries(keeps, start, log) + Handed(keeps, conns, r)
      && (forall served :: Serves(served, log) ==> Serves(served + [r.fd], log + [r]))
      && (AllAdmissible(keeps, start, log + [r]) <==>
            AllAdmissible(keeps, start, log) && (r.fd in conns ==> Admissible(keeps, conns[r.fd], r.input)))
  {
    assert (log + [r])[..|log|] == log;
  }

  /** The descriptors read on, in order. */
  ghost predicate Serves(served: seq<int>, log: seq<Read>) {
    |served| == |log| && forall i :: 0 <= i < |log| ==> served[i] == log[i].fd
  }

  /** A read opens no connection. */
  lemma StillOpen(keeps: bool, c: Conn, input: Input)
    ensures Next(keeps, c, input).open ==> c.open
  {
  }

  /** A read never takes a completed packet back. */
  lemma NextKeepsPackets(keeps: bool, c: Conn, input: Input)
    ensures Decode(c.seen).frames <= Decode(Next(keeps, c, input).seen).frames
  {
    if c.open && input.answer.Data? {
      SeeDecodes(keeps, c.seen, input.answer.bytes, input.stack);
    }
  }

  lemma ServedKeepsPackets(keeps: bool, conns: map<int, Conn>, r: Read, fd: int)
    requires fd in conns
    ensures |Decode(conns[fd].seen).frames| <= |Decode(Served(keeps, conns, r)[fd].seen).frames|
  {
    NextKeepsPackets(keeps, conns[fd], r.input);
  }

  /** What has been handed over on a connection is a packet it has completed. */
  lemma {:induction false} DeliveredAreCompleted(keeps: bool, start: map<int, Conn>, log: seq<Read>, i: nat)
    requires i < |Deliveries(keeps, start, log)|
    ensures var d := Deliveries(keeps, start, log)[i];
      d.fd in start && 0 <= d.index < |Decode(ConnsAfter(keeps, start, log)[d.fd].seen).frames|
    decreases |log|
  {
    var k := |log| - 1;
    var conns := ConnsAfter(keeps, start, log[..k]);
    if i < |Deliveries(keeps, start, log[..k])| {
      DeliveredAreCompleted(keeps, start, log[..k], i);
      ServedKeepsPackets(keeps, conns, log[k], Deliveries(keeps, start, log[..k])[i].fd);
    }
  }

  /** The i-th read is one on a peer, does not end in an exception, and leaves the peer with a completed packet. */
  predicate CallsBack(keeps: bool, start: map<int, Conn>, log: seq<Read>, i: nat)
    requires i < |log|
  {
    var r := log[i];
    r.fd in start &&
    var c := ConnsAfter(keeps, start, log[..i])[r.fd];
    var d := Decode(ConnsAfter(keeps, start, log[..i + 1])[r.fd].seen);
    && d.frames != []
    && !(c.open && r.input.answer.Error?)
    && !(c.open && r.input.answer.Data? && c.pos < |r.input.answer.bytes| && Stuck(d.rest))
  }

  /** The packet it hands over. */
  function CallOf(keeps: bool, start: map<int, Conn>, log: seq<Read>, i: nat): Delivery
    requires i < |log| && CallsBack(keeps, start, log, i)
  {
    Delivery(log[i].fd, |Decode(ConnsAfter(keeps, start, log[..i + 1])[log[i].fd].seen).frames| - 1)
  }

  lemma LastCall(keeps: bool, start: map<int, Conn>, log: seq<Read>)
    requires log != []
    ensures var k := |log| - 1;
      Deliveries(keeps, start, log)
      == Deliveries(keeps, start, log[..k])
         + if CallsBack(keeps, start, log, k) then [CallOf(keeps, start, log, k)] else []
  {
    assert log[..|log| - 1 + 1] == log;
  }

  lemma SameCall(keeps: bool, start: map<int, Conn>, log: seq<Read>, k: nat, i: nat)
    requires i < k <= |log|
    ensures CallsBack(keeps, start, log, i) <==> CallsBack(keeps, start, log[..k], i)
    ensures CallsBack(keeps, start, log, i) ==> CallOf(keeps, start, log, i) == CallOf(keeps, start, log[..k], i)
  {
    hide ConnsAfter, Decode, Stuck;
    assert log[..k][..i] == log[..i] && log[..k][..i + 1] == log[..i + 1];
  }

  /** Exactly these reads, `at` their places, call the callback: once each, in order, with the last packet completed. */
  lemma {:induction false} CallsOfReads(keeps: bool, start: map<int, Conn>, log: seq<Read>) returns (at: seq<nat>)
    ensures |at| == |Deliveries(keeps, start, log)|
    ensures forall m, n :: 0 <= m < n < |at| ==> at[m] < at[n]
    ensures forall i :: 0 <= i < |log| ==> (i in at <==> CallsBack(keeps, start, log, i))
    ensures forall n :: 0 <= n < |at| ==>
              && at[n] < |log| && CallsBack(keeps, start, log, at[n])
              && Deliveries(keeps, start, log)[n] == CallOf(keeps, start, log, at[n])
    decreases |log|
  {
    hide CallsBack, CallOf, Deliveries;
    if log == [] {
      at := [];
      NoReads(keeps, start);
    } else {
      var k := |log| - 1;
      var before := CallsOfReads(keeps, start, log[..k]);
      LastCall(keeps, start, log);
      forall i | 0 <= i < k
        ensures CallsBack(keeps, start, log, i) <==> CallsBack(keeps, start, log[..k], i)
        ensures CallsBack(keeps, start, log, i) ==> CallOf(keeps, start, log, i) == CallOf(keeps, start, log[..k], i)
      {
        SameCall(keeps, start, log, k, i);
      }
      at := before + if CallsBack(keeps, start, log, k) then [k] else [];
    }
  }

  lemma {:induction false} LogKeepsPackets(keeps: bool, start: map<int, Conn>, log: seq<Read>, fd: int)
    requires fd in start
    ensures |Decode(start[fd].seen).frames| <= |Decode(ConnsAfter(keeps, start, log)[fd].seen).frames|
    decreases |log|
  {
    if log != [] {
      var k := |log| - 1;
      LogKeepsPackets(keeps, start, log[..k], fd);
      ServedKeepsPackets(keeps, ConnsAfter(keeps, start, log[..k]), log[k], fd);
    }
  }

  /** Nor is it older than the last packet completed before. */
  lemma {:induction false} DeliveredNotBefore(keeps: bool, start: map<int, Conn>, log: seq<Read>, i: nat)
    requires i < |Deliveries(keeps, start, log)|
    ensures var d := Deliveries(keeps, start, log)[i];
      d.fd in start && d.index >= |Decode(start[d.fd].seen).frames| - 1
    decreases |log|
  {
    var k := |log| - 1;
    if i < |Deliveries(keeps, start, log[..k])| {
      DeliveredNotBefore(keeps, start, log[..k], i);
    } else {
      LogKeepsPackets(keeps, start, log[..k], log[k].fd);
      ServedKeepsPackets(keeps, ConnsAfter(keeps, start, log[..k]), log[k], log[k].fd);
    }
  }

  /** Callback history: on one connection, in any interleaving of reads on many, with failed reads, closed sockets and
      packets without a payload among them, the packets handed over never go back. */
  lemma {:induction false} CallbacksNeverDecrease(keeps: bool, start: map<int, Conn>, log: seq<Read>, i: nat, j: nat)
    requires i <= j < |Deliveries(keeps, start, log)|
    requires Deliveries(keeps, start, log)[i].fd == Deliveries(keeps, start, log)[j].fd
    ensures Deliveries(keeps, start, log)[i].index <= Deliveries(keeps, start, log)[j].index
    decreases |log|
  {
    var k := |log| - 1;
    var conns, before := ConnsAfter(keeps, start, log[..k]), Deliveries(keeps, start, log[..k]);
    if j < |before| {
      CallbacksNeverDecrease(keeps, start, log[..k], i, j);
    } else if i < |before| {
      DeliveredAreCompleted(keeps, start, log[..k], i);
      ServedKeepsPackets(keeps, conns, log[k], before[i].fd);
    }
  }

  /** A connection none of the reads is on stays as it was. */
  lemma {:induction false} NotRead(keeps: bool, start: map<int, Conn>, log: seq<Read>, fd: int)
    requires fd in start && forall r :: r in log ==> r.fd != fd
    ensures ConnsAfter(keeps, start, log)[fd] == start[fd]
    decreases |log|
  {
    if log != [] {
      NotRead(keeps, start, log[..|log| - 1], fd);
    }
  }

  /** A connection that one of the reads is on takes exactly that step. */
  lemma {:induction false} ReadOnce(keeps: bool, start: map<int, Conn>, log: seq<Read>, i: nat)
    requires i < |log| && log[i].fd in start
    requires forall j :: 0 <= j < |log| && j != i ==> log[j].fd != log[i].fd
    ensures ConnsAfter(keeps, start, log)[log[i].fd] == Next(keeps, start[log[i].fd], log[i].input)
    decreases |log|
  {
    var k := |log| - 1;
    if i == k {
      NotRead(keeps, start, log[..k], log[i].fd);
    } else {
      ReadOnce(keeps, start, log[..k], i);
    }
  }

  /** Reads one after the other: first some, then others. */
  lemma {:induction false} LogAppend(keeps: bool, start: map<int, Conn>, a: seq<Read>, b: seq<Read>)
    ensures var mid := ConnsAfter(keeps, start, a);
      && ConnsAfter(keeps, start, a + b) == ConnsAfter(keeps, mid, b)
      && Deliveries(keeps, start, a + b) == Deliveries(keeps, start, a) + Deliveries(keeps, mid, b)
    decreases |b|
  {
    hide ConnsAfter, Deliveries, Served, Handed;
    var mid := ConnsAfter(keeps, start, a);
    if b == [] {
      NoReads(keeps, mid);
      assert a + b == a;
    } else {
      var k := |b| - 1;
      LogAppend(keeps, start, a, b[..k]);
      OneMoreRead(keeps, start, a + b[..k], b[k]);
      OneMoreRead(keeps, mid, b[..k], b[k]);
      assert b == b[..k] + [b[k]];
      Assoc(a, b[..k], [b[k]]);
      Assoc(Deliveries(keeps, start, a), Deliveries(keeps, mid, b[..k]),
            Handed(keeps, ConnsAfter(keeps, mid, b[..k]), b[k]));
    }
  }

  lemma NoReads(keeps: bool, start: map<int, Conn>)
    ensures ConnsAfter(keeps, start, []) == start && Deliveries(keeps, start, []) == []
  {
  }

  // ----- each connection and the bytes received on it -----

  /** What was received on a connection: the fragments, and what the local array held at each of them. */
  datatype Traffic = Traffic(frags: seq<seq<byte>>, stacks: seq<Stack>)

  type History = t: Traffic | |t.frags| == |t.stacks| witness Traffic([], [])

  const SILENCE: History := Traffic([], [])

  function ImageOf(keeps: bool, h: History): seq<byte> {
    Image(keeps, h.frags, h.stacks)
  }

  function Both(a: History, b: History): History {
    Traffic(a.frags + b.frags, a.stacks + b.stacks)
  }

  /** A read that finds the socket open and meets bytes adds them. */
  function Hears(h: History, c: Conn, input: Input): History {
    if c.open && input.answer.Data? then Traffic(h.frags + [input.answer.bytes], h.stacks + [input.stack]) else h
  }

  /** What a sequence of reads receives on one of the connections. */
  function Own(keeps: bool, start: map<int, Conn>, log: seq<Read>, fd: int): History
    requires fd in start
    decreases |log|
  {
    if log == [] then SILENCE else
    var k := |log| - 1;
    var own := Own(keeps, start, log[..k], fd);
    if log[k].fd == fd then Hears(own, ConnsAfter(keeps, start, log[..k])[fd], log[k].input) else own
  }

  /** The stream received is well formed and, as written, the first three bytes of each frame came together. */
  predicate WireOk(keeps: bool, h: History) {
    StreamOk(Concat(h.frags)) && (keeps || HeadsWhole(h.frags))
  }

  lemma HearsImage(keeps: bool, h: History, c: Conn, input: Input)
    requires c.seen == ImageOf(keeps, h)
    ensures Next(keeps, c, input).seen == ImageOf(keeps, Hears(h, c, input))
  {
    if c.open && input.answer.Data? {
      OneMoreFragment(keeps, h.frags, h.stacks, input.answer.bytes, input.stack);
    }
  }

  lemma HearsLater(before: History, own: History, c: Conn, input: Input)
    ensures Both(before, Hears(own, c, input)) == Hears(Both(before, own), c, input)
  {
    if c.open && input.answer.Data? {
      Assoc(before.frags, own.frags, [input.answer.bytes]);
      Assoc(before.stacks, own.stacks, [input.stack]);
    }
  }

  lemma BothSilent(h: History)
    ensures Both(h, SILENCE) == h && Both(SILENCE, h) == h
  {
  }

  /** The image of a connection is that of the bytes received on it, in any interleaving with reads on others. */
  lemma {:induction false} OwnImage(keeps: bool, start: map<int, Conn>, log: seq<Read>, fd: int, before: History)
    requires fd in start && start[fd].seen == ImageOf(keeps, before)
    ensures ConnsAfter(keeps, start, log)[fd].seen == ImageOf(keeps, Both(before, Own(keeps, start, log, fd)))
    decreases |log|
  {
    hide ImageOf, Next, Hears, Both;
    if log == [] {
      BothSilent(before);
    } else {
      var k := |log| - 1;
      OwnImage(keeps, start, log[..k], fd, before);
      if log[k].fd == fd {
        var c, own := ConnsAfter(keeps, start, log[..k])[fd], Own(keeps, start, log[..k], fd);
        HearsImage(keeps, Both(before, own), c, log[k].input);
        HearsLater(before, own, c, log[k].input);
      }
    }
  }

  /** So its packets, and the partial one, are the decoding of exactly these bytes. */
  lemma EachPeerDecodesItsOwnBytes(keeps: bool, start: map<int, Conn>, log: seq<Read>, fd: int, before: History)
    requires fd in start && start[fd].seen == ImageOf(keeps, before)
    requires WireOk(keeps, Both(before, Own(keeps, start, log, fd)))
    ensures Decode(ConnsAfter(keeps, start, log)[fd].seen)
         == Decode(Concat(Both(before, Own(keeps, start, log, fd)).frags))
  {
    var all := Both(before, Own(keeps, start, log, fd));
    OwnImage(keeps, start, log, fd, before);
    ReassemblyRefinesDecode(keeps, all.frags, all.stacks);
  }

  /** The reads on one descriptor. */
  function ReadsOn(log: seq<Read>, fd: int): seq<Read> {
    if log == [] then [] else
    var k := |log| - 1;
    ReadsOn(log[..k], fd) + if log[k].fd == fd then [log[k]] else []
  }

  /** The bytes these reads bring. */
  function Fragments(log: seq<Read>): seq<seq<byte>> {
    if log == [] then [] else
    var k := |log| - 1;
    Fragments(log[..k]) + if log[k].input.answer.Data? then [log[k].input.answer.bytes] else []
  }

  /** On a connection that is still open at the end, that is all of what was received: no fragment is dropped, added,
      joined with another or taken out of order. */
  lemma {:induction false} OwnFragments(keeps: bool, start: map<int, Conn>, log: seq<Read>, fd: int)
    requires fd in start && ConnsAfter(keeps, start, log)[fd].open
    ensures Own(keeps, start, log, fd).frags == Fragments(ReadsOn(log, fd))
    decreases |log|
  {
    if log != [] {
      var k := |log| - 1;
      OwnFragments(keeps, start, log[..k], fd);
      var on := ReadsOn(log[..k], fd);
      if log[k].fd == fd {
        assert (on + [log[k]])[..|on|] == on;
      } else {
        assert ReadsOn(log, fd) == on;
      }
    }
  }

  /** Isolation: a connection and what was received on it depend only on the reads on its own descriptor. */
  lemma {:induction false} Isolation(keeps: bool, start: map<int, Conn>, log: seq<Read>, fd: int)
    requires fd in start
    ensures var alone := map[fd := start[fd]];
      && ConnsAfter(keeps, start, log)[fd] == ConnsAfter(keeps, alone, ReadsOn(log, fd))[fd]
      && Own(keeps, start, log, fd) == Own(keeps, alone, ReadsOn(log, fd), fd)
    decreases |log|
  {
    hide Next, Hears;
    if log != [] {
      var k := |log| - 1;
      Isolation(keeps, start, log[..k], fd);
      if log[k].fd == fd {
        var on := ReadsOn(log[..k], fd);
        assert (on + [log[k]])[..|on|] == on;
      } else {
        assert ReadsOn(log, fd) == ReadsOn(log[..k], fd);
      }
    }
  }

  // ----- the reads a pass requires, from the bytes received -----

  /** No read brings more than there is room for. */
  predicate Fits(keeps: bool, start: map<int, Conn>, log: seq<Read>)
    decreases |log|
  {
    log == [] ||
    var k := |log| - 1;
    var conns, r := ConnsAfter(keeps, start, log[..k]), log[k];
    && Fits(keeps, start, log[..k])
    && (r.fd in conns && conns[r.fd].open && r.input.answer.Data? ==>
          0 < |r.input.answer.bytes| <= BUFF_SIZE - conns[r.fd].pos)
  }

  /** The next read is one the connection can take if what was received up to and with it is a well-formed stream. */
  lemma WireAdmits(keeps: bool, h: History, c: Conn, input: Input)
    requires c.seen == ImageOf(keeps, h) && WireOk(keeps, Hears(h, c, input))
    requires c.open && input.answer.Data? ==> 0 < |input.answer.bytes| <= BUFF_SIZE - c.pos
    ensures Admissible(keeps, c, input) && WireOk(keeps, h)
  {
    if c.open && input.answer.Data? {
      var all := Hears(h, c, input);
      ReassemblyRefinesDecode(keeps, all.frags, all.stacks);
      OneMoreFragment(keeps, h.frags, h.stacks, input.answer.bytes, input.stack);
      ConcatLast(all.frags);
      assert all.frags[..|h.frags|] == h.frags;
      StreamOkAppend(Concat(h.frags), input.answer.bytes);
    }
  }

  /** So what a pass requires of its reads is a property of the bytes received on each connection. */
  lemma {:induction false} WireAdmissible(keeps: bool, start: map<int, Conn>, before: map<int, History>, log: seq<Read>)
    requires before.Keys == start.Keys && Fits(keeps, start, log)
    requires forall fd :: fd in start ==> start[fd].seen == ImageOf(keeps, before[fd])
    requires forall fd :: fd in start ==> WireOk(keeps, Both(before[fd], Own(keeps, start, log, fd)))
    ensures AllAdmissible(keeps, start, log)
    decreases |log|
  {
    hide ImageOf, WireOk, Hears, Both, Admissible, Next;
    if log != [] {
      var k := |log| - 1;
      var r, conns := log[k], ConnsAfter(keeps, start, log[..k]);
      if r.fd in start {
        var own := Own(keeps, start, log[..k], r.fd);
        OwnImage(keeps, start, log[..k], r.fd, before[r.fd]);
        HearsLater(before[r.fd], own, conns[r.fd], r.input);
        WireAdmits(keeps, Both(before[r.fd], own), conns[r.fd], r.input);
      }
      WireAdmissible(keeps, start, before, log[..k]);
    }
  }
}
