/** What the server does in a run, as values: its connections over turns of the polling loop and connections of its own,
    what was received on each of them, and the calls of the callback. */
module ServerRuns {
  import opened Bytes
  import opened Framing
  import opened Reassembly
  import opened Connections
  import opened PollList

  /** A turn of the polling loop, with the descriptor of the client if one was accepted, and the reads; or a connection
      to a peer. */
  datatype Move = Turned(accepted: bool, client: int, log: seq<Read>) | Dialled(fd: int)

  function LogOf(mv: Move): seq<Read> {
    if mv.Turned? then mv.log else []
  }

  /** The connections before the reads. */
  function Joining(conns: map<int, Conn>, mv: Move): map<int, Conn> {
    match mv
    case Turned(accepted, client, _) => if accepted then Joined(conns, client) else conns
    case Dialled(fd) => Dialed(conns, fd)
  }

  function Calls(keeps: bool, conns: map<int, Conn>, mv: Move): seq<Delivery> {
    Deliveries(keeps, Joining(conns, mv), LogOf(mv))
  }

  /** Behind the sweep, if there is one. */
  function After(keeps: bool, conns: map<int, Conn>, mv: Move): map<int, Conn> {
    var read := ConnsAfter(keeps, Joining(conns, mv), LogOf(mv));
    if mv.Turned? then OpenOnly(read) else read
  }

  function AfterAll(keeps: bool, moves: seq<Move>): map<int, Conn>
    decreases |moves|
  {
    if moves == [] then map[] else
    After(keeps, AfterAll(keeps, moves[..|moves| - 1]), moves[|moves| - 1])
  }

  lemma AfterKeeps(keeps: bool, conns: map<int, Conn>, mv: Move, fd: int)
    requires fd in After(keeps, conns, mv)
    ensures fd in Joining(conns, mv)
    ensures After(keeps, conns, mv)[fd] == ConnsAfter(keeps, Joining(conns, mv), LogOf(mv))[fd]
    ensures fd in conns ==> Joining(conns, mv)[fd] == conns[fd]
    ensures fd !in conns ==> Joining(conns, mv)[fd].seen == []
  {
  }

  // ----- isolation -----

  /** What was received on a connection when a move begins: nothing, if it is new. */
  function Before(h: map<int, History>, fd: int): History {
    if fd in h then h[fd] else SILENCE
  }

  /** What has been received on each connection since it was made. */
  function Heard(keeps: bool, moves: seq<Move>): (h: map<int, History>)
    ensures h.Keys == AfterAll(keeps, moves).Keys
    decreases |moves|
  {
    if moves == [] then map[] else
    var k := |moves| - 1;
    var h, conns := Heard(keeps, moves[..k]), AfterAll(keeps, moves[..k]);
    var joined, after := Joining(conns, moves[k]), After(keeps, conns, moves[k]);
    assert forall fd :: fd in after ==> fd in joined;
    map fd | fd in after :: Both(Before(h, fd), Own(keeps, joined, LogOf(moves[k]), fd))
  }

  lemma NewImage(keeps: bool, conns: map<int, Conn>, h: map<int, History>, mv: Move, fd: int)
    requires h.Keys == conns.Keys && forall g :: g in conns ==> conns[g].seen == ImageOf(keeps, h[g])
    requires fd in Joining(conns, mv)
    ensures Joining(conns, mv)[fd].seen == ImageOf(keeps, Before(h, fd))
  {
  }

  /** In every run, each connection's image is that of the bytes received on it since it was made. */
  lemma {:induction false} ServerImages(keeps: bool, moves: seq<Move>)
    ensures forall fd :: fd in AfterAll(keeps, moves) ==>
              AfterAll(keeps, moves)[fd].seen == ImageOf(keeps, Heard(keeps, moves)[fd])
    decreases |moves|
  {
    if moves != [] {
      var k := |moves| - 1;
      var conns, h, mv := AfterAll(keeps, moves[..k]), Heard(keeps, moves[..k]), moves[k];
      ServerImages(keeps, moves[..k]);
      forall fd | fd in AfterAll(keeps, moves)
        ensures AfterAll(keeps, moves)[fd].seen == ImageOf(keeps, Heard(keeps, moves)[fd])
      {
        AfterKeeps(keeps, conns, mv, fd);
        NewImage(keeps, conns, h, mv, fd);
        OwnImage(keeps, Joining(conns, mv), LogOf(mv), fd, Before(h, fd));
      }
    }
  }

  /** Server-wide isolation: in every run, the packets of each connection, and the partial one, are the decoding of
      exactly the bytes received on it, if these are well formed and, as written, the first three bytes of each frame
      came together. */
  lemma ServerDecodesEachPeersBytes(keeps: bool, moves: seq<Move>, fd: int)
    requires fd in AfterAll(keeps, moves) && WireOk(keeps, Heard(keeps, moves)[fd])
    ensures Decode(AfterAll(keeps, moves)[fd].seen) == Decode(Concat(Heard(keeps, moves)[fd].frags))
  {
    var h := Heard(keeps, moves)[fd];
    ServerImages(keeps, moves);
    ReassemblyRefinesDecode(keeps, h.frags, h.stacks);
  }

  /** And the reads of the next turn are ones its connections can take if the bytes received with them are so too. */
  lemma NextTurnAdmissible(keeps: bool, moves: seq<Move>, mv: Move)
    requires var joined, h := Joining(AfterAll(keeps, moves), mv), Heard(keeps, moves);
      && Fits(keeps, joined, LogOf(mv))
      && forall fd :: fd in joined ==> WireOk(keeps, Both(Before(h, fd), Own(keeps, joined, LogOf(mv), fd)))
    ensures AllAdmissible(keeps, Joining(AfterAll(keeps, moves), mv), LogOf(mv))
  {
    var conns, h := AfterAll(keeps, moves), Heard(keeps, moves);
    var joined := Joining(conns, mv);
    var before := map fd | fd in joined :: Before(h, fd);
    ServerImages(keeps, moves);
    forall fd | fd in joined
      ensures joined[fd].seen == ImageOf(keeps, before[fd])
    {
      NewImage(keeps, conns, h, mv, fd);
    }
    WireAdmissible(keeps, joined, before, LogOf(mv));
  }

  // ----- callbacks -----

  /** The connection is not swept between two moves. */
  predicate Stays(keeps: bool, moves: seq<Move>, fd: int, a: nat, b: nat)
    requires a <= b <= |moves|
  {
    forall c :: a < c <= b ==> fd in AfterAll(keeps, moves[..c])
  }

  function Packets(c: Conn): nat {
    |Decode(c.seen).frames|
  }

  /** What a move does to a connection's packets and to the calls on it. */
  lemma MovePackets(keeps: bool, conns: map<int, Conn>, mv: Move, fd: int)
    requires fd in conns && fd in After(keeps, conns, mv)
    ensures Packets(conns[fd]) <= Packets(After(keeps, conns, mv)[fd])
  {
    AfterKeeps(keeps, conns, mv, fd);
    LogKeepsPackets(keeps, Joining(conns, mv), LogOf(mv), fd);
  }

  lemma CalledCompleted(keeps: bool, conns: map<int, Conn>, mv: Move, i: nat)
    requires i < |Calls(keeps, conns, mv)|
    ensures var d := Calls(keeps, conns, mv)[i];
      d.fd in After(keeps, conns, mv) ==> d.index < Packets(After(keeps, conns, mv)[d.fd])
  {
    var d := Calls(keeps, conns, mv)[i];
    DeliveredAreCompleted(keeps, Joining(conns, mv), LogOf(mv), i);
    if d.fd in After(keeps, conns, mv) {
      AfterKeeps(keeps, conns, mv, d.fd);
    }
  }

  lemma CalledNotBefore(keeps: bool, conns: map<int, Conn>, mv: Move, i: nat)
    requires i < |Calls(keeps, conns, mv)|
    ensures var d := Calls(keeps, conns, mv)[i]; d.fd in conns ==> d.index >= Packets(conns[d.fd]) - 1
  {
    DeliveredNotBefore(keeps, Joining(conns, mv), LogOf(mv), i);
  }

  lemma OneMoreMove(keeps: bool, moves: seq<Move>, c: nat)
    requires c < |moves|
    ensures AfterAll(keeps, moves[..c + 1]) == After(keeps, AfterAll(keeps, moves[..c]), moves[c])
  {
    assert moves[..c + 1][..c] == moves[..c];
  }

  lemma {:induction false} PacketsStay(keeps: bool, moves: seq<Move>, fd: int, a: nat, b: nat)
    requires a < b <= |moves| && Stays(keeps, moves, fd, a, b)
    ensures Packets(AfterAll(keeps, moves[..a + 1])[fd]) <= Packets(AfterAll(keeps, moves[..b])[fd])
    decreases b
  {
    hide AfterAll, After, Packets;
    if a + 1 < b {
      PacketsStay(keeps, moves, fd, a, b - 1);
      OneMoreMove(keeps, moves, b - 1);
      MovePackets(keeps, AfterAll(keeps, moves[..b - 1]), moves[b - 1], fd);
    }
  }

  /** Callback history of a run: as long as a connection is not swept, the packets handed over on it never go back,
      from one call to a later one of the same turn or of a later turn. */
  lemma HistoryNeverDecreases(keeps: bool, moves: seq<Move>, fd: int, a: nat, i: nat, b: nat, j: nat)
    requires a <= b < |moves| && Stays(keeps, moves, fd, a, b) && (a == b ==> i <= j)
    requires var calls := Calls(keeps, AfterAll(keeps, moves[..a]), moves[a]); i < |calls| && calls[i].fd == fd
    requires var calls := Calls(keeps, AfterAll(keeps, moves[..b]), moves[b]); j < |calls| && calls[j].fd == fd
    ensures Calls(keeps, AfterAll(keeps, moves[..a]), moves[a])[i].index
         <= Calls(keeps, AfterAll(keeps, moves[..b]), moves[b])[j].index
  {
    if a == b {
      SameTurn(keeps, AfterAll(keeps, moves[..a]), moves[a], i, j);
    } else {
      LaterTurn(keeps, moves, fd, a, i, b, j);
    }
  }

  lemma SameTurn(keeps: bool, conns: map<int, Conn>, mv: Move, i: nat, j: nat)
    requires i <= j < |Calls(keeps, conns, mv)| && Calls(keeps, conns, mv)[i].fd == Calls(keeps, conns, mv)[j].fd
    ensures Calls(keeps, conns, mv)[i].index <= Calls(keeps, conns, mv)[j].index
  {
    CallbacksNeverDecrease(keeps, Joining(conns, mv), LogOf(mv), i, j);
  }

  lemma LaterTurn(keeps: bool, moves: seq<Move>, fd: int, a: nat, i: nat, b: nat, j: nat)
    requires a < b < |moves| && Stays(keeps, moves, fd, a, b)
    requires var calls := Calls(keeps, AfterAll(keeps, moves[..a]), moves[a]); i < |calls| && calls[i].fd == fd
    requires var calls := Calls(keeps, AfterAll(keeps, moves[..b]), moves[b]); j < |calls| && calls[j].fd == fd
    ensures Calls(keeps, AfterAll(keeps, moves[..a]), moves[a])[i].index
         <= Calls(keeps, AfterAll(keeps, moves[..b]), moves[b])[j].index
  {
    hide Calls, AfterAll, After, Packets;
    CalledCompleted(keeps, AfterAll(keeps, moves[..a]), moves[a], i);
    OneMoreMove(keeps, moves, a);
    PacketsStay(keeps, moves, fd, a, b);
    CalledNotBefore(keeps, AfterAll(keeps, moves[..b]), moves[b], j);
  }
}
