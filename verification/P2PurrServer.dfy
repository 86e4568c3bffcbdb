/** src/p2purr_server.cpp: the peers by socket, the descriptors given to poll, and one turn of the polling loop. The
    answers of the system are parameters; a pass takes them by the index of the entry that is read. */
module Server {
  import opened Framing
  import opened Reassembly
  import opened Packets
  import opened Sockets
  import opened Connections
  import opened Peers
  import opened WatchList
  import opened PollList
  import opened ServerRuns

  /** What a pass over the list starts from: the list, and as it is behind the listener's entry; the peers; the
      connections behind the listener's entry; the calls of the callback so far; and what each entry's read will
      meet. */
  datatype Pass = Pass(list: seq<PollFd>, grown: seq<PollFd>, start: map<int, PeerConnHandler>, joined: map<int, Conn>,
                       before: seq<(int, Packet)>, env: nat -> Input)

  ghost function Completed(peers: map<int, PeerConnHandler>): map<int, seq<Packet>>
    reads peers.Values
  {
    map fd | fd in peers :: peers[fd].completedPkts
  }

  /** The calls of the callback are those in `before` and one for each delivery, with the packet at its index. */
  ghost predicate CallsAre(calls: seq<(int, Packet)>, before: seq<(int, Packet)>, completed: map<int, seq<Packet>>,
                           ds: seq<Delivery>)
  {
    && |calls| == |before| + |ds| && before <= calls
    && forall n :: 0 <= n < |ds| ==>
         && ds[n].fd in completed && 0 <= ds[n].index < |completed[ds[n].fd]|
         && calls[|before| + n] == (ds[n].fd, completed[ds[n].fd][ds[n].index])
  }

  /** Packets handed over earlier stay where they were: a peer never takes a completed packet back. */
  lemma MoreCalls(calls: seq<(int, Packet)>, completed: map<int, seq<Packet>>,
                  calls': seq<(int, Packet)>, completed': map<int, seq<Packet>>,
                  before: seq<(int, Packet)>, ds: seq<Delivery>, more: seq<Delivery>)
    requires CallsAre(calls, before, completed, ds) && CallsAre(calls', calls, completed', more)
    requires forall fd :: fd in completed ==> fd in completed' && completed[fd] <= completed'[fd]
    ensures CallsAre(calls', before, completed', ds + more)
  {
    assert forall k :: 0 <= k < |calls| ==> calls'[k] == calls[k];
  }

  /** These are all the calls: the account determines them. */
  lemma CallsDetermined(calls: seq<(int, Packet)>, calls': seq<(int, Packet)>, before: seq<(int, Packet)>,
                        completed: map<int, seq<Packet>>, ds: seq<Delivery>)
    requires CallsAre(calls, before, completed, ds)
    ensures CallsAre(calls', before, completed, ds) <==> calls' == calls
  {
    if CallsAre(calls', before, completed, ds) {
      forall i | 0 <= i < |calls|
        ensures calls'[i] == calls[i]
      {
        if i >= |before| {
          var n := i - |before|;
          assert calls[|before| + n] == (ds[n].fd, completed[ds[n].fd][ds[n].index]) == calls'[|before| + n];
        }
      }
    }
  }

  class P2PurrServer {
    const listener: int
    const keepsPrefix: bool
    var isLocalServerRunning: bool
    var sockToPeerMap: map<int, PeerConnHandler>
    var pollfdList: seq<PollFd>
    /** The calls of `on_packet_received`. */
    var delivered: seq<(int, Packet)>

    /** The peers are well formed and share nothing with each other. */
    ghost predicate PeersValid()
      reads *
    {
      && (forall fd :: fd in sockToPeerMap ==>
            var peer := sockToPeerMap[fd]; peer.Valid() && this !in peer.Repr && peer.keepsPrefix == keepsPrefix)
      && (forall f, g :: f in sockToPeerMap && g in sockToPeerMap && f != g ==>
            sockToPeerMap[f].Repr !! sockToPeerMap[g].Repr)
    }

    ghost function Tab(): Table
      reads *
    {
      Table(map fd | fd in sockToPeerMap :: sockToPeerMap[fd].sockHelper.isSockOpen, Fds(pollfdList))
    }

    ghost predicate Valid()
      reads *
    {
      PeersValid() && listener >= 0 && Covers(Tab(), listener)
    }

    constructor (listener: int, keeps: bool)
      requires listener >= 0
      ensures Valid() && Tab() == Table(map[], [listener]) && delivered == []
      ensures this.listener == listener && keepsPrefix == keeps
    {
      this.listener, keepsPrefix := listener, keeps;
      isLocalServerRunning := false;
      sockToPeerMap, pollfdList, delivered := map[], [], [];
      new;
      AddFdToWatchList(listener, false);
    }

    /** A new entry has whatever `revents` its memory held. */
    method AddFdToWatchList(fd: int, readable: bool)
      modifies this`pollfdList
      ensures pollfdList == old(pollfdList) + [PollFd(fd, readable)]
    {
      pollfdList := pollfdList + [PollFd(fd, readable)];
    }

    ghost function Conns(): (conns: map<int, Conn>)
      reads *
      ensures conns.Keys == sockToPeerMap.Keys
    {
      map fd | fd in sockToPeerMap :: sockToPeerMap[fd].Now()
    }

    /** The callback has been called with these packets of `peers`, by connection and index, after the calls in
        `before`. */
    ghost predicate HandedOver(peers: map<int, PeerConnHandler>, before: seq<(int, Packet)>, ds: seq<Delivery>)
      reads this`delivered, peers.Values
    {
      CallsAre(delivered, before, Completed(peers), ds)
    }

    /** Only the peer of this socket is touched: its connection takes the step of this read, and the callback gets its
        last completed packet, if there is one and the read did not end in an exception. A socket that is no peer's is
        ignored. */
    method HandleClientCommunications(fd: int, input: Input)
      requires PeersValid()
      requires fd in sockToPeerMap ==> Admissible(keepsPrefix, sockToPeerMap[fd].Now(), input)
      modifies this`delivered, if fd in sockToPeerMap then sockToPeerMap[fd].Repr else {}
      ensures PeersValid() && sockToPeerMap == old(sockToPeerMap) && (old(Valid()) ==> Valid())
      ensures Conns() == Served(keepsPrefix, old(Conns()), Read(fd, input))
      ensures Tab() == if fd in sockToPeerMap && !sockToPeerMap[fd].sockHelper.isSockOpen then Hangup(old(Tab()), fd)
                       else old(Tab())
      ensures HandedOver(sockToPeerMap, old(delivered), Handed(keepsPrefix, old(Conns()), Read(fd, input)))
      ensures fd !in sockToPeerMap ==> delivered == old(delivered)
      ensures fd in sockToPeerMap ==>
                var peer, c := sockToPeerMap[fd], old(sockToPeerMap[fd].Now());
                var last := |peer.completedPkts| - 1;
                delivered == old(delivered) +
                               if Throws(c, input.answer, Decode(peer.seen).rest) || last < 0 then []
                               else [(fd, peer.completedPkts[last])]
      ensures forall g :: g in sockToPeerMap ==> old(sockToPeerMap[g].completedPkts) <= sockToPeerMap[g].completedPkts
      ensures fd in sockToPeerMap ==> forall x :: x in sockToPeerMap[fd].Repr ==>
                x in old(sockToPeerMap[fd].Repr) || fresh(x)
      ensures forall g :: g in sockToPeerMap && g != fd ==> unchanged(sockToPeerMap[g])
    {
      hide Tab, PeerConnHandler.Valid, Admissible, Next, Call, Throws, Decode, Conns, Covers, Hangup, Fds;
      ghost var conns := Conns();
      ghost var ds := Handed(keepsPrefix, conns, Read(fd, input));
      if fd in sockToPeerMap {
        var pkt := ReceiveOn(fd, input);
        ghost var call := Call(keepsPrefix, conns[fd], input);
        if pkt != null {
          OnPacketReceived(fd, pkt);
          assert ds == [Delivery(fd, call)];
        }
      }
    }

    /** The callback. */
    method OnPacketReceived(fd: int, pkt: Packet)
      requires PeersValid()
      modifies this`delivered
      ensures PeersValid() && Tab() == old(Tab())
      ensures Conns() == old(Conns()) && delivered == old(delivered) + [(fd, pkt)]
    {
      hide PeerConnHandler.Valid;
      ghost var conns := Conns();
      delivered := delivered + [(fd, pkt)];
      ConnsAre(conns);
    }

    method ReceiveOn(fd: int, input: Input) returns (pkt: Packet?)
      requires PeersValid() && fd in sockToPeerMap && Admissible(keepsPrefix, sockToPeerMap[fd].Now(), input)
      modifies sockToPeerMap[fd].Repr
      ensures PeersValid() && sockToPeerMap == old(sockToPeerMap) && (old(Valid()) ==> Valid())
      ensures Conns() == Served(keepsPrefix, old(Conns()), Read(fd, input))
      ensures Tab() == if sockToPeerMap[fd].sockHelper.isSockOpen then old(Tab()) else Hangup(old(Tab()), fd)
      ensures forall g :: g in sockToPeerMap && g != fd ==> unchanged(sockToPeerMap[g])
      ensures forall x :: x in sockToPeerMap[fd].Repr ==> x in old(sockToPeerMap[fd].Repr) || fresh(x)
      ensures old(sockToPeerMap[fd].completedPkts) <= sockToPeerMap[fd].completedPkts
      ensures var call := Call(keepsPrefix, old(Conns()[fd]), input);
        && call < |sockToPeerMap[fd].completedPkts|
        && (pkt == null <==> call < 0) && (call >= 0 ==> pkt == sockToPeerMap[fd].completedPkts[call])
      ensures var peer, c := sockToPeerMap[fd], old(sockToPeerMap[fd].Now());
        pkt == if Throws(c, input.answer, Decode(peer.seen).rest) || peer.completedPkts == [] then null
               else peer.completedPkts[|peer.completedPkts| - 1]
    {
      hide Conns, PeerConnHandler.Valid, Admissible, Next, Call, Throws, Decode, Covers, Hangup, Fds;
      ghost var before, conns := Tab(), Conns();
      ConnsHave();
      pkt := ReceiveFrom(fd, input);
      StillOpen(keepsPrefix, conns[fd], input);
      ConnsAre(Served(keepsPrefix, conns, Read(fd, input)));
      AfterHangup(before, fd);
    }

    method ReceiveFrom(fd: int, input: Input) returns (pkt: Packet?)
      requires PeersValid() && fd in sockToPeerMap && Admissible(keepsPrefix, sockToPeerMap[fd].Now(), input)
      modifies sockToPeerMap[fd].Repr
      ensures PeersValid() && sockToPeerMap == old(sockToPeerMap)
      ensures forall g :: g in sockToPeerMap && g != fd ==>
                unchanged(sockToPeerMap[g]) && sockToPeerMap[g].Now() == old(sockToPeerMap[g].Now())
      ensures forall x :: x in sockToPeerMap[fd].Repr ==> x in old(sockToPeerMap[fd].Repr) || fresh(x)
      ensures var peer := sockToPeerMap[fd];
        && peer.Now() == Next(keepsPrefix, old(peer.Now()), input) && old(peer.completedPkts) <= peer.completedPkts
        && var call := Call(keepsPrefix, old(peer.Now()), input);
          call < |peer.completedPkts| && pkt == if call < 0 then null else peer.completedPkts[call]
      ensures var peer, c := sockToPeerMap[fd], old(sockToPeerMap[fd].Now());
        pkt == if Throws(c, input.answer, Decode(peer.seen).rest) || peer.completedPkts == [] then null
               else peer.completedPkts[|peer.completedPkts| - 1]
    {
      hide PeerConnHandler.Valid, Admissible, Next, Throws, Decode;
      var peer := sockToPeerMap[fd];
      assert forall g :: g in sockToPeerMap && g != fd ==>
                           {sockToPeerMap[g], sockToPeerMap[g].sockHelper, sockToPeerMap[g].currBuffIdx} !! peer.Repr;
      var threw;
      pkt, threw := peer.RecvPkt(input);
      forall g | g in sockToPeerMap && g != fd
        ensures sockToPeerMap[g].Valid() && sockToPeerMap[g].Repr == old(sockToPeerMap[g].Repr)
        ensures sockToPeerMap[g].Repr !! peer.Repr
      {
      }
    }

    lemma ConnsHave()
      ensures forall g :: g in sockToPeerMap ==> Conns()[g] == sockToPeerMap[g].Now()
    {
    }

    lemma ConnsAre(conns: map<int, Conn>)
      requires conns.Keys == sockToPeerMap.Keys && forall g :: g in sockToPeerMap ==> sockToPeerMap[g].Now() == conns[g]
      ensures Conns() == conns
    {
      ConnsHave();
      assert forall g :: g in conns ==> Conns()[g] == conns[g];
    }

    /** The table after a read on `fd`: a connection that is closed now hung up. */
    lemma AfterHangup(before: Table, fd: int)
      requires before.peers.Keys == sockToPeerMap.Keys && before.fds == Fds(pollfdList)
      requires forall g :: g in sockToPeerMap && g != fd ==> before.peers[g] == sockToPeerMap[g].sockHelper.isSockOpen
      requires fd in sockToPeerMap && sockToPeerMap[fd].sockHelper.isSockOpen ==> before.peers[fd]
      ensures Tab() ==
                if fd in sockToPeerMap && !sockToPeerMap[fd].sockHelper.isSockOpen then Hangup(before, fd) else before
      ensures Covers(before, listener) <==> Covers(Tab(), listener)
    {
      assert Tab().peers.Keys == sockToPeerMap.Keys;
      var t := if fd in sockToPeerMap && !sockToPeerMap[fd].sockHelper.isSockOpen then Hangup(before, fd) else before;
      assert t.peers.Keys == before.peers.Keys;
      assert forall g :: g in t.peers ==> t.peers[g] == Tab().peers[g];
      assert t.peers == Tab().peers;
    }

    lemma SameKeys()
      ensures Tab().peers.Keys == sockToPeerMap.Keys && |Tab().peers| == |sockToPeerMap| == |Conns()|
    {
      assert |Conns()| == |Conns().Keys|;
      assert Tab().peers.Keys == sockToPeerMap.Keys;
      assert |Tab().peers| == |Tab().peers.Keys| && |sockToPeerMap| == |sockToPeerMap.Keys|;
    }

    lemma WithPeer(fd: int, peer: PeerConnHandler)
      requires PeersValid() && peer.Valid() && peer.keepsPrefix == keepsPrefix && this !in peer.Repr
      requires forall g :: g in sockToPeerMap ==> peer.Repr !! sockToPeerMap[g].Repr
      ensures var m := sockToPeerMap[fd := peer];
        && (forall g :: g in m ==> m[g].Valid() && this !in m[g].Repr && m[g].keepsPrefix == keepsPrefix)
        && forall f, g :: f in m && g in m && f != g ==> m[f].Repr !! m[g].Repr
    {
      hide PeerConnHandler.Valid;
    }

    method PutPeer(fd: int, peer: PeerConnHandler)
      requires PeersValid() && peer.Valid() && peer.keepsPrefix == keepsPrefix && this !in peer.Repr
      requires forall g :: g in sockToPeerMap ==> peer.Repr !! sockToPeerMap[g].Repr
      modifies this`sockToPeerMap
      ensures PeersValid() && sockToPeerMap == old(sockToPeerMap)[fd := peer]
    {
      hide PeerConnHandler.Valid;
      WithPeer(fd, peer);
      sockToPeerMap := sockToPeerMap[fd := peer];
    }

    /** The peer gets its key, unless there is one for this descriptor already. */
    method AddPeer(fd: int, peer: PeerConnHandler)
      requires PeersValid()
      requires peer.Valid() && peer.keepsPrefix == keepsPrefix && peer.sockHelper.isSockOpen && this !in peer.Repr
      requires forall g :: g in sockToPeerMap ==> peer.Repr !! sockToPeerMap[g].Repr
      modifies this`sockToPeerMap
      ensures PeersValid()
      ensures Tab() == old(if fd in Tab().peers then Tab() else Tab().(peers := Tab().peers[fd := true]))
      ensures Conns() == old(if fd in Conns() then Conns() else Conns()[fd := peer.Now()])
      ensures sockToPeerMap == if fd in old(sockToPeerMap) then old(sockToPeerMap) else old(sockToPeerMap)[fd := peer]
    {
      hide PeersValid, PeerConnHandler.Valid, Conns;
      ConnsHave();
      if fd !in sockToPeerMap {
        ghost var peers, conns := Tab().peers, Conns();
        PutPeer(fd, peer);
        assert Tab().peers == peers[fd := true];
        ConnsAre(conns[fd := peer.Now()]);
      }
    }

    /** The peers there were keep their keys. */
    ghost predicate KeepsPeers(before: map<int, PeerConnHandler>)
      reads this`sockToPeerMap
    {
      forall fd :: fd in before ==> fd in sockToPeerMap && sockToPeerMap[fd] == before[fd]
    }

    /** The descriptor is watched, and gets the peer unless it is a key already. */
    method WatchPeer(fd: int, peer: PeerConnHandler, readable: bool)
      requires Valid() && fd >= 0 && fd != listener
      requires peer.Valid() && peer.keepsPrefix == keepsPrefix && peer.sockHelper.isSockOpen && this !in peer.Repr
      requires forall g :: g in sockToPeerMap ==> peer.Repr !! sockToPeerMap[g].Repr
      modifies this`pollfdList, this`sockToPeerMap
      ensures Valid() && Tab() == Watch(old(Tab()), fd)
      ensures Conns() == old(if fd in Conns() then Conns() else Conns()[fd := peer.Now()])
      ensures pollfdList == old(pollfdList) + [PollFd(fd, readable)]
      ensures sockToPeerMap == if fd in old(sockToPeerMap) then old(sockToPeerMap) else old(sockToPeerMap)[fd := peer]
      ensures KeepsPeers(old(sockToPeerMap)) && sockToPeerMap.Keys == old(sockToPeerMap).Keys + {fd}
      ensures fd !in old(sockToPeerMap) ==> sockToPeerMap[fd] == peer
    {
      hide PeersValid, Tab, PeerConnHandler.Valid, Covers, Conns, Fds;
      WatchCovers(Tab(), fd, listener);
      WatchFd(fd, readable);
      AddPeer(fd, peer);
    }

    method WatchFd(fd: int, readable: bool)
      requires PeersValid()
      modifies this`pollfdList
      ensures PeersValid() && Tab() == old(Tab()).(fds := old(Tab()).fds + [fd]) && Conns() == old(Conns())
      ensures pollfdList == old(pollfdList) + [PollFd(fd, readable)]
    {
      hide PeerConnHandler.Valid;
      ghost var conns := Conns();
      AddFdToWatchList(fd, readable);
      ConnsAre(conns);
      assert Fds(pollfdList) == old(Tab()).fds + [fd];
    }

    /** A connection was accepted on the listener, on descriptor `clientSock`, and gets a handler, `peer`. Above the
        limit its socket is closed again. */
    method HandleNewClient(clientSock: int, readable: bool, shutdownOk: bool, closeOk: bool)
        returns (ghost peer: PeerConnHandler)
      requires Valid() && clientSock >= 0 && clientSock != listener
      modifies this`pollfdList, this`sockToPeerMap
      ensures Valid() && Tab() == Accept(old(Tab()), clientSock)
      ensures pollfdList ==
                old(pollfdList) + if |old(sockToPeerMap)| > MAX_CONNECTIONS then [] else [PollFd(clientSock, readable)]
      ensures Conns() == Joined(old(Conns()), clientSock)
      ensures var added := |old(sockToPeerMap)| <= MAX_CONNECTIONS && clientSock !in old(sockToPeerMap);
        && (forall fd :: fd in sockToPeerMap <==> fd in old(sockToPeerMap) || (added && fd == clientSock))
        && (added ==> sockToPeerMap[clientSock] == peer)
      ensures fresh(peer) && peer.seen == [] && peer.completedPkts == [] && peer.currBuffIdx.value == 0
      ensures peer.sockHelper.wire == [] && !peer.sockHelper.isSockInit
      ensures var refused := |old(sockToPeerMap)| > MAX_CONNECTIONS;
        && (peer.sockHelper.isSockOpen <==> !refused || !closeOk)
        && peer.sockHelper.sock == if peer.sockHelper.isSockOpen then clientSock else -1
      ensures KeepsPeers(old(sockToPeerMap))
      ensures forall fd :: fd in sockToPeerMap && fd !in old(sockToPeerMap) ==>
                fresh(sockToPeerMap[fd]) && fresh(sockToPeerMap[fd].Repr)
    {
      hide PeersValid, Tab, Conns, PeerConnHandler.Valid, Covers, Watch, Fds, Valid, KeepsPeers;
      SameKeys();
      var newPeer := NewPeer(clientSock);
      peer := newPeer;
      ghost var peers := sockToPeerMap;
      assert fresh(peer.Repr) && peers == old(sockToPeerMap);
      var acceptConnection := true;
      if |sockToPeerMap| > MAX_CONNECTIONS {
        acceptConnection := false;
      }
      if acceptConnection {
        WatchPeer(clientSock, newPeer, readable);
      } else {
        RefusePeer(newPeer, shutdownOk, closeOk);
        AllKept();
      }
      assert forall fd :: fd in sockToPeerMap && fd !in peers ==> sockToPeerMap[fd] == peer;
    }

    lemma AllKept()
      ensures KeepsPeers(sockToPeerMap)
    {
    }

    /** A connection of its own, and the server as it was. */
    method NewPeer(sock: int) returns (peer: PeerConnHandler)
      requires Valid()
      ensures Valid() && Tab() == old(Tab()) && Conns() == old(Conns())
      ensures peer.Valid() && fresh(peer)
      ensures fresh(peer.Repr) && peer.keepsPrefix == keepsPrefix && peer.Now() == ACCEPTED
      ensures peer.seen == [] && peer.completedPkts == [] && peer.currBuffIdx.value == 0 && peer.sockHelper.wire == []
      ensures peer.sockHelper.sock == sock && peer.sockHelper.isSockOpen && !peer.sockHelper.isSockInit
      ensures this !in peer.Repr && forall g :: g in sockToPeerMap ==> peer.Repr !! sockToPeerMap[g].Repr
    {
      hide PeerConnHandler.Valid, Covers, Fds;
      peer := new PeerConnHandler(sock, keepsPrefix);
    }

    /** The new connection is closed, and the server is as it was. */
    method RefusePeer(peer: PeerConnHandler, shutdownOk: bool, closeOk: bool)
      requires Valid() && peer.Valid() && forall g :: g in sockToPeerMap ==> peer.Repr !! sockToPeerMap[g].Repr
      modifies peer.sockHelper
      ensures Valid() && Tab() == old(Tab()) && Conns() == old(Conns())
      ensures peer.sockHelper.wire == old(peer.sockHelper.wire)
      ensures old(peer.sockHelper.isSockOpen) && !old(peer.sockHelper.isSockInit) ==>
                && !peer.sockHelper.isSockInit && (peer.sockHelper.isSockOpen <==> !closeOk)
                && peer.sockHelper.sock == if closeOk then -1 else old(peer.sockHelper.sock)
    {
      hide PeerConnHandler.Valid, Covers, Fds;
      OthersSocket(peer);
      ghost var conns := Conns();
      var closed := peer.sockHelper.CloseSock(shutdownOk, closeOk);
      Unchanged(old(Tab()), conns);
    }

    /** A connection to another peer is tried; `connected` says whether it succeeds, on descriptor `peerSock`. */
    method ConnectToPeer(peerSock: int, connected: bool, readable: bool)
      requires Valid() && peerSock >= 0 && peerSock != listener
      modifies this`pollfdList, this`sockToPeerMap
      ensures Valid() && Tab() == if connected then Connect(old(Tab()), peerSock) else old(Tab())
      ensures pollfdList == old(pollfdList) + if connected && |old(sockToPeerMap)| < MAX_CONNECTIONS
                                              then [PollFd(peerSock, readable)] else []
      ensures Conns() == if connected then After(keepsPrefix, old(Conns()), Dialled(peerSock)) else old(Conns())
      ensures var added := connected && |old(sockToPeerMap)| < MAX_CONNECTIONS && peerSock !in old(sockToPeerMap);
        && sockToPeerMap.Keys == old(sockToPeerMap).Keys + (if added then {peerSock} else {})
        && (added ==>
              var peer := sockToPeerMap[peerSock];
              && peer.seen == [] && peer.completedPkts == [] && peer.currBuffIdx.value == 0
              && peer.sockHelper.wire == []
              && peer.sockHelper.isSockInit && peer.sockHelper.isSockOpen && peer.sockHelper.sock == peerSock)
      ensures KeepsPeers(old(sockToPeerMap))
      ensures forall fd :: fd in sockToPeerMap && fd !in old(sockToPeerMap) ==>
                fresh(sockToPeerMap[fd]) && fresh(sockToPeerMap[fd].Repr)
    {
      hide PeersValid, Tab, Conns, PeerConnHandler.Valid, Covers, Watch, Fds, After;
      SameKeys();
      DialledMove(Conns(), peerSock);
      if |sockToPeerMap| < MAX_CONNECTIONS {
        var peer, threw := Dial(peerSock, connected);
        if !threw {
          WatchPeer(peerSock, peer, readable);
        }
      }
    }

    lemma DialledMove(conns: map<int, Conn>, fd: int)
      ensures After(keepsPrefix, conns, Dialled(fd)) == Dialed(conns, fd)
    {
    }

    /** A connection of its own that has tried to connect. */
    method Dial(sock: int, connected: bool) returns (peer: PeerConnHandler, threw: bool)
      requires Valid()
      ensures Valid() && Tab() == old(Tab()) && Conns() == old(Conns()) && (threw <==> !connected)
      ensures peer.Valid() && fresh(peer) && fresh(peer.Repr) && peer.keepsPrefix == keepsPrefix
      ensures connected ==> peer.Now() == CONNECTED && peer.sockHelper.isSockInit && peer.sockHelper.isSockOpen
      ensures peer.seen == [] && peer.completedPkts == [] && peer.currBuffIdx.value == 0 && peer.sockHelper.wire == []
      ensures peer.sockHelper.sock == sock
      ensures this !in peer.Repr && forall g :: g in sockToPeerMap ==> peer.Repr !! sockToPeerMap[g].Repr
    {
      hide PeersValid, Tab, Conns, PeerConnHandler.Valid, Covers, Fds;
      peer := NewPeer(sock);
      threw := TryConnect(peer, connected);
    }

    method TryConnect(peer: PeerConnHandler, connected: bool) returns (threw: bool)
      requires Valid() && peer.Valid() && forall g :: g in sockToPeerMap ==> peer.Repr !! sockToPeerMap[g].Repr
      modifies peer.sockHelper
      ensures Valid() && Tab() == old(Tab()) && Conns() == old(Conns()) && (threw <==> !connected)
      ensures peer.Valid() && peer.Now() == old(peer.Now()).(init := connected || old(peer.sockHelper.isSockInit))
      ensures peer.sockHelper.isSockInit == (connected || old(peer.sockHelper.isSockInit))
      ensures peer.sockHelper.isSockOpen == old(peer.sockHelper.isSockOpen)
      ensures peer.sockHelper.sock == old(peer.sockHelper.sock) && peer.sockHelper.wire == old(peer.sockHelper.wire)
    {
      hide PeerConnHandler.Valid, Covers, Fds;
      OthersSocket(peer);
      ghost var conns := Conns();
      threw := peer.Connect(connected);
      Unchanged(old(Tab()), conns);
    }

    lemma OthersSocket(peer: PeerConnHandler)
      requires Valid() && peer.Valid() && forall g :: g in sockToPeerMap ==> peer.Repr !! sockToPeerMap[g].Repr
      ensures forall g :: g in sockToPeerMap ==>
                sockToPeerMap[g].sockHelper in sockToPeerMap[g].Repr && peer.sockHelper !in sockToPeerMap[g].Repr
    {
    }

    lemma Unchanged(before: Table, conns: map<int, Conn>)
      requires before.fds == Fds(pollfdList) && before.peers.Keys == conns.Keys == sockToPeerMap.Keys
      requires forall g :: g in sockToPeerMap ==> sockToPeerMap[g].Now() == conns[g] && before.peers[g] == conns[g].open
      ensures Tab() == before && Conns() == conns
    {
      assert forall g :: g in sockToPeerMap ==> Tab().peers[g] == before.peers[g];
      assert Tab().peers == before.peers;
      ConnsAre(conns);
    }

    /** The sweep: every closed peer leaves the map; the iterator over the descriptors is set up once, before the loop
        over the closed sockets, so it is at the end of the list after the first of them. `fdsToRm` is the order in
        which the map was walked. */
    method RemoveDisconnectedPeers() returns (fdsToRm: seq<int>)
      requires Valid()
      modifies this`sockToPeerMap, this`pollfdList
      ensures Valid()
      ensures !isLocalServerRunning ==> Tab() == old(Tab()) && fdsToRm == []
      ensures isLocalServerRunning ==> IsOrder(fdsToRm, old(Tab())) && Tab() == Sweep(old(Tab()), fdsToRm)
      ensures Conns() == if isLocalServerRunning then OpenOnly(old(Conns())) else old(Conns())
      ensures forall fd :: fd in sockToPeerMap <==>
                             fd in old(sockToPeerMap)
                             && (isLocalServerRunning ==> old(sockToPeerMap[fd].sockHelper.isSockOpen))
      ensures forall e :: e in pollfdList ==> e in old(pollfdList)
      ensures forall fd :: fd in sockToPeerMap ==>
                fd in old(sockToPeerMap) && sockToPeerMap[fd] == old(sockToPeerMap[fd])
    {
      hide PeersValid, Tab, Conns, OpenOnly, PeerConnHandler.Valid, Covers, IsOrder, Active, Without, Fds;
      ghost var before := Tab();
      TabConns();
      NonNegativeKeys(before, listener);
      fdsToRm := [];
      if isLocalServerRunning {
        fdsToRm := SweepPeers();
        SweepCovers(before, fdsToRm, listener);
        RemoveDescriptors(fdsToRm);
      }
    }

    method SweepPeers() returns (fdsToRm: seq<int>)
      requires PeersValid()
      modifies this`sockToPeerMap
      ensures PeersValid() && IsOrder(fdsToRm, old(Tab())) && Tab() == Table(Active(old(Tab())), old(Tab()).fds)
      ensures Conns() == OpenOnly(old(Conns()))
      ensures forall fd :: fd in sockToPeerMap <==>
                             fd in old(sockToPeerMap) && old(sockToPeerMap[fd].sockHelper.isSockOpen)
      ensures forall fd :: fd in sockToPeerMap ==>
                fd in old(sockToPeerMap) && sockToPeerMap[fd] == old(sockToPeerMap[fd])
    {
      hide PeerConnHandler.Valid;
      ghost var before, conns := Tab(), Conns();
      fdsToRm := RemoveClosedPeers();
      assert PeersValid();
      RemovedFrom(before, fdsToRm);
      assert forall fd: int :: fd in OpenOnly(conns).Keys <==> fd in sockToPeerMap.Keys;
      ConnsAre(OpenOnly(conns));
    }

    /** The map without the closed peers, as a table. */
    lemma RemovedFrom(before: Table, fdsToRm: seq<int>)
      requires forall fd :: fd in sockToPeerMap <==> fd in before.peers && before.peers[fd]
      requires forall fd :: fd in sockToPeerMap ==> sockToPeerMap[fd].sockHelper.isSockOpen
      requires forall fd :: fd in fdsToRm <==> fd in before.peers && !before.peers[fd]
      requires forall i, j :: 0 <= i < j < |fdsToRm| ==> fdsToRm[i] != fdsToRm[j]
      ensures IsOrder(fdsToRm, before) && Tab().peers == Active(before)
    {
      assert forall fd: int :: fd in FdSet(fdsToRm) <==> fd in WatchList.Closed(before);
      var have, want := Tab().peers, Active(before);
      assert forall fd: int :: fd in have.Keys <==> fd in want.Keys;
      assert have.Keys == want.Keys;
      assert forall fd :: fd in have ==> have[fd] == want[fd];
      assert have == want;
    }

    /** The walk over the map. */
    method RemoveClosedPeers() returns (fdsToRm: seq<int>)
      modifies this`sockToPeerMap
      ensures var all := old(sockToPeerMap);
        sockToPeerMap == map fd | fd in all && all[fd].sockHelper.isSockOpen :: all[fd]
      ensures forall fd :: fd in fdsToRm <==> fd in old(sockToPeerMap) && !old(sockToPeerMap)[fd].sockHelper.isSockOpen
      ensures forall i, j :: 0 <= i < j < |fdsToRm| ==> fdsToRm[i] != fdsToRm[j]
    {
      fdsToRm := [];
      ghost var all := sockToPeerMap;
      var todo := sockToPeerMap.Keys;
      while todo != {}
        invariant todo <= sockToPeerMap.Keys
        invariant sockToPeerMap == map fd | fd in all && (fd in todo || all[fd].sockHelper.isSockOpen) :: all[fd]
        invariant forall fd :: fd in fdsToRm <==> fd in all && fd !in todo && !all[fd].sockHelper.isSockOpen
        invariant forall i, j :: 0 <= i < j < |fdsToRm| ==> fdsToRm[i] != fdsToRm[j]
        decreases |todo|
      {
        HasElement(todo);
        var fd :| fd in todo;
        if !sockToPeerMap[fd].sockHelper.isSockOpen {
          fdsToRm := fdsToRm + [fd];
          sockToPeerMap := sockToPeerMap - {fd};
        }
        todo := todo - {fd};
      }
    }

    /** The scan of the descriptors. */
    method RemoveDescriptors(fdsToRm: seq<int>)
      requires PeersValid()
      modifies this`pollfdList
      ensures PeersValid() && Tab().peers == old(Tab()).peers
      ensures Tab().fds == if fdsToRm == [] then old(Tab()).fds else Without(old(Tab()).fds, fdsToRm[0])
      ensures Conns() == old(Conns()) && forall e :: e in pollfdList ==> e in old(pollfdList)
    {
      hide Fds, PeerConnHandler.Valid;
      ghost var fds := Fds(pollfdList);
      var pollIt := 0;
      for k := 0 to |fdsToRm|
        invariant k == 0 ==> pollIt == 0 && Fds(pollfdList) == fds
        invariant k > 0 ==> pollIt == |pollfdList| && Fds(pollfdList) == Without(fds, fdsToRm[0])
        invariant forall e :: e in pollfdList ==> e in old(pollfdList)
      {
        pollIt := EraseFrom(pollIt, fdsToRm[k]);
      }
    }

    /** The inner loop: from the iterator on, every entry for `fd` or -1 is erased, and the iterator ends up at the
        end. */
    method EraseFrom(start: nat, fd: int) returns (pollIt: nat)
      requires start <= |pollfdList|
      modifies this`pollfdList
      ensures Fds(pollfdList) == old(Fds(pollfdList)[..start] + Without(Fds(pollfdList)[start..], fd))
      ensures pollIt == |pollfdList| && forall e :: e in pollfdList ==> e in old(pollfdList)
    {
      hide Scanned, Fds;
      ghost var fds, done := Fds(pollfdList)[start..], 0;
      ghost var kept := Fds(pollfdList)[..start];
      pollIt := start;
      ScanStarts(Fds(pollfdList), start, fd);
      while pollIt < |pollfdList|
        invariant Scanned(Fds(pollfdList), pollIt, kept, fds, done, fd)
        invariant forall e :: e in pollfdList ==> e in old(pollfdList)
        decreases |pollfdList| - pollIt
      {
        ScanStep(Fds(pollfdList), pollIt, kept, fds, done, fd);
        if pollfdList[pollIt].fd == fd || pollfdList[pollIt].fd == -1 {
          FdsErased(pollfdList, pollIt);
          pollfdList := pollfdList[..pollIt] + pollfdList[pollIt + 1..];
        } else {
          pollIt := pollIt + 1;
        }
        done := done + 1;
      }
      ScanEnds(Fds(pollfdList), pollIt, kept, fds, done, fd);
    }

    /** One more read after those in `log`. */
    method ServeEntry(fd: int, input: Input, ghost joined: map<int, Conn>, ghost log: seq<Read>,
                      ghost before: seq<(int, Packet)>)
      requires Valid() && Conns() == ConnsAfter(keepsPrefix, joined, log)
      requires HandedOver(sockToPeerMap, before, Deliveries(keepsPrefix, joined, log))
      requires AllAdmissible(keepsPrefix, joined, log + [Read(fd, input)])
      modifies this`delivered, if fd in sockToPeerMap then sockToPeerMap[fd].Repr else {}
      ensures Valid() && sockToPeerMap == old(sockToPeerMap)
      ensures Conns() == ConnsAfter(keepsPrefix, joined, log + [Read(fd, input)])
      ensures HandedOver(sockToPeerMap, before, Deliveries(keepsPrefix, joined, log + [Read(fd, input)]))
      ensures forall g, x :: g in sockToPeerMap && x in sockToPeerMap[g].Repr ==>
                x in old(sockToPeerMap[g].Repr) || fresh(x)
    {
      hide PeersValid, PeerConnHandler.Valid, Admissible, AllAdmissible, CallsAre, Conns, Tab, Covers, Hangup, Fds;
      hide ReadsOf, Serves, ConnsAfter, Deliveries, Served, Handed;
      OneMoreRead(keepsPrefix, joined, log, Read(fd, input));
      TabConns();
      ConnsHave();
      ghost var calls, completed := delivered, Completed(sockToPeerMap);
      ghost var ds, more := Deliveries(keepsPrefix, joined, log), Handed(keepsPrefix, Conns(), Read(fd, input));
      HandleClientCommunications(fd, input);
      MoreCalls(calls, completed, delivered, Completed(sockToPeerMap), before, ds, more);
    }

    /** A readable entry behind the listener's. */
    method Service(pollIt: nat, input: Input, accepts: nat, served: seq<int>, ghost p: Pass)
      requires PassAt(p, pollIt, accepts, served) && 0 < pollIt < |pollfdList| && pollfdList[pollIt].readable
      requires input == p.env(pollIt) && AllAdmissible(keepsPrefix, p.joined, ReadsOf(p.grown, p.env))
      modifies this`delivered,
               if pollfdList[pollIt].fd in sockToPeerMap then sockToPeerMap[pollfdList[pollIt].fd].Repr else {}
      ensures sockToPeerMap == old(sockToPeerMap)
      ensures PassAt(p, pollIt + 1, accepts, served + [pollfdList[pollIt].fd])
      ensures forall g, x :: g in sockToPeerMap && x in sockToPeerMap[g].Repr ==>
                x in old(sockToPeerMap[g].Repr) || fresh(x)
    {
      hide Valid, PeersValid, HandedOver, Conns, Tab, AllAdmissible, ReadsOf, Serves, ConnsAfter, Deliveries, Fds;
      ghost var log, fd := ReadsOf(p.grown[..pollIt], p.env), pollfdList[pollIt].fd;
      ReadsAdmissible(keepsPrefix, p.joined, p.grown, pollIt + 1, p.env);
      ReadsStep(p.grown, pollIt, p.env);
      OneMoreRead(keepsPrefix, p.joined, log, Read(fd, input));
      TabConns();
      ServeEntry(pollfdList[pollIt].fd, input, p.joined, log, p.before);
    }

    /** The listener's entry, readable. */
    method AcceptOne(client: PollFd, ghost p: Pass)
      requires PassAt(p, 0, 0, []) && p.list[0].readable && client.fd >= 0 && client.fd != listener
      requires p.grown == Grown(p.list, |p.start|, client) && p.joined == Joined(Conns(), client.fd)
      modifies this`pollfdList, this`sockToPeerMap
      ensures PassAt(p, 1, 1, [])
      ensures forall g, x :: g in sockToPeerMap && x in sockToPeerMap[g].Repr ==>
                (g in old(sockToPeerMap) && x in old(sockToPeerMap[g].Repr)) || fresh(x)
    {
      hide PeersValid, Conns, Tab, PeerConnHandler.Valid, Covers, Accept, Joined, Fds;
      NothingRead(p.grown, p.env);
      ghost var peer := HandleNewClient(client.fd, client.readable, true, true);
    }

    /** An entry that is not readable is passed over. */
    lemma PassOver(pollIt: nat, accepts: nat, served: seq<int>, p: Pass)
      requires PassAt(p, pollIt, accepts, served) && pollIt < |pollfdList| && !pollfdList[pollIt].readable
      requires pollIt == 0 ==> p.grown == p.list && p.joined == Conns()
      ensures PassAt(p, pollIt + 1, accepts, served)
    {
      hide Valid, ReadsOf;
      if pollIt > 0 {
        ReadsStep(p.grown, pollIt, p.env);
      } else {
        NothingRead(p.grown, p.env);
      }
    }

    /** One pass over the list after poll has filled it in. The listener, first and only there, accepts at most once;
        the list then grows by one entry, with whatever readiness its memory held, and the iterator starts over behind
        the listener. Each readable entry is then served once, in list order: the connections take exactly the steps
        of these reads, and the callback gets exactly the packets these steps hand over. */
    method PollPass(env: nat -> Input, client: PollFd) returns (accepts: nat, served: seq<int>)
      requires Valid() && isLocalServerRunning && client.fd >= 0 && client.fd != listener
      requires AllAdmissible(keepsPrefix, Joins(pollfdList, Conns(), client.fd),
                             ReadsOf(Grown(pollfdList, |sockToPeerMap|, client), env))
      modifies this`pollfdList, this`sockToPeerMap, this`delivered,
               set fd, o | fd in sockToPeerMap && o in sockToPeerMap[fd].Repr :: o
      ensures Valid() && KeepsPeers(old(sockToPeerMap))
      ensures accepts == if old(pollfdList[0].readable) then 1 else 0
      ensures pollfdList == Grown(old(pollfdList), |old(sockToPeerMap)|, client)
      ensures var entered := old(pollfdList[0].readable) && |old(sockToPeerMap)| <= MAX_CONNECTIONS;
        && pollfdList == old(pollfdList) + (if entered then [client] else [])
        && forall fd :: fd in sockToPeerMap <==> fd in old(sockToPeerMap) || (entered && fd == client.fd)
      ensures |served| == |ReadsOf(pollfdList, env)|
      ensures forall n :: 0 <= n < |served| ==> served[n] == ReadsOf(pollfdList, env)[n].fd
      ensures var joined := Joins(old(pollfdList), old(Conns()), client.fd);
        && Conns() == ConnsAfter(keepsPrefix, joined, ReadsOf(pollfdList, env))
        && HandedOver(sockToPeerMap, old(delivered), Deliveries(keepsPrefix, joined, ReadsOf(pollfdList, env)))
    {
      hide Valid, PeersValid, Conns, HandedOver, PassAt, OwnedIn, PeerConnHandler.Valid, AllAdmissible, ReadsOf;
      hide ConnsAfter, Deliveries;
      ListenerFirst();
      ghost var owned := set fd, o | fd in sockToPeerMap && o in sockToPeerMap[fd].Repr :: o;
      ghost var p := Pass(pollfdList, Grown(pollfdList, |sockToPeerMap|, client), sockToPeerMap,
                          Joins(pollfdList, Conns(), client.fd), delivered, env);
      PassStart(p, owned);
      accepts, served := PassLoop(env, client, p, owned);
    }

    lemma ListenerFirst()
      requires Valid()
      ensures pollfdList != [] && pollfdList[0].fd == listener
      ensures forall i :: 0 < i < |pollfdList| ==> pollfdList[i].fd != listener
    {
      assert forall i :: 0 <= i < |pollfdList| ==> Tab().fds[i] == pollfdList[i].fd;
    }

    lemma PassStart(p: Pass, owned: set<object>)
      requires Valid() && isLocalServerRunning && pollfdList != []
      requires p.list == pollfdList && p.start == sockToPeerMap && p.before == delivered && p.list <= p.grown
      requires owned == set fd, o | fd in sockToPeerMap && o in sockToPeerMap[fd].Repr :: o
      ensures PassAt(p, 0, 0, []) && OwnedIn(owned)
    {
      hide PeerConnHandler.Valid;
    }

    /** The loop of a pass. */
    method PassLoop(env: nat -> Input, client: PollFd, ghost p: Pass, ghost owned0: set<object>)
        returns (accepts: nat, served: seq<int>)
      requires PassAt(p, 0, 0, []) && OwnedIn(owned0) && PassOk(p, client) && p.env == env
      requires p.joined == Joins(p.list, Conns(), client.fd)
      modifies this`pollfdList, this`sockToPeerMap, this`delivered, owned0
      ensures Valid() && KeepsPeers(p.start)
      ensures pollfdList == p.grown && accepts == (if p.list[0].readable then 1 else 0)
      ensures Serves(served, ReadsOf(p.grown, env))
      ensures Conns() == ConnsAfter(keepsPrefix, p.joined, ReadsOf(p.grown, env))
      ensures HandedOver(sockToPeerMap, p.before, Deliveries(keepsPrefix, p.joined, ReadsOf(p.grown, env)))
    {
      hide Valid, PassOk, OwnedIn, HandedOver, Conns, ReadsOf, ConnsAfter, Deliveries;
      accepts, served := 0, [];
      var pollIt := 0;
      ghost var owned := owned0;
      while pollIt < |pollfdList| && isLocalServerRunning
        invariant PassAt(p, pollIt, accepts, served) && (pollIt == 0 ==> p.joined == Joins(p.list, Conns(), client.fd))
        invariant OwnedIn(owned) && forall x :: x in owned ==> x in owned0 || fresh(x)
        decreases 1 - accepts, |pollfdList| - pollIt
      {
        pollIt, accepts, served, owned := PassStep(env, client, pollIt, accepts, served, p, owned);
      }
      assert p.grown[..|p.grown|] == p.grown;
    }

    /** One turn of the polling loop: a pass, and the sweep. The connections and the calls of the callback are those
        of the move with exactly the reads of this pass; distinct descriptors stay distinct; and exactly the listener
        and the peers are polled afterwards if and only if nothing else was stale before and at most one peer was
        found closed. `peers` is the map between the two. */
    method PollTurn(env: nat -> Input, client: PollFd)
        returns (accepts: nat, served: seq<int>, fdsToRm: seq<int>, ghost peers: map<int, PeerConnHandler>)
      requires Valid() && isLocalServerRunning && client.fd >= 0 && client.fd != listener
      requires AllAdmissible(keepsPrefix, Joins(pollfdList, Conns(), client.fd),
                             ReadsOf(Grown(pollfdList, |sockToPeerMap|, client), env))
      modifies this`pollfdList, this`sockToPeerMap, this`delivered,
               set fd, o | fd in sockToPeerMap && o in sockToPeerMap[fd].Repr :: o
      ensures Valid() && (forall fd :: fd in sockToPeerMap ==> fd in peers && sockToPeerMap[fd] == peers[fd])
      ensures forall fd :: fd in sockToPeerMap <==> fd in peers && peers[fd].sockHelper.isSockOpen
      ensures var entered := old(pollfdList[0].readable) && |old(sockToPeerMap)| <= MAX_CONNECTIONS;
        forall fd :: fd in peers <==> fd in old(sockToPeerMap) || (entered && fd == client.fd)
      ensures var grown := old(Grown(pollfdList, |sockToPeerMap|, client));
        var mv := Turned(old(pollfdList[0].readable), client.fd, ReadsOf(grown, env));
        var conns := ConnsAfter(keepsPrefix, Joining(old(Conns()), mv), ReadsOf(grown, env));
        && |served| == |ReadsOf(grown, env)|
        && (forall n :: 0 <= n < |served| ==> served[n] == ReadsOf(grown, env)[n].fd)
        && HandedOver(peers, old(delivered), Calls(keepsPrefix, old(Conns()), mv))
        && Conns() == After(keepsPrefix, old(Conns()), mv)
        && (forall fd :: fd in fdsToRm <==> fd in conns && !conns[fd].open)
        && (Exact(Tab(), listener) <==>
              old(Stale(Tab(), listener)) <= (if grown == old(pollfdList) then {} else {client.fd}) && |fdsToRm| <= 1)
      ensures old(Distinct(pollfdList)) && client.fd !in old(Fds(pollfdList)) ==> Distinct(pollfdList)
    {
      hide PeersValid, PeerConnHandler.Valid, AllAdmissible, ReadsOf, ConnsAfter, Deliveries, Covers, Active;
      hide Without, Exact, Stale, HandedOver;
      hide Grown, Joins, Joining, After, Calls, Distinct, Fds, IsOrder, Conns, Tab, OpenOnly;
      ghost var list, before, conns := pollfdList, Tab(), Conns();
      TabConns();
      ListenerFirst();
      SameKeys();
      AsMove(list, conns, client, ReadsOf(Grown(list, |conns|, client), env));
      accepts, served := PollPass(env, client);
      ghost var grown := pollfdList;
      TabConns();
      PassStale(list, conns, client, listener, before, Tab());
      peers := sockToPeerMap;
      ghost var ds := Calls(keepsPrefix, conns, Turned(list[0].readable, client.fd, ReadsOf(grown, env)));
      fdsToRm := SweepTurn(Stale(before, listener), if grown == list then {} else {client.fd}, old(delivered), ds);
      if Distinct(list) && client.fd !in Fds(list) {
        GrownDistinct(list, |conns|, client);
      }
    }

    /** The sweep at the end of a turn, when nothing is stale but what was so before the pass, without the descriptor
        accepted in it. */
    method SweepTurn(ghost stale: set<int>, ghost accepted: set<int>, ghost calls: seq<(int, Packet)>,
                     ghost ds: seq<Delivery>)
        returns (fdsToRm: seq<int>)
      requires Valid() && isLocalServerRunning && Stale(Tab(), listener) == stale - accepted
      requires HandedOver(sockToPeerMap, calls, ds)
      modifies this`pollfdList, this`sockToPeerMap
      ensures Valid() && (forall fd :: fd in sockToPeerMap ==>
                            fd in old(sockToPeerMap) && sockToPeerMap[fd] == old(sockToPeerMap[fd]))
      ensures forall fd :: fd in sockToPeerMap <==>
                             fd in old(sockToPeerMap) && old(sockToPeerMap[fd]).sockHelper.isSockOpen
      ensures Conns() == OpenOnly(old(Conns()))
      ensures forall fd :: fd in fdsToRm <==> fd in old(Conns()) && !old(Conns())[fd].open
      ensures Exact(Tab(), listener) <==> stale <= accepted && |fdsToRm| <= 1
      ensures old(Distinct(pollfdList)) ==> Distinct(pollfdList)
      ensures HandedOver(old(sockToPeerMap), calls, ds)
    {
      hide PeersValid, PeerConnHandler.Valid, Covers, Active, Without, Exact, Stale, Distinct, Fds, IsOrder, Conns, Tab;
      hide OpenOnly, HandedOver;
      ghost var list, before := pollfdList, Tab();
      TabConns();
      fdsToRm := RemoveDisconnectedPeers();
      TabConns();
      SweepExactlyFrom(before, fdsToRm, stale, accepted);
      if Distinct(list) {
        SweptDistinct(list, fdsToRm, pollfdList);
      }
    }

    lemma SweepExactlyFrom(before: Table, fdsToRm: seq<int>, stale: set<int>, accepted: set<int>)
      requires Covers(before, listener) && listener >= 0 && IsOrder(fdsToRm, before)
      requires Stale(before, listener) == stale - accepted
      ensures Exact(Sweep(before, fdsToRm), listener) <==> stale <= accepted && |fdsToRm| <= 1
      ensures forall fd :: fd in fdsToRm <==> fd in before.peers && !before.peers[fd]
    {
      hide Covers, Exact;
      TurnExactly(before, fdsToRm, listener, stale, accepted);
      ClosedInOrder(fdsToRm, before);
    }

    /** The terms of a pass and those of a move. */
    lemma AsMove(list: seq<PollFd>, conns: map<int, Conn>, client: PollFd, log: seq<Read>)
      requires list != []
      ensures var mv := Turned(list[0].readable, client.fd, log);
        && Joining(conns, mv) == Joins(list, conns, client.fd)
        && After(keepsPrefix, conns, mv) == OpenOnly(ConnsAfter(keepsPrefix, Joins(list, conns, client.fd), log))
        && Calls(keepsPrefix, conns, mv) == Deliveries(keepsPrefix, Joins(list, conns, client.fd), log)
    {
    }

    /** Server-wide isolation, of the peers themselves: after any run, each peer's completed packets hold exactly the
        frames of the bytes received on its own connection, in order. */
    lemma PeersHoldTheirBytes(moves: seq<Move>, fd: int)
      requires Valid() && Conns() == AfterAll(keepsPrefix, moves) && fd in sockToPeerMap
      requires WireOk(keepsPrefix, Heard(keepsPrefix, moves)[fd])
      ensures var frames := Decode(Concat(Heard(keepsPrefix, moves)[fd].frags)).frames;
        var completed := sockToPeerMap[fd].completedPkts;
        && |completed| == |frames|
        && forall i :: 0 <= i < |frames| ==> completed[i].Holds(frames[i])
    {
      hide AfterAll, Heard, WireOk, Decode, Concat, Packet.Holds, Covers;
      ServerDecodesEachPeersBytes(keepsPrefix, moves, fd);
      ConnsHave();
    }

    lemma TabConns()
      requires Valid()
      ensures Covers(Tab(), listener) && listener >= 0
      ensures forall fd :: fd in sockToPeerMap ==> this !in sockToPeerMap[fd].Repr
      ensures Tab().fds == Fds(pollfdList) && Tab().peers.Keys == Conns().Keys
      ensures forall fd :: fd in Conns() ==> Tab().peers[fd] == Conns()[fd].open
    {
      hide PeerConnHandler.Valid, Covers, Fds;
    }

    /** What holds throughout a pass. */
    ghost predicate PassOk(p: Pass, client: PollFd) {
      && p.list != [] && p.list[0].fd == listener && p.grown == Grown(p.list, |p.start|, client)
      && (forall i :: 0 < i < |p.grown| ==> p.grown[i].fd != listener)
      && client.fd >= 0 && client.fd != listener
      && AllAdmissible(keepsPrefix, p.joined, ReadsOf(p.grown, p.env))
    }

    /** The peers consist of these objects, and the server is not among them. */
    ghost predicate OwnedIn(owned: set<object>)
      reads *
    {
      this !in owned && forall fd :: fd in sockToPeerMap ==> sockToPeerMap[fd].Repr <= owned
    }

    /** Where a pass is: before the listener's entry, or behind it with the accept done if there was one to do, and
        the reads on the entries up to here. */
    ghost predicate PassAt(p: Pass, pollIt: int, accepts: int, served: seq<int>)
      reads *
    {
      && p.list != [] && p.list <= p.grown && isLocalServerRunning && 0 <= pollIt <= |pollfdList| && Valid()
      && if pollIt == 0 then
           pollfdList == p.list && sockToPeerMap == p.start && accepts == 0 && served == [] && delivered == p.before
         else
           var log := ReadsOf(p.grown[..if pollIt <= |p.grown| then pollIt else 0], p.env);
           && pollfdList == p.grown && accepts == (if p.list[0].readable then 1 else 0) && KeepsPeers(p.start)
           && Serves(served, log) && Conns() == ConnsAfter(keepsPrefix, p.joined, log)
           && HandedOver(sockToPeerMap, p.before, Deliveries(keepsPrefix, p.joined, log))
    }

    lemma PassFacts(pollIt: nat, accepts: nat, served: seq<int>, p: Pass)
      requires PassAt(p, pollIt, accepts, served)
      ensures p.list != [] && pollfdList == if pollIt == 0 then p.list else p.grown
      ensures pollIt == 0 ==> accepts == 0 && served == [] && sockToPeerMap == p.start
      ensures Valid()
    {
    }

    lemma NowOwned(owned: set<object>, owned': set<object>)
      requires Valid() && this !in owned
      requires owned' == owned + set fd, o | fd in sockToPeerMap && o in sockToPeerMap[fd].Repr :: o
      ensures OwnedIn(owned')
    {
      hide PeerConnHandler.Valid, Covers;
    }

    lemma Owns(owned: set<object>)
      requires OwnedIn(owned)
      ensures this !in owned && forall fd :: fd in sockToPeerMap ==> sockToPeerMap[fd].Repr <= owned
    {
    }

    /** The body of the loop. */
    method PassStep(env: nat -> Input, client: PollFd, pollIt: nat, accepts: nat, served: seq<int>, ghost p: Pass,
                    ghost owned: set<object>)
        returns (pollIt': nat, accepts': nat, served': seq<int>, ghost owned': set<object>)
      requires PassAt(p, pollIt, accepts, served) && pollIt < |pollfdList|
      requires OwnedIn(owned) && PassOk(p, client) && p.env == env
      requires pollIt == 0 ==> p.joined == Joins(p.list, Conns(), client.fd)
      modifies this`pollfdList, this`sockToPeerMap, this`delivered, owned
      ensures PassAt(p, pollIt', accepts', served') && pollIt' > 0
      ensures OwnedIn(owned') && forall x :: x in owned' ==> x in owned || fresh(x)
      ensures accepts' > accepts || (accepts' == accepts && pollIt' > pollIt && pollfdList == old(pollfdList))
    {
      hide Valid, PeersValid, PassAt, OwnedIn, Conns, PeerConnHandler.Valid, AllAdmissible, ReadsOf, Joined;
      pollIt', accepts', served', owned' := pollIt, accepts, served, owned;
      Owns(owned);
      PassFacts(pollIt, accepts, served, p);
      var pfd := pollfdList[pollIt];
      if pfd.readable && pfd.fd == listener {
        AcceptOne(client, p);
        accepts' := accepts + 1;
        pollIt' := 1;
      } else {
        if pfd.readable {
          Service(pollIt, env(pollIt), accepts, served, p);
          served' := served + [pfd.fd];
        } else {
          PassOver(pollIt, accepts, served, p);
        }
        pollIt' := pollIt + 1;
      }
      PassFacts(pollIt', accepts', served', p);
      owned' := owned + set fd, o | fd in sockToPeerMap && o in sockToPeerMap[fd].Repr :: o;
      NowOwned(owned, owned');
    }
  }

  lemma ClosedInOrder(order: seq<int>, t: Table)
    requires IsOrder(order, t)
    ensures forall fd :: fd in order <==> fd in t.peers && !t.peers[fd]
  {
    assert forall fd :: fd in order <==> fd in FdSet(order);
  }

  lemma HasElement(s: set<int>)
    ensures s == {} || exists x :: x in s
  {
    if !exists x :: x in s {
      assert s == {};
    }
  }

  lemma NonNegativeKeys(t: Table, listener: int)
    requires Covers(t, listener) && listener >= 0
    ensures forall fd :: fd in t.peers ==> fd >= 0
  {
    forall fd | fd in t.peers
      ensures fd >= 0
    {
      var i :| 0 <= i < |t.fds| && t.fds[i] == fd;
    }
  }
}
