/** src/peerconnhandler.cpp: one connection's receive buffer, and the loop that cuts what was read into packets. */
module Peers {
  import opened Bytes
  import opened Framing
  import opened Reassembly
  import opened Packets
  import opened Sockets
  import opened Connections
  import Transfer

  class PeerConnHandler {
    const keepsPrefix: bool
    const recvBuffer: array<byte>
    const currBuffIdx: Position
    const sockHelper: SocketHelper

    var completedPkts: seq<Packet>
    var currentPkt: Packet?

    /** The image of all the bytes received so far. */
    ghost var seen: seq<byte>
    ghost var Repr: set<object>
    /** What the completed packets are made of: never written again. */
    ghost var Done: set<object>

    ghost predicate Own()
      reads this`Repr, this`Done
    {
      && {this, recvBuffer, currBuffIdx, sockHelper} + Done <= Repr
      && {this, recvBuffer, currBuffIdx, sockHelper} !! Done
      && recvBuffer.Length == BUFF_SIZE
    }

    /** The packets completed hold these frames, in order. */
    ghost predicate Stored(frames: seq<Frame>)
      reads this`completedPkts, this`Done, Done
    {
      && |completedPkts| == |frames|
      && (forall i :: 0 <= i < |completedPkts| ==> completedPkts[i] in Done)
      && (forall i :: 0 <= i < |completedPkts| ==> completedPkts[i].Owned() <= Done)
      && (forall i :: 0 <= i < |completedPkts| ==> completedPkts[i].Holds(frames[i]))
    }

    ghost function CurrentOwned(): set<object>
      reads this`currentPkt, currentPkt
    {
      if currentPkt == null then {} else currentPkt.Owned()
    }

    /** The current packet is ours, fed from our buffer, and shares nothing with a completed one. */
    ghost predicate Linked()
      reads this`currentPkt, this`Repr, this`Done, currentPkt, CurrentOwned()
    {
      currentPkt != null ==>
        && currentPkt in Repr && currentPkt.Owned() <= Repr && currentPkt.Owned() !! Done
        && currentPkt.keepsPrefix == keepsPrefix
        && currentPkt.buffer == recvBuffer && currentPkt.currBuffIdx == currBuffIdx
        && recvBuffer !in currentPkt.Owned() && currBuffIdx !in currentPkt.Owned()
        && currentPkt.Parsing()
    }

    /** The current packet holds the undecoded rest. */
    ghost predicate Current(rest: seq<byte>)
      reads this`currentPkt, this`Repr, this`Done, currentPkt, CurrentOwned()
    {
      Linked() && if currentPkt == null then rest == [] else currentPkt.image == Clip(rest)
    }

    /** The packets completed are the frames decoded, in order, and the current packet holds the rest. */
    ghost predicate Decoding()
      reads this, currentPkt, CurrentOwned(), Done
    {
      Own() && Stored(Decode(seen).frames) && Current(Decode(seen).rest)
    }

    /** Between calls the position is 0, except after a frame with an empty payload has stopped the decoding. */
    ghost predicate Valid()
      reads this, Repr
      ensures Valid() ==> {this, currBuffIdx, sockHelper} <= Repr
    {
      && {this, currBuffIdx, sockHelper} <= Repr && Done <= Repr
      && (currentPkt != null ==> currentPkt in Repr && currentPkt.Owned() <= Repr)
      && Decoding() && StreamOk(seen)
      && 0 <= currBuffIdx.value < BUFF_SIZE
      && (!Stuck(Decode(seen).rest) ==> currBuffIdx.value == 0)
    }

    constructor (sock: int, keeps: bool)
      ensures Valid() && fresh(Repr) && completedPkts == [] && seen == [] && keepsPrefix == keeps
      ensures Now() == ACCEPTED && sockHelper.sock == sock && sockHelper.isSockOpen && !sockHelper.isSockInit
      ensures currBuffIdx.value == 0 && recvBuffer.Length == 1500 && currentPkt == null && sockHelper.wire == []
    {
      keepsPrefix := keeps;
      recvBuffer := new byte[BUFF_SIZE];
      var pos := new Position();
      var helper := new SocketHelper(sock);
      currBuffIdx, sockHelper := pos, helper;
      completedPkts, currentPkt, seen, Done := [], null, [], {};
      new;
      Repr := {this, recvBuffer, currBuffIdx, sockHelper};
      ClearBuff();
    }

    /** Connects to the host; `ok` says whether the system could. */
    method Connect(ok: bool) returns (threw: bool)
      requires Valid()
      modifies sockHelper
      ensures Valid() && (threw <==> !ok)
      ensures sockHelper.isSockInit == (ok || old(sockHelper.isSockInit))
      ensures sockHelper.isSockOpen == old(sockHelper.isSockOpen) && sockHelper.sock == old(sockHelper.sock)
      ensures sockHelper.wire == old(sockHelper.wire)
    {
      threw := !ok;
      if ok {
        sockHelper.isSockInit := true;
      }
    }

    /** Sends a built packet. An exception is swallowed: whatever the system accepted before it has gone out, and the
        next send follows it directly. Each call adds one write to the log of the connection. */
    method SendPkt(pkt: Packet, offers: seq<int>, ghost m: Message, ghost writes: seq<Transfer.Write>)
      requires Valid() && pkt.Holds(Encode(m)) && sockHelper.wire == Transfer.Log(writes)
      requires Ends(offers, |Encode(m)|) && forall k :: k in offers ==> k >= -1
      modifies sockHelper`wire
      ensures Valid()
      ensures sockHelper.wire == old(sockHelper.wire) + Encode(m)[..Accepted(offers, |Encode(m)|)]
      ensures sockHelper.wire == Transfer.Log(writes + [Transfer.Write(m, Encode(m), Accepted(offers, |Encode(m)|))])
    {
      hide Packet.Holds, Encode, Transfer.Log, Accepted, Ends;
      Transmit(pkt, offers, m);
      Transfer.OneMoreWrite(writes, m, Accepted(offers, |Encode(m)|));
    }

    method Transmit(pkt: Packet, offers: seq<int>, ghost m: Message)
      requires pkt.Holds(Encode(m)) && Ends(offers, |Encode(m)|) && forall k :: k in offers ==> k >= -1
      modifies sockHelper`wire
      ensures sockHelper.wire == old(sockHelper.wire) + Encode(m)[..Accepted(offers, |Encode(m)|)]
    {
      hide Encode, Accepted, Ends;
      var ok, threw := sockHelper.SendData(pkt.builtPkt, pkt.pktLen, offers);
      ghost var k := Accepted(offers, pkt.pktLen);
      assert pkt.builtPkt[..k] == pkt.builtPkt[..][..k] == Encode(m)[..k];
    }

    method ClearBuff()
      modifies recvBuffer, currBuffIdx
      ensures currBuffIdx.value == 0 && forall i :: 0 <= i < recvBuffer.Length ==> recvBuffer[i] == 0
      ensures old(Decoding()) ==> Decoding()
    {
      forall i | 0 <= i < recvBuffer.Length {
        recvBuffer[i] := 0;
      }
      currBuffIdx.value := 0;
    }

    /** In the loop: what is left of the buffer takes the image from `seen` to `next`; or a frame with an empty payload
        is in front, and stays there. */
    ghost predicate Underway(next: seq<byte>, recvLen: nat, stack: Stack)
      reads this`seen, recvBuffer, currBuffIdx
    {
      && StreamOk(next) && recvBuffer.Length == BUFF_SIZE && 0 <= currBuffIdx.value < recvLen <= BUFF_SIZE
      && var rest, frag := Decode(seen).rest, recvBuffer[currBuffIdx.value..recvLen];
      && if Stuck(rest) then next == seen else
           && next == See(keepsPrefix, seen, frag, stack)
           && !Crashes(keepsPrefix, rest, frag)
           && (|rest| in {1, 2} ==> currBuffIdx.value == 0)
    }

    method StartPacket(recvLen: nat, ghost rest: seq<byte>)
      requires Own() && Current(rest) && recvLen <= BUFF_SIZE
      modifies this`currentPkt, this`Repr
      ensures Own() && Current(rest) && currentPkt != null
      ensures currentPkt.Owned() <= Repr - {this, recvBuffer, sockHelper} && currentPkt.Owned() !! Done
      ensures (forall x :: x in Repr ==> x in old(Repr) || fresh(x))
    {
      if currentPkt == null {
        var p := new Packet.Receiving(recvBuffer, currBuffIdx, recvLen, keepsPrefix);
        currentPkt := p;
        Repr := Repr + p.Owned();
      }
    }

    /** The current packet is fed what is left of the buffer. */
    method FeedPacket(recvLen: nat, stack: Stack, ghost rest: seq<byte>, ghost frag: seq<byte>, ghost ahead: seq<byte>)
        returns (threw: bool)
      requires Own() && Current(rest) && currentPkt != null
      requires 0 <= currBuffIdx.value < recvLen <= BUFF_SIZE && frag == recvBuffer[currBuffIdx.value..recvLen]
      requires |Clip(rest)| in {1, 2} ==> currBuffIdx.value == 0
      requires !Crashes(keepsPrefix, Clip(rest), frag)
      requires Viewed(ahead, keepsPrefix, Clip(rest), frag, stack) && FrontOk(ahead)
      modifies this`Repr, currentPkt.Owned(), currBuffIdx
      ensures (forall x :: x in Repr ==> x in old(Repr) || fresh(x)) && Own()
      ensures currBuffIdx.value == recvLen - (|ahead| - |currentPkt.image|)
      ensures (threw <==> Stuck(ahead)) && (currentPkt.pktBuilt <==> HasFrame(ahead))
      ensures currentPkt in Repr && currentPkt.Owned() <= Repr
      ensures recvBuffer !in currentPkt.Owned() && currentPkt.Owned() !! Done
      ensures HasFrame(ahead) ==>
                currentPkt.Holds(ahead[..FrameLen(ahead)]) && currentPkt.image == ahead[..FrameLen(ahead)]
      ensures !HasFrame(ahead) ==> Linked() && currentPkt.image == Clip(ahead)
    {
      hide Viewed, Crashes, FrontOk, Clip, HasFrame, Stuck, FrameLen, PayloadLen, Packet.FieldsAre;
      currentPkt.SetBuffSize(recvLen);
      threw := currentPkt.Rebuild(stack, ahead, frag);
      Repr := Repr + currentPkt.Owned();
    }

    /** The body of the loop: one packet is started if there is none, fed, and stored if it is done. */
    method RebuildOnce(recvLen: nat, stack: Stack, ghost frames: seq<Frame>, ghost rest: seq<byte>,
                       ghost frag: seq<byte>, ghost ahead: seq<byte>)
        returns (threw: bool)
      requires Own() && Stored(frames) && Current(rest) && Clip(rest) == rest
      requires 0 <= currBuffIdx.value < recvLen <= BUFF_SIZE && frag == recvBuffer[currBuffIdx.value..recvLen]
      requires |rest| in {1, 2} ==> currBuffIdx.value == 0
      requires !Crashes(keepsPrefix, rest, frag)
      requires Viewed(ahead, keepsPrefix, rest, frag, stack) && FrontOk(ahead)
      modifies this`completedPkts, this`currentPkt, this`Done, this`Repr, Repr - {this, sockHelper, recvBuffer}
      ensures (forall x :: x in Repr ==> x in old(Repr) || fresh(x)) && Own()
      ensures old(completedPkts) <= completedPkts
      ensures Stored(if HasFrame(ahead) then frames + [ahead[..FrameLen(ahead)]] else frames)
      ensures Current(if HasFrame(ahead) then [] else ahead)
      ensures currBuffIdx.value == recvLen - (|ahead| - if HasFrame(ahead) then FrameLen(ahead) else |Clip(ahead)|)
      ensures threw <==> Stuck(ahead)
    {
      hide Viewed, Crashes, FrontOk, Stored, Linked;
      StartPacket(recvLen, rest);
      threw := FeedPacket(recvLen, stack, rest, frag, ahead);
      if !threw && currentPkt.pktBuilt {
        StorePacket(frames, ahead);
      }
    }

    method StorePacket(ghost frames: seq<Frame>, ghost ahead: seq<byte>)
      requires Own() && Stored(frames) && currentPkt != null
      requires currentPkt in Repr && currentPkt.Owned() <= Repr && recvBuffer !in currentPkt.Owned()
      requires currentPkt.Owned() !! Done
      requires HasFrame(ahead) && currentPkt.Holds(ahead[..FrameLen(ahead)])
      modifies this`completedPkts, this`currentPkt, this`Done
      ensures Own() && Stored(frames + [ahead[..FrameLen(ahead)]]) && Current([])
      ensures completedPkts == old(completedPkts) + [old(currentPkt)]
    {
      hide Packet.Holds, Packet.Parsing, HasFrame, FrameLen;
      completedPkts := completedPkts + [currentPkt];
      Done := Done + currentPkt.Owned();
      currentPkt := null;
    }

    /** One turn of the loop, seen from the stream. Every turn that does not throw takes at least one byte. */
    method Turn(recvLen: nat, stack: Stack, ghost next: seq<byte>) returns (threw: bool)
      requires Decoding() && Underway(next, recvLen, stack)
      modifies Repr - {sockHelper, recvBuffer}
      ensures (forall x :: x in Repr ==> x in old(Repr) || fresh(x))
      ensures old(completedPkts) <= completedPkts
      ensures old(currBuffIdx.value) <= currBuffIdx.value <= recvLen && (threw ==> currBuffIdx.value < recvLen)
      ensures !threw ==> old(currBuffIdx.value) < currBuffIdx.value
      ensures Decoding()
      ensures threw || currBuffIdx.value >= recvLen ==> seen == next && (threw <==> Stuck(Decode(next).rest))
      ensures var p0, rest0 := old(currBuffIdx.value), old(Decode(seen).rest);
        threw ==> currBuffIdx.value == PosAfter(p0, rest0, Decode(next).rest, recvLen)
      ensures !threw ==> !Stuck(Decode(seen).rest)
      ensures Stuck(old(Decode(seen).rest)) ==> threw
      ensures !threw && currBuffIdx.value < recvLen ==> Underway(next, recvLen, stack)
    {
      ghost var d, frag := Decode(seen), recvBuffer[currBuffIdx.value..recvLen];
      ghost var stuck, ahead := Stuck(d.rest), Clip(d.rest) + frag;
      if stuck {
        DecodeYieldsFrames(seen);
        StuckStep(keepsPrefix, d.rest, frag, stack);
      } else {
        ahead := NextStep(keepsPrefix, seen, frag, stack);
      }
      threw := TurnWith(recvLen, stack, next, d, frag, ahead, stuck);
    }

    method TurnWith(recvLen: nat, stack: Stack, ghost next: seq<byte>, ghost d: Decoded, ghost frag: seq<byte>,
                    ghost ahead: seq<byte>, ghost stuck: bool)
        returns (threw: bool)
      requires Decoding() && d == Decode(seen)
      requires 0 <= currBuffIdx.value < recvLen <= BUFF_SIZE && frag == recvBuffer[currBuffIdx.value..recvLen]
      requires var held := Clip(d.rest);
        && (|held| in {1, 2} ==> currBuffIdx.value == 0)
        && !Crashes(keepsPrefix, held, frag) && Clip(held) == held && |ahead| == |held| + |frag|
        && Viewed(ahead, keepsPrefix, held, frag, stack) && FrontOk(ahead)
      requires stuck <==> Stuck(d.rest)
      requires stuck ==> Stuck(ahead) && Clip(ahead) == Clip(d.rest) && next == seen
      requires !stuck ==> Clip(d.rest) == d.rest && StreamOk(next)
      requires !stuck && !HasFrame(ahead) ==> Decode(next) == Decoded(d.frames, ahead) && |d.rest| <= |Clip(ahead)|
      requires !stuck && HasFrame(ahead) ==> FrameTaken(d, ahead, frag, next)
      modifies Repr - {sockHelper, recvBuffer}
      ensures (forall x :: x in Repr ==> x in old(Repr) || fresh(x))
      ensures old(completedPkts) <= completedPkts
      ensures old(currBuffIdx.value) <= currBuffIdx.value <= recvLen && (threw ==> currBuffIdx.value < recvLen)
      ensures !threw ==> old(currBuffIdx.value) < currBuffIdx.value
      ensures Decoding()
      ensures threw || currBuffIdx.value >= recvLen ==> seen == next && (threw <==> Stuck(Decode(next).rest))
      ensures var p0, rest0 := old(currBuffIdx.value), old(Decode(seen).rest);
        threw ==> currBuffIdx.value == PosAfter(p0, rest0, Decode(next).rest, recvLen)
      ensures !threw ==> !Stuck(Decode(seen).rest)
      ensures Stuck(old(Decode(seen).rest)) ==> threw
      ensures !threw && currBuffIdx.value < recvLen ==> Underway(next, recvLen, stack)
    {
      hide PeerConnHandler.Stored, PeerConnHandler.Linked, StreamOk, See, Crashes, Viewed, FrontOk;
      ghost var p0 := currBuffIdx.value;
      threw := RebuildOnce(recvLen, stack, d.frames, Clip(d.rest), frag, ahead);
      if !stuck {
        Took(d, ahead, frag, next, p0, recvLen, stack);
      }
    }

    ghost method Took(d: Decoded, ahead: seq<byte>, frag: seq<byte>, next: seq<byte>, p0: nat, recvLen: nat,
                      stack: Stack)
      requires Own() && StreamOk(next) && p0 < recvLen <= BUFF_SIZE && frag == recvBuffer[p0..recvLen]
      requires Stored(if HasFrame(ahead) then d.frames + [ahead[..FrameLen(ahead)]] else d.frames)
      requires Current(if HasFrame(ahead) then [] else ahead)
      requires currBuffIdx.value == recvLen - (|ahead| - if HasFrame(ahead) then FrameLen(ahead) else |Clip(ahead)|)
      requires |ahead| == |d.rest| + |frag|
      requires !HasFrame(ahead) ==> Decode(next) == Decoded(d.frames, ahead) && |d.rest| <= |Clip(ahead)|
      requires HasFrame(ahead) ==> FrameTaken(d, ahead, frag, next)
      modifies this`seen
      ensures p0 <= currBuffIdx.value <= recvLen && (Stuck(ahead) ==> currBuffIdx.value < recvLen)
      ensures !Stuck(ahead) ==> p0 < currBuffIdx.value
      ensures Decoding()
      ensures Stuck(ahead) || currBuffIdx.value >= recvLen ==>
                seen == next && (Stuck(ahead) <==> Stuck(Decode(next).rest))
      ensures Stuck(ahead) ==> Decode(next).rest == ahead
      ensures !Stuck(ahead) ==> !Stuck(Decode(seen).rest)
      ensures !Stuck(ahead) && currBuffIdx.value < recvLen ==> Underway(next, recvLen, stack)
    {
      hide PeerConnHandler.Decoding, PeerConnHandler.Underway, PeerConnHandler.Stored, PeerConnHandler.Current;
      hide StreamOk;
      if HasFrame(ahead) {
        TookFrame(Concat(d.frames) + ahead[..FrameLen(ahead)], next, frag, p0, recvLen, stack);
      } else {
        TookAll(next);
      }
    }

    ghost method TookFrame(after: seq<byte>, next: seq<byte>, frag: seq<byte>, p0: nat, recvLen: nat, stack: Stack)
      requires Own() && Stored(Decode(after).frames) && Current([]) && Decode(after).rest == []
      requires p0 <= currBuffIdx.value <= recvLen <= BUFF_SIZE && frag == recvBuffer[p0..recvLen]
      requires next == after + frag[currBuffIdx.value - p0..] && StreamOk(next)
      modifies this`seen
      ensures Decoding() && Decode(seen).rest == []
      ensures currBuffIdx.value >= recvLen ==> seen == next && !Stuck(Decode(next).rest)
      ensures currBuffIdx.value < recvLen ==> Underway(next, recvLen, stack)
    {
      hide StreamOk, See, View, Concat;
      seen := after;
      assert frag[currBuffIdx.value - p0..] == recvBuffer[currBuffIdx.value..recvLen];
      SeeAppends(keepsPrefix, after, recvBuffer[currBuffIdx.value..recvLen], stack);
    }

    ghost method TookAll(next: seq<byte>)
      requires Own() && Stored(Decode(next).frames) && Current(Decode(next).rest)
      modifies this`seen
      ensures Decoding() && seen == next
    {
      seen := next;
    }

    ghost function Now(): Conn
      reads this`seen, currBuffIdx, sockHelper
    {
      Conn(seen, currBuffIdx.value, sockHelper.isSockOpen, sockHelper.isSockInit)
    }

    /** Reads once and rebuilds. The connection takes the step that the read means for its value, written out here: the
        image takes in the bytes read, if there are any, and the packets completed are then exactly its frames; a
        failed read changes nothing and throws; only an orderly close can close the socket. The last packet completed
        is returned unless there is none or the call ended in an exception. */
    method RecvPkt(input: Input) returns (pkt: Packet?, threw: bool)
      requires Valid() && Admissible(keepsPrefix, Now(), input)
      modifies Repr
      ensures Valid() && (forall x :: x in Repr ==> x in old(Repr) || fresh(x))
      ensures Now() == Next(keepsPrefix, old(Now()), input)
      ensures old(completedPkts) <= completedPkts && |completedPkts| == |Decode(seen).frames|
      ensures threw <==> Throws(old(Now()), input.answer, Decode(seen).rest)
      ensures var call := Call(keepsPrefix, old(Now()), input); pkt == if call < 0 then null else completedPkts[call]
      ensures pkt == null <==> threw || completedPkts == []
      ensures !threw && completedPkts != [] ==> pkt == completedPkts[|completedPkts| - 1]
      ensures var rest := Decode(seen).rest;
        threw <==> old(sockHelper.isSockOpen) &&
                     (input.answer.Error? ||
                        (input.answer.Data? && old(currBuffIdx.value) < |input.answer.bytes|
                           && |rest| >= FULL_HDR_LEN && PayloadLen(rest) == 0 && FullHeaderLen(rest) < |rest|))
      ensures old(sockHelper.isSockOpen) && input.answer.Data? ==>
                && seen == See(keepsPrefix, old(seen), input.answer.bytes, input.stack)
                && var n, before, rest := |input.answer.bytes|, old(Decode(seen).rest), Decode(seen).rest;
                   currBuffIdx.value == if Stuck(before) then old(currBuffIdx.value)
                                        else if Stuck(rest) then n - (|rest| - FullHeaderLen(rest))
                                        else 0
      ensures !(old(sockHelper.isSockOpen) && input.answer.Data?) ==>
                && seen == old(seen) && currBuffIdx.value == old(currBuffIdx.value)
                && completedPkts == old(completedPkts) && currentPkt == old(currentPkt)
      ensures var closing := old(sockHelper.isSockOpen) && input.answer.Closed?;
        && (sockHelper.isSockOpen <==>
              old(sockHelper.isSockOpen)
              && !(closing && (!old(sockHelper.isSockInit) || input.shutdownOk) && input.closeOk))
        && (sockHelper.isSockInit <==> old(sockHelper.isSockInit) && !(closing && input.shutdownOk))
        && sockHelper.sock == if closing && !sockHelper.isSockOpen then -1 else old(sockHelper.sock)
      ensures sockHelper.wire == old(sockHelper.wire)
    {
      hide PeerConnHandler.Valid, PeerConnHandler.Decoding, Next, PosAfter, See, StreamOk, Crashes, Decode;
      hide PayloadLen, Admissible;
      NextFields(keepsPrefix, Now(), input);
      PacketCount();
      threw := ReceiveAndRebuild(input);
      PacketCount();
      pkt := null;
      if !threw && completedPkts != [] {
        pkt := completedPkts[|completedPkts| - 1];
      }
    }

    lemma PacketCount()
      requires Valid()
      ensures |completedPkts| == |Decode(seen).frames|
    {
    }

    method ReceiveAndRebuild(input: Input) returns (threw: bool)
      requires Valid() && Admissible(keepsPrefix, Now(), input)
      modifies Repr
      ensures Valid() && (forall x :: x in Repr ==> x in old(Repr) || fresh(x))
      ensures Now() == Next(keepsPrefix, old(Now()), input)
      ensures old(completedPkts) <= completedPkts
      ensures !(old(sockHelper.isSockOpen) && input.answer.Data?) ==> currentPkt == old(currentPkt)
      ensures threw <==> Throws(old(Now()), input.answer, Decode(seen).rest)
      ensures sockHelper.wire == old(sockHelper.wire)
      ensures sockHelper.sock ==
                if old(sockHelper.isSockOpen) && !sockHelper.isSockOpen then -1 else old(sockHelper.sock)
    {
      hide PeerConnHandler.Stored, See, StreamOk, Crashes, Decode, Stuck, Clip;
      ghost var next := Next(keepsPrefix, Now(), input).seen;
      var recvLen;
      recvLen, threw := ReadSome(input, next);
      if recvLen > 0 && currBuffIdx.value < recvLen {
        threw := RebuildAll(recvLen, input.stack, next);
      }
    }

    /** The read: afterwards either there is nothing to rebuild, or the loop can start. */
    method ReadSome(input: Input, ghost next: seq<byte>) returns (recvLen: nat, threw: bool)
      requires Valid() && Admissible(keepsPrefix, Now(), input) && next == Next(keepsPrefix, Now(), input).seen
      modifies this`seen, recvBuffer, sockHelper
      ensures recvLen == if old(sockHelper.isSockOpen) && input.answer.Data? then |input.answer.bytes| else 0
      ensures recvLen > 0 && currBuffIdx.value < recvLen ==>
                Decoding() && Underway(next, recvLen, input.stack)
      ensures recvLen == 0 || currBuffIdx.value >= recvLen ==> Valid() && seen == next
      ensures Stuck(Decode(seen).rest) <==> Stuck(old(Decode(seen).rest))
      ensures recvLen > 0 && currBuffIdx.value >= recvLen ==> Stuck(Decode(seen).rest)
      ensures threw <==> old(sockHelper.isSockOpen) && input.answer.Error?
      ensures Socket() == old(NextSocket(input)) && sockHelper.wire == old(sockHelper.wire)
    {
      hide PeerConnHandler.Stored, PeerConnHandler.Current, Decode, Stuck, See, StreamOk, Crashes, PosAfter, Clip;
      if sockHelper.isSockOpen && input.answer.Data? {
        AfterRead(keepsPrefix, seen, input.answer.bytes, input.stack);
      }
      recvLen, threw := Read(input);
      if recvLen > 0 && Stuck(Decode(seen).rest) {
        TakeIn(next);
      } else if recvLen > 0 {
        assert recvBuffer[0..recvLen] == input.answer.bytes;
        assert Underway(next, recvLen, input.stack);
      }
    }

    /** The socket: open, initialised, and its descriptor. */
    ghost function Socket(): (bool, bool, int)
      reads sockHelper
    {
      (sockHelper.isSockOpen, sockHelper.isSockInit, sockHelper.sock)
    }

    /** What a read does to it. */
    ghost function NextSocket(input: Input): (bool, bool, int)
      reads this`seen, currBuffIdx, sockHelper
    {
      var c := Next(keepsPrefix, Now(), input);
      (c.open, c.init, if sockHelper.isSockOpen && !c.open then -1 else sockHelper.sock)
    }

    method Read(input: Input) returns (recvLen: nat, threw: bool)
      requires Decoding() && 0 <= currBuffIdx.value < BUFF_SIZE
      requires input.answer.Data? && sockHelper.isSockOpen ==> 0 < |input.answer.bytes| <= BUFF_SIZE - currBuffIdx.value
      modifies recvBuffer, sockHelper
      ensures Decoding()
      ensures recvLen == if old(sockHelper.isSockOpen) && input.answer.Data? then |input.answer.bytes| else 0
      ensures recvLen > 0 ==> recvBuffer[currBuffIdx.value..currBuffIdx.value + recvLen] == input.answer.bytes
      ensures threw <==> old(sockHelper.isSockOpen) && input.answer.Error?
      ensures Socket() == old(NextSocket(input)) && sockHelper.wire == old(sockHelper.wire)
    {
      hide Decode, HasFrame, FrontOk;
      var at := currBuffIdx.value;
      recvLen, threw := sockHelper.Receive(recvBuffer, at, BUFF_SIZE - at, [input.answer],
                                           input.shutdownOk, input.closeOk);
    }

    /** The loop over what was read. */
    method RebuildAll(recvLen: nat, stack: Stack, ghost next: seq<byte>) returns (threw: bool)
      requires Decoding() && Underway(next, recvLen, stack)
      modifies Repr - {sockHelper}
      ensures (forall x :: x in Repr ==> x in old(Repr) || fresh(x))
      ensures old(completedPkts) <= completedPkts
      ensures Decoding() && seen == next && 0 <= currBuffIdx.value < BUFF_SIZE
      ensures threw <==> Stuck(Decode(next).rest)
      ensures currBuffIdx.value == PosAfter(old(currBuffIdx.value), old(Decode(seen).rest), Decode(next).rest, recvLen)
      ensures !threw ==> currBuffIdx.value == 0
    {
      hide PeerConnHandler.Stored, PeerConnHandler.Current, StreamOk, See, Crashes, Decode, Stuck;
      threw := false;
      ghost var p0, rest0 := currBuffIdx.value, Decode(seen).rest;
      while currBuffIdx.value < recvLen
        invariant (forall x :: x in Repr ==> x in old(Repr) || fresh(x))
        invariant old(completedPkts) <= completedPkts
        invariant 0 <= currBuffIdx.value <= recvLen <= BUFF_SIZE
        invariant Decoding()
        invariant Stuck(rest0) <==> Stuck(Decode(seen).rest)
        invariant Stuck(rest0) ==> currBuffIdx.value == p0
        invariant currBuffIdx.value < recvLen ==> Underway(next, recvLen, stack)
        invariant currBuffIdx.value >= recvLen ==> seen == next && !Stuck(Decode(next).rest)
        decreases recvLen - currBuffIdx.value
      {
        threw := Turn(recvLen, stack, next);
        if threw {
          return;
        }
      }
      if currBuffIdx.value >= recvLen {
        ClearBuff();
      }
    }

    /** Bytes received after the decoding has stopped change nothing but the record of the stream. */
    ghost method TakeIn(next: seq<byte>)
      requires Decoding() && StreamOk(next) && Stuck(Decode(seen).rest)
      requires Decode(next).frames == Decode(seen).frames && Stuck(Decode(next).rest)
      requires Clip(Decode(next).rest) == Clip(Decode(seen).rest)
      modifies this`seen
      ensures Decoding() && seen == next
    {
      seen := next;
    }
  }

  /** Bytes past the third are the same in the view and in the fragment. */
  lemma ViewTail(keeps: bool, held: seq<byte>, frag: seq<byte>, stack: Stack, i: nat)
    requires i <= |frag| && |held| + i >= 3
    ensures View(keeps, held, frag, stack)[|held| + i..] == frag[i..]
  {
  }

  /** The header of a frame with an empty payload, with more bytes behind it. */
  lemma StuckStep(keeps: bool, rest: seq<byte>, frag: seq<byte>, stack: Stack)
    requires Stuck(rest) && FrontOk(rest) && frag != []
    ensures var held := Clip(rest);
      && |held| >= FULL_HDR_LEN && Clip(held) == held
      && Stuck(held + frag) && FrontOk(held + frag) && Clip(held + frag) == held
      && Viewed(held + frag, keeps, held, frag, stack)
  {
    var held := Clip(rest);
    assert rest == held + rest[|held|..];
    FrontStable(held, rest[|held|..]);
    FrontStable(held, frag);
    ViewedIsView(held + frag, keeps, held, frag, stack);
  }

  /** Bytes read after the decoding has stopped leave it stopped. */
  lemma AfterRead(keeps: bool, seen: seq<byte>, frag: seq<byte>, stack: Stack)
    requires StreamOk(seen) && StreamOk(See(keeps, seen, frag, stack))
    ensures var next := See(keeps, seen, frag, stack);
      Stuck(Decode(seen).rest) ==>
        && next == seen + frag && Decode(next).frames == Decode(seen).frames && Stuck(Decode(next).rest)
        && Clip(Decode(next).rest) == Clip(Decode(seen).rest)
  {
    var rest := Decode(seen).rest;
    if Stuck(rest) {
      SeeAppends(keeps, seen, frag, stack);
      StuckForever(seen, frag);
      DecodeYieldsFrames(seen);
      FrontStable(rest, frag);
      assert (rest + frag)[..FullHeaderLen(rest)] == rest[..FullHeaderLen(rest)];
    }
  }

  /** What a packet is about to see of a well-formed image is well formed. */
  lemma AheadOk(keeps: bool, seen: seq<byte>, frag: seq<byte>, stack: Stack)
    requires StreamOk(See(keeps, seen, frag, stack))
    ensures FrontOk(View(keeps, Decode(seen).rest, frag, stack))
  {
    var d := Decode(seen);
    var ahead := View(keeps, d.rest, frag, stack);
    DecodeAgain(seen, []);
    assert Concat(d.frames) + [] == Concat(d.frames);
    StreamOkAppend(Concat(d.frames), ahead);
    assert [] + ahead == ahead;
  }

  /** A whole frame in the view goes beyond what was held. */
  lemma FrameGrows(keeps: bool, seen: seq<byte>, frag: seq<byte>, stack: Stack)
    requires HasFrame(View(keeps, Decode(seen).rest, frag, stack))
    ensures |Decode(seen).rest| < FrameLen(View(keeps, Decode(seen).rest, frag, stack))
  {
    var rest := Decode(seen).rest;
    DecodeConserves(seen);
    if |rest| >= FULL_HDR_LEN {
      FrontStable(rest, frag);
    } else {
      ValueBound(View(keeps, rest, frag, stack)[8..12]);
    }
  }

  lemma DecodeOne(f: Frame)
    requires HasFrame(f) && FrameLen(f) == |f|
    ensures Decode(f) == Decoded([f], [])
  {
    assert f[|f|..] == [] && f[..|f|] == f;
  }

  /** Taking one whole frame off the front. */
  lemma WholeFrame(seen: seq<byte>, f: Frame)
    requires HasFrame(f) && FrameLen(f) == |f|
    ensures Decode(Concat(Decode(seen).frames) + f) == Decoded(Decode(seen).frames + [f], [])
  {
    DecodeAgain(seen, f);
    DecodeOne(f);
  }

  /** The frame in front of `ahead` ends within `frag`, and after it the image goes on to `next`. */
  ghost predicate FrameTaken(d: Decoded, ahead: seq<byte>, frag: seq<byte>, next: seq<byte>)
    requires HasFrame(ahead)
  {
    var n := FrameLen(ahead);
    var after := Concat(d.frames) + ahead[..n];
    && |d.rest| < n <= |ahead| == |d.rest| + |frag|
    && Decode(after) == Decoded(d.frames + [ahead[..n]], [])
    && next == after + frag[n - |d.rest|..]
  }

  /** The same for the frame in front of a view. */
  lemma FrontFrame(keeps: bool, seen: seq<byte>, frag: seq<byte>, stack: Stack, ahead: seq<byte>)
    requires ahead == View(keeps, Decode(seen).rest, frag, stack) && HasFrame(ahead)
    ensures var d := Decode(seen); var n := FrameLen(ahead); var seen' := Concat(d.frames) + ahead[..n];
      && |d.rest| < n <= |ahead| == |d.rest| + |frag|
      && Decode(seen') == Decoded(d.frames + [ahead[..n]], [])
      && seen' + frag[n - |d.rest|..] == Concat(d.frames) + ahead
  {
    var d, n := Decode(seen), FrameLen(ahead);
    var f, tail := ahead[..n], ahead[n..];
    FrameGrows(keeps, seen, frag, stack);
    ViewTail(keeps, d.rest, frag, stack, n - |d.rest|);
    assert ahead == f + tail;
    FrontStable(f, tail);
    WholeFrame(seen, f);
    Assoc(Concat(d.frames), f, tail);
  }

  /** The view of the next step, and how it takes the image forward. */
  lemma NextStep(keeps: bool, seen: seq<byte>, frag: seq<byte>, stack: Stack) returns (ahead: seq<byte>)
    requires StreamOk(See(keeps, seen, frag, stack)) && !Stuck(Decode(seen).rest)
    ensures Clip(Decode(seen).rest) == Decode(seen).rest
    ensures Viewed(ahead, keeps, Decode(seen).rest, frag, stack) && FrontOk(ahead)
    ensures !HasFrame(ahead) ==> Decode(See(keeps, seen, frag, stack)) == Decoded(Decode(seen).frames, ahead)
    ensures !HasFrame(ahead) ==> |Decode(seen).rest| <= |Clip(ahead)|
    ensures HasFrame(ahead) ==> FrameTaken(Decode(seen), ahead, frag, See(keeps, seen, frag, stack))
  {
    hide Decode, Concat, View, Viewed, StreamOk, PayloadLen, FrontOk;
    var d := Decode(seen);
    ahead := View(keeps, d.rest, frag, stack);
    AheadOk(keeps, seen, frag, stack);
    ViewedIsView(ahead, keeps, d.rest, frag, stack);
    if HasFrame(ahead) {
      FrontFrame(keeps, seen, frag, stack, ahead);
    } else {
      NoFrameYet(keeps, seen, frag, stack);
      ClipGrows(keeps, d.rest, frag, stack);
    }
  }

  lemma NoFrameYet(keeps: bool, seen: seq<byte>, frag: seq<byte>, stack: Stack)
    requires !HasFrame(View(keeps, Decode(seen).rest, frag, stack))
    ensures Decode(See(keeps, seen, frag, stack)) ==
              Decoded(Decode(seen).frames, View(keeps, Decode(seen).rest, frag, stack))
  {
    SeeDecodes(keeps, seen, frag, stack);
  }

  lemma ClipGrows(keeps: bool, rest: seq<byte>, frag: seq<byte>, stack: Stack)
    requires !Stuck(rest) && FrontOk(View(keeps, rest, frag, stack))
    ensures |rest| <= |Clip(View(keeps, rest, frag, stack))|
  {
    if |rest| >= FULL_HDR_LEN {
      FrontStable(rest, frag);
    }
  }
}
