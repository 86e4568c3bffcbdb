/** src/sockethelper.cpp: the partial-write loop, the single read, and closing. What the operating system answers to
    each call is a parameter. */
module Sockets {
  import opened Bytes

  /** The answer to one `recv`: bytes, 0 for an orderly close, or -1. */
  datatype Recv = Data(bytes: seq<byte>) | Closed | Error

  /** The loop is over before the answers are: everything is out, or there was an error. */
  predicate Ends(offers: seq<int>, left: nat) {
    left == 0 || (offers != [] && (offers[0] < 0 || Ends(offers[1..], left - Sent(offers[0], left))))
  }

  function Sent(offer: nat, left: nat): nat {
    if offer < left then offer else left
  }

  /** How much of `left` bytes gets out before an error, when successive `send` calls are willing to take `offers`. */
  function Accepted(offers: seq<int>, left: nat): (k: nat)
    ensures k <= left
  {
    if left == 0 || offers == [] || offers[0] < 0 then 0 else
    Sent(offers[0], left) + Accepted(offers[1..], left - Sent(offers[0], left))
  }

  /** Without an error, a loop that ends has sent everything. */
  lemma {:induction false} AllAccepted(offers: seq<int>, left: nat)
    requires Ends(offers, left)
    requires forall k :: k in offers ==> k >= 0
    ensures Accepted(offers, left) == left
  {
    if left > 0 {
      assert offers[0] in offers && forall x :: x in offers[1..] ==> x in offers;
      AllAccepted(offers[1..], left - Sent(offers[0], left));
    }
  }

  /** It does end if each call takes something: after at most as many calls as there are bytes. */
  lemma {:induction false} PositiveOffersEnd(offers: seq<int>, left: nat)
    requires |offers| >= left
    requires forall k :: k in offers ==> k != 0
    ensures Ends(offers, left)
  {
    if left > 0 && offers[0] > 0 {
      assert offers[0] in offers && forall x :: x in offers[1..] ==> x in offers;
      PositiveOffersEnd(offers[1..], left - Sent(offers[0], left));
    } else if left > 0 {
      assert offers[0] in offers;
    }
  }

  function Sum(ns: seq<int>): int {
    if ns == [] then 0 else ns[0] + Sum(ns[1..])
  }

  /** In plain numbers: what gets out is what the calls before the first error were willing to take, added up, or all
      of the data if that is less; and the loop ends exactly by an error or with all of it out. */
  lemma {:induction false} AcceptedIsSum(oks: seq<int>, rest: seq<int>, left: nat)
    requires forall k :: k in oks ==> k >= 0
    requires rest != [] ==> rest[0] < 0
    ensures Accepted(oks + rest, left) == if Sum(oks) < left then Sum(oks) else left
    ensures Ends(oks + rest, left) <==> rest != [] || Sum(oks) >= left
    ensures Sum(oks) >= 0
  {
    if oks == [] {
      assert oks + rest == rest;
    } else {
      assert oks[0] in oks && forall x :: x in oks[1..] ==> x in oks;
      assert (oks + rest)[1..] == oks[1..] + rest;
      AcceptedIsSum(oks[1..], rest, left - Sent(oks[0], left));
    }
  }

  class SocketHelper {
    var sock: int
    var isSockOpen: bool
    var isSockInit: bool
    /** Everything the system has accepted for sending on this socket. */
    var wire: seq<byte>

    constructor (sock: int)
      ensures this.sock == sock && isSockOpen && !isSockInit && wire == []
    {
      this.sock := sock;
      isSockOpen, isSockInit := true, false;
      wire := [];
    }

    /** Sends all of `data`, or throws after the accepted part of it: whatever goes out is a prefix of the data, each
        byte once. `offers` holds the answers of the system: how much it would take, or -1. */
    method SendData(data: array<byte>, len: nat, offers: seq<int>) returns (ok: bool, threw: bool)
      requires len <= data.Length && Ends(offers, len)
      requires forall k :: k in offers ==> k >= -1
      modifies this`wire
      ensures wire == old(wire) + data[..Accepted(offers, len)]
      ensures threw <==> Accepted(offers, len) < len
      ensures !threw ==> ok
    {
      var sentSoFar, left := 0, len;
      var call := 0;
      threw, ok := false, false;
      while sentSoFar < len
        invariant 0 <= sentSoFar && sentSoFar + left == len && left >= 0
        invariant call <= |offers| && Ends(offers[call..], left)
        invariant wire == old(wire) + data[..sentSoFar]
        invariant sentSoFar + Accepted(offers[call..], left) == Accepted(offers, len)
        decreases |offers| - call
      {
        var offer := offers[call];
        assert offers[call..][1..] == offers[call + 1..] && offer in offers;
        var sent := if offer == -1 then -1 else Sent(offer, left);
        call := call + 1;
        if sent == -1 {
          threw := true;
          return;
        }
        wire := wire + data[sentSoFar..sentSoFar + sent];
        assert data[..sentSoFar] + data[sentSoFar..sentSoFar + sent] == data[..sentSoFar + sent];
        sentSoFar := sentSoFar + sent;
        left := left - sent;
      }
      ok := sentSoFar == len;
    }

    /** One read: the loop shrinks its bound to what the first `recv` returned, so a second answer is never asked
        for. */
    method Receive(buffer: array<byte>, at: nat, maxLen: nat, answers: seq<Recv>, shutdownOk: bool, closeOk: bool)
        returns (n: int, threw: bool)
      requires at + maxLen <= buffer.Length && 0 < maxLen && |answers| == 1
      requires isSockOpen && answers[0].Data? ==> 0 < |answers[0].bytes| <= maxLen
      modifies this`sock, this`isSockOpen, this`isSockInit, buffer
      ensures buffer[..at] == old(buffer[..at])
      ensures old(isSockOpen) && answers[0].Data? ==>
                n == |answers[0].bytes| && buffer[at..at + n] == answers[0].bytes
                && buffer[at + n..] == old(buffer[..])[at + n..]
      ensures !(old(isSockOpen) && answers[0].Data?) ==> n == 0 && buffer[..] == old(buffer[..])
      ensures threw <==> old(isSockOpen) && answers[0].Error?
      ensures !(old(isSockOpen) && answers[0].Closed?) ==> unchanged(this)
      ensures old(isSockOpen) && answers[0].Closed? ==>
                && isSockOpen == !((!old(isSockInit) || shutdownOk) && closeOk)
                && isSockInit == (old(isSockInit) && !shutdownOk)
                && sock == if isSockOpen then old(sock) else -1
    {
      threw := false;
      if !isSockOpen {
        return 0, false;
      }
      var total, max, call := 0, maxLen, 0;
      while total < max
        invariant 0 <= total <= max && max <= maxLen
        invariant total > 0 ==> total == max
        invariant call == 0 ==> total == 0 && max == maxLen && buffer[..] == old(buffer[..])
        invariant call > 0 ==> total > 0 && answers[0].Data? && total == |answers[0].bytes|
        invariant call > 0 ==> buffer[at..at + total] == answers[0].bytes
        invariant buffer[..at] == old(buffer[..at]) && buffer[at + total..] == old(buffer[..])[at + total..]
        invariant unchanged(this)
        decreases max - total
      {
        var recvLen := if max - total < max then max - total else max;
        var answer := answers[call];
        call := call + 1;
        var got := match answer case Data(bytes) => |bytes| case Closed => 0 case Error => -1;
        if answer.Data? {
          forall i | 0 <= i < got {
            buffer[at + total + i] := answer.bytes[i];
          }
          assert buffer[at..at + got] == answer.bytes;
        }
        if got > 0 && got <= max {
          max := got;
        }
        if got == 0 {
          var closed := CloseSock(shutdownOk, closeOk);
          break;
        }
        if got == -1 {
          threw := true;
          n := 0;
          return;
        }
        total := total + got;
      }
      n := total;
    }

    /** Closes once: a failed shutdown or close leaves the socket open, and a shutdown that succeeded is not
        repeated. */
    method CloseSock(shutdownOk: bool, closeOk: bool) returns (ok: bool)
      modifies this`sock, this`isSockOpen, this`isSockInit
      ensures ok <==> !isSockOpen
      ensures !old(isSockOpen) ==> unchanged(this)
      ensures old(isSockOpen) ==>
                && isSockOpen == !((!old(isSockInit) || shutdownOk) && closeOk)
                && isSockInit == (old(isSockInit) && !shutdownOk)
                && sock == if isSockOpen then old(sock) else -1
    {
      if !isSockOpen {
        return true;
      }
      if isSockInit {
        if !shutdownOk {
          return false;
        }
        isSockInit := false;
      }
      if !closeOk {
        return false;
      }
      sock := -1;
      isSockOpen := false;
      return true;
    }
  }
}
