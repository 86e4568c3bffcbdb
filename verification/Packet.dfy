/** src/packet.cpp: building a packet for the wire, and rebuilding one from a shared receive buffer, a fragment
    at a time. */
module Packets {
  import opened Bytes
  import opened Framing
  import opened Reassembly
  import Serializer

  /** The shared position in the receive buffer. */
  class Position {
    var value: int

    constructor ()
      ensures value == 0
    {
      value := 0;
    }
  }

  class Packet {
    /** false: the code as written. true: the first three header bytes are kept in `tmpHdr` between calls, and the
        header loop is re-entered while fewer than three are there. */
    const keepsPrefix: bool
    const tmpHdr: array<byte>

    var kind: byte
    var charset: byte
    var encoding: byte
    var encryption: byte
    var compression: byte

    var builtPkt: array?<byte>
    var header: array?<byte>
    var payload: array?<byte>

    var pktLen: int
    var fullHdrLen: int
    var hdrLen: int
    var payloadLen: int

    var buffer: array?<byte>
    var currBuffIdx: Position?
    var buffTotalLen: int
    var buffNext: int        // index of the source's pointer in `buffer`
    var numBytesRead: int

    var pktBuilt: bool
    var pktRebuilding: bool

    /** The bytes of this packet the parser has taken so far. */
    ghost var image: seq<byte>

    ghost function Owned(): set<object>
      reads this`header, this`payload, this`builtPkt
    {
      {this, tmpHdr} + (if header == null then {} else {header}) + (if payload == null then {} else {payload})
      + (if builtPkt == null then {} else {builtPkt})
    }

    /** A packet being rebuilt: `header` holds the first bytes of the image up to the full header length, `payload`
        the ones after it. As written, nothing holds the first two bytes of an unallocated header. */
    ghost predicate Parsing()
      reads this`builtPkt, this`pktBuilt, this`numBytesRead, this`image, this`header, this`payload, this`fullHdrLen
      reads tmpHdr, header, payload
      reads this`kind, this`charset, this`encoding, this`encryption, this`compression, this`hdrLen, this`payloadLen
    {
      ParsingWith(0)
    }

    /** The same within a call, where the length of a header not allocated yet is 3 instead of 0. */
    ghost predicate ParsingWith(noHdrLen: int)
      reads this`builtPkt, this`pktBuilt, this`numBytesRead, this`image, this`header, this`payload, this`fullHdrLen
      reads tmpHdr, header, payload
      reads this`kind, this`charset, this`encoding, this`encryption, this`compression, this`hdrLen, this`payloadLen
    {
      && tmpHdr.Length == 3 && header != tmpHdr && payload != tmpHdr && builtPkt == null && !pktBuilt
      && numBytesRead == |image| && FrontOk(image) && !HasFrame(image)
      && if header == null then
           && payload == null && fullHdrLen == noHdrLen && |image| < 3
           && (keepsPrefix ==> tmpHdr[..|image|] == image)
         else
           && |image| >= 3 && header.Length == fullHdrLen == FullHeaderLen(image)
           && (if |image| <= fullHdrLen then header[..|image|] == image else header[..] == image[..fullHdrLen])
           && (|image| > fullHdrLen ==> payload != null)
           && (payload != null ==>
                 && payload != header && |image| >= fullHdrLen
                 && payload.Length == PayloadLen(image) > 0
                 && payload[..|image| - fullHdrLen] == image[fullHdrLen..]
                 && FieldsAre(image))
    }

    /** The fields read from the header are the ones in the bytes `s`. */
    ghost predicate FieldsAre(s: seq<byte>)
      reads this`kind, this`charset, this`encoding, this`encryption, this`compression, this`hdrLen, this`payloadLen
    {
      |s| >= FULL_HDR_LEN && Properties(s) && hdrLen == HeaderLen(s) && payloadLen == PayloadLen(s)
    }

    /** The five properties are the ones in the bytes `s`. */
    ghost predicate Properties(s: seq<byte>)
      reads this`kind, this`charset, this`encoding, this`encryption, this`compression
    {
      |s| >= 8 && kind == s[3] && charset == s[4] && encoding == s[5] && encryption == s[6] && compression == s[7]
    }

    /** A packet that holds all of a frame: its fields, its two parts, and the whole with a terminator. */
    ghost predicate Holds(frame: Frame)
      reads this, header, payload, builtPkt
    {
      && FULL_HDR_LEN <= fullHdrLen <= pktLen == |frame| && pktBuilt
      && header != null && payload != null && builtPkt != null
      && header[..] == frame[..fullHdrLen]
      && payloadLen == pktLen - fullHdrLen <= payload.Length && payload[..payloadLen] == frame[fullHdrLen..]
      && builtPkt[..] == frame + [0]
      && hdrLen == HeaderLen(frame) == fullHdrLen - 3
      && Properties(frame)
    }

    ghost predicate Attached(buf: array<byte>, pos: Position, total: int)
      reads this`buffer, this`currBuffIdx, this`buffTotalLen, this`header, this`payload, this`builtPkt
    {
      buffer == buf && currBuffIdx == pos && buffTotalLen == total && total <= buf.Length
      && pos !in Owned() && buf !in Owned()
    }

    // ----- building -----

    constructor Blank(keeps: bool)
      ensures fresh(Owned()) && keepsPrefix == keeps && header == null && payload == null && builtPkt == null
      ensures buffer == null && currBuffIdx == null
      ensures tmpHdr.Length == 3
    {
      keepsPrefix := keeps;
      tmpHdr := new byte[3];
      header, payload, builtPkt, buffer, currBuffIdx := null, null, null, null, null;
      pktBuilt, pktRebuilding := false, false;
      pktLen, hdrLen, fullHdrLen, payloadLen, numBytesRead := 0, 0, 0, 0, 0;
      image := [];
    }

    /** A packet for the given payload; null where the source throws "payload is null". */
    static method Create(data: array?<byte>, len: nat, m: Message) returns (p: Packet?)
      requires data != null ==> len <= data.Length && len < INT_MAX - FULL_HDR_LEN && m.payload == data[..len]
      ensures p == null <==> data == null
      ensures p != null ==> fresh(p) && fresh(p.Owned()) && p.Holds(Encode(m))
    {
      hide Packet.Holds, Encode;
      if data == null {
        return null;
      }
      p := new Packet.Blank(false);
      p.kind, p.charset, p.encoding, p.encryption, p.compression :=
        m.kind, m.charset, m.encoding, m.encryption, m.compression;
      p.payloadLen := len;
      var copy := new byte[len + 1];
      copy[len] := 0;
      forall i | 0 <= i < len {
        copy[i] := data[i];
      }
      p.payload := copy;
      assert p.payload[..len] == m.payload;
      p.Build(m);
    }

    method Build(ghost m: Message)
      requires builtPkt == null && payload != null && tmpHdr.Length == 3
      requires 0 <= payloadLen <= payload.Length && payloadLen < INT_MAX - FULL_HDR_LEN
      requires m == Message(kind, charset, encoding, encryption, compression, payload[..payloadLen])
      modifies this
      ensures Holds(Encode(m)) && payload == old(payload) && fresh(header) && fresh(builtPkt)
    {
      SetBuildPending(true);
      BuildHeader(m);
      pktLen := fullHdrLen + payloadLen;
      MakePkt();
      SetBuildPending(false);
      HeaderFields(m, m.payload);
      assert Encode(m)[..12] == Header(m) && Encode(m)[12..] == m.payload;
    }

    method BuildHeader(ghost m: Message)
      requires payload != null && 0 <= payloadLen <= payload.Length && payloadLen < INT_MAX
      requires m == Message(kind, charset, encoding, encryption, compression, payload[..payloadLen])
      modifies this`fullHdrLen, this`hdrLen, this`header
      ensures fullHdrLen == FULL_HDR_LEN && hdrLen == HDR_LEN
      ensures fresh(header) && header != null && header[..] == Header(m)
    {
      fullHdrLen := 12;
      hdrLen := 9;
      var h := new byte[fullHdrLen];
      header := h;
      h[0] := 0xFF;
      Serializer.SerializeInt16(h, 1, hdrLen);
      assert h[..1] == [0xFF];
      h[3], h[4], h[5], h[6], h[7] := kind, charset, encoding, encryption, compression;
      ghost var front := h[..8];
      assert front == [0xFF] + BigEndian(9, 2) + [kind, charset, encoding, encryption, compression];
      Serializer.SerializeInt32(h, 8, payloadLen);
      assert h[..] == h[..8] + h[8..12];
    }

    method MakePkt()
      requires header != null && payload != null
      requires 0 <= fullHdrLen <= header.Length && 0 <= payloadLen <= payload.Length
      requires pktLen == fullHdrLen + payloadLen
      modifies this`builtPkt
      ensures fresh(builtPkt) && builtPkt != null
      ensures builtPkt[..] == header[..fullHdrLen] + payload[..payloadLen] + [0]
    {
      var pkt := new byte[pktLen + 1];
      pkt[pktLen] := 0;
      forall i | 0 <= i < fullHdrLen {
        pkt[i] := header[i];
      }
      forall i | 0 <= i < payloadLen {
        pkt[fullHdrLen + i] := payload[i];
      }
      builtPkt := pkt;
    }

    method SetBuildPending(isPending: bool)
      modifies this`pktRebuilding, this`pktBuilt, this`buffer, this`currBuffIdx, this`buffTotalLen, this`buffNext
      ensures pktRebuilding == isPending && pktBuilt == !isPending
      ensures isPending ==> buffer == old(buffer) && currBuffIdx == old(currBuffIdx)
                            && buffTotalLen == old(buffTotalLen) && buffNext == old(buffNext)
      ensures !isPending ==> buffer == null && currBuffIdx == null && buffTotalLen == -1
    {
      pktRebuilding := isPending;
      pktBuilt := !isPending;
      if !pktRebuilding {
        if buffer != null {
          buffer := null;
          buffNext := 0;
        }
        if currBuffIdx != null {
          currBuffIdx := null;
        }
        buffTotalLen := -1;
      }
    }

    // ----- rebuilding -----

    constructor Receiving(buf: array<byte>, pos: Position, total: int, keeps: bool)
      requires total <= buf.Length
      ensures fresh(Owned()) && Parsing() && image == [] && keepsPrefix == keeps
      ensures Attached(buf, pos, total)
    {
      keepsPrefix := keeps;
      tmpHdr := new byte[3];
      buffer, currBuffIdx, buffTotalLen, buffNext := buf, pos, total, pos.value;
      pktBuilt, pktRebuilding := false, false;
      payload, builtPkt, header := null, null, null;
      pktLen, hdrLen, fullHdrLen, payloadLen, numBytesRead := 0, 0, 0, 0, 0;
      image := [];
    }

    method SetBuffSize(size: int)
      modifies this`buffTotalLen
      ensures buffTotalLen == size
    {
      buffTotalLen := size;
    }

    /** Returns true where the source throws "index is over the maximum". */
    method UpdateBuffIdx() returns (threw: bool)
      requires currBuffIdx != null
      modifies currBuffIdx
      ensures currBuffIdx.value == buffNext
      ensures threw <==> buffNext > buffTotalLen
    {
      currBuffIdx.value := buffNext;
      threw := currBuffIdx.value > buffTotalLen;
    }

    method UpdateLocalBuffInfo()
      requires currBuffIdx != null
      modifies this`buffNext
      ensures buffNext == currBuffIdx.value
    {
      buffNext := currBuffIdx.value;
    }

    /** The third byte is in: the header length is known and the header is allocated. Returns true where the source
        throws "got a header length of zero or less". */
    method AllocateHeader(tmp: array<byte>) returns (threw: bool)
      requires tmp.Length == 3
      modifies this`hdrLen, this`fullHdrLen, this`header
      ensures threw <==> HeaderLen(tmp[..]) == 65533
      ensures fullHdrLen == FullHeaderLen(tmp[..]) % 0x1_0000
      ensures !threw && fullHdrLen >= 3 ==>
                header != null && fresh(header) && header.Length == fullHdrLen && header[..3] == tmp[..]
      ensures threw || fullHdrLen < 3 ==> header == old(header)
    {
      threw := false;
      hdrLen := tmp[1];
      hdrLen := hdrLen * 256 + tmp[2];
      fullHdrLen := (hdrLen + 3) % 0x1_0000;
      if fullHdrLen <= 0 {
        threw := true;
        return;
      }
      if fullHdrLen >= 3 {
        var h := new byte[fullHdrLen];
        forall i | 0 <= i < 3 {
          h[i] := tmp[i];
        }
        header := h;
      }
    }

    /** The first header bytes are being collected in `tmp`; at index `hdrPtr` the next one goes in. The bytes at and
        after `stale` are the ones a packet as written finds there instead of those it lost. */
    ghost predicate TmpPhase(v: seq<byte>, tmp: array<byte>, hdrPtr: int, stale: int)
      reads this, tmp
    {
      && header == null && tmp.Length == 3 && fullHdrLen == 3 && 0 <= numBytesRead < 3 && numBytesRead <= |v|
      && 0 <= hdrPtr < stale <= 3 && stale - hdrPtr == 3 - numBytesRead
      && (keepsPrefix || |v| >= 3 ==>
            && (forall j :: 0 <= j < hdrPtr && j < |v| ==> tmp[j] == v[j])
            && (forall j :: stale <= j < 3 && j < |v| ==> tmp[j] == v[j]))
    }

    /** The header is allocated and being filled, or full. */
    ghost predicate HeaderPhase(v: seq<byte>)
      reads this, header
    {
      && header != null && 3 <= numBytesRead <= |v|
      && header.Length == fullHdrLen == FullHeaderLen(v)
      && (forall j :: 0 <= j < numBytesRead && j < fullHdrLen ==> header[j] == v[j])
    }

    /** The body of the header loop: one byte goes where `hdrPtr` points, and the third one allocates the header. */
    method TakeHeaderByte(tmp: array<byte>, hdr: array<byte>, hdrPtr: int, ghost v: seq<byte>, ghost stale: nat)
        returns (hdr': array<byte>, hdrPtr': int, threw: bool)
      requires |v| >= 3 ==> HDR_LEN <= HeaderLen(v) <= MAX_HDR_LEN
      requires buffer != null && 0 <= buffNext < buffer.Length && 0 <= numBytesRead < |v| && numBytesRead < fullHdrLen
      requires header == null ==> TmpPhase(v, tmp, hdrPtr, stale) && hdr == tmp
      requires header != null ==> HeaderPhase(v) && hdr == header && hdrPtr == numBytesRead
      requires header != null || keepsPrefix || |v| >= 3 ==> v[hdrPtr] == buffer[buffNext]
      modifies this`numBytesRead, this`buffNext, this`hdrLen, this`fullHdrLen, this`header, hdr
      ensures !threw && numBytesRead == old(numBytesRead) + 1 && buffNext == old(buffNext) + 1
      ensures header == null ==> TmpPhase(v, tmp, hdrPtr', stale) && hdr' == tmp
      ensures header != null ==> HeaderPhase(v) && hdr' == header && hdrPtr' == numBytesRead <= fullHdrLen
      ensures header == old(header) || (fresh(header) && old(header) == null)
      ensures old(header) != null ==> hdrLen == old(hdrLen)
    {
      threw := false;
      hdr' := hdr;
      hdr'[hdrPtr] := buffer[buffNext];
      hdrPtr' := hdrPtr + 1;
      buffNext := buffNext + 1;
      if numBytesRead == 2 {
        assert tmp[..] == v[..3];
        threw := AllocateHeader(tmp);
        if threw {
          return;
        }
        hdr', hdrPtr' := header, numBytesRead + 1;
      }
      numBytesRead := numBytesRead + 1;
    }

    /** The header loop. */
    method CollectHeader(tmp: array<byte>, ghost v: seq<byte>, ghost frag: seq<byte>) returns (threw: bool)
      requires |v| >= 3 ==> HDR_LEN <= HeaderLen(v) <= MAX_HDR_LEN
      requires 0 <= numBytesRead && Feeds(v, numBytesRead, frag, keepsPrefix)
      requires buffer != null
      requires 0 <= buffNext <= buffTotalLen <= buffer.Length && frag == buffer[buffNext..buffTotalLen]
      requires tmp != buffer && header != buffer && tmp != header
      requires header == null ==>
                 var lost := Lost(numBytesRead, keepsPrefix); TmpPhase(v, tmp, numBytesRead - lost, 3 - lost)
      requires header != null ==> HeaderPhase(v)
      modifies this`numBytesRead, this`buffNext, this`hdrLen, this`fullHdrLen, this`header, tmp, header
      ensures !threw
      ensures old(header) != null ==> header == old(header) && hdrLen == old(hdrLen)
      ensures header != null && header != old(header) ==> fresh(header)
      ensures numBytesRead - buffNext == old(numBytesRead - buffNext)
      ensures numBytesRead == |Taken(v, old(numBytesRead))|
      ensures header == null ==> |v| < 3 && fullHdrLen == 3 && (keepsPrefix ==> tmp[..numBytesRead] == v)
      ensures header != null ==> HeaderPhase(v)
    {
      threw := false;
      ghost var n0, p0, lost := numBytesRead, buffNext, Lost(numBytesRead, keepsPrefix);
      var idx := buffNext;
      var hdr, hdrPtr := header, numBytesRead;
      if header == null {
        hdr, hdrPtr := tmp, if keepsPrefix then numBytesRead else 0;
      }
      while idx < buffTotalLen && numBytesRead < fullHdrLen
        invariant idx == buffNext <= buffTotalLen && numBytesRead - n0 == idx - p0 >= 0
        invariant buffer[p0..buffTotalLen] == frag
        invariant header == null ==> TmpPhase(v, tmp, hdrPtr, 3 - lost) && hdr == tmp
        invariant header != null ==> HeaderPhase(v) && hdr == header && hdrPtr == numBytesRead
        invariant header == null || header == old(header) || (fresh(header) && old(header) == null)
        invariant old(header) != null ==> header == old(header) && hdrLen == old(hdrLen)
        invariant header != null && numBytesRead > fullHdrLen ==> numBytesRead == n0
      {
        assert buffer[buffNext] == frag[numBytesRead - n0];
        hdr, hdrPtr, threw := TakeHeaderByte(tmp, hdr, hdrPtr, v, 3 - lost);
        if threw {
          return;
        }
        idx := idx + 1;
      }
    }

    /** What Parsing says about the header, in terms of the view of the stream. */
    lemma HeaderSoFar(v: seq<byte>, frag: seq<byte>, stack: Stack)
      requires Parsing() && Viewed(v, keepsPrefix, image, frag, stack)
      ensures header != null ==> HeaderPhase(v)
      ensures header == null ==> numBytesRead < 3 && numBytesRead <= |v| && fullHdrLen == 0
    {
      if header != null {
        assert v == image + v[|image|..];
        FrontStable(image, v[|image|..]);
      }
    }

    lemma TmpAtEntry(v: seq<byte>, frag: seq<byte>, stack: Stack, tmp: array<byte>)
      requires fullHdrLen == 3 && header == null && numBytesRead == |image| < 3
      requires Viewed(v, keepsPrefix, image, frag, stack)
      requires tmp.Length == 3
      requires if keepsPrefix then tmp[..|image|] == image else tmp[..] == stack
      ensures var lost := Lost(numBytesRead, keepsPrefix);
        TmpPhase(v, tmp, numBytesRead - lost, 3 - lost)
    {
      if keepsPrefix {
        assert forall j :: 0 <= j < |image| ==> tmp[j] == tmp[..|image|][j];
      } else {
        assert forall j :: 0 <= j < 3 ==> tmp[j] == tmp[..][j];
      }
    }

    /** Without a header, the guard of the header loop fails on well-formed bytes exactly if the stream crashes the
        parser: then `header_ready` finds more bytes in the buffer and as many read as the header is said to have,
        none, and returns true with no header there. The intended receiver lets one or two bytes go on. */
    lemma CrashesExactly(v: seq<byte>, frag: seq<byte>, stack: Stack)
      requires buffer != null && Parsing() && header == null
      requires 0 <= buffNext < buffTotalLen <= buffer.Length && frag == buffer[buffNext..buffTotalLen]
      requires |image| in {1, 2} ==> buffNext == 0
      requires Viewed(v, keepsPrefix, image, frag, stack) && (image == [] ==> FrontOk(v))
      ensures Crashes(keepsPrefix, image, frag) <==>
                && buffer[buffNext] != 0xFF && !(numBytesRead < fullHdrLen) && !(buffTotalLen < 3 && numBytesRead < 3)
                && !(keepsPrefix && 0 < numBytesRead < 3)
      ensures Crashes(keepsPrefix, image, frag) ==> fullHdrLen == 0 < numBytesRead && buffNext < buffTotalLen
    {
      assert frag[0] == buffer[buffNext];
    }

    /** The guarded part of `header_ready`: skipped only when there is nothing to collect. */
    method ScanHeader(stack: Stack, ghost v: seq<byte>, ghost frag: seq<byte>) returns (threw: bool)
      requires buffer != null && buffer !in Owned() && Parsing()
      requires 0 <= buffNext < buffTotalLen <= buffer.Length && frag == buffer[buffNext..buffTotalLen]
      requires |image| in {1, 2} ==> buffNext == 0
      requires !Crashes(keepsPrefix, image, frag)
      requires Viewed(v, keepsPrefix, image, frag, stack) && FrontOk(v)
      modifies this`numBytesRead, this`buffNext, this`hdrLen, this`fullHdrLen, this`header, tmpHdr, header
      ensures !threw
      ensures header != old(header) ==> fresh(header)
      ensures old(header) != null ==> hdrLen == old(hdrLen)
      ensures numBytesRead == |Taken(v, |image|)| && buffNext == buffTotalLen - (|v| - numBytesRead)
      ensures header == null ==> |v| < 3 && fullHdrLen == 3 && (keepsPrefix ==> tmpHdr[..numBytesRead] == v)
      ensures header != null ==> HeaderPhase(v)
    {
      threw := false;
      HeaderSoFar(v, frag, stack);
      var specialCase := buffTotalLen < 3 && numBytesRead < 3;
      var goOn := keepsPrefix && 0 < numBytesRead < 3;
      if buffer[buffNext] == START || numBytesRead < fullHdrLen || specialCase || goOn {
        if fullHdrLen == 0 {
          fullHdrLen := 3;
        }
        var tmp := tmpHdr;
        if !keepsPrefix {
          tmp := new byte[3](i requires 0 <= i < 3 => stack[i]);
          assert tmp[..] == stack;
        }
        if header == null {
          TmpAtEntry(v, frag, stack, tmp);
        }
        threw := CollectHeader(tmp, v, frag);
      }
    }

    method ScanAndAdvance(stack: Stack, ghost v: seq<byte>, ghost frag: seq<byte>) returns (threw: bool)
      requires buffer != null && buffer !in Owned() && Parsing()
      requires 0 <= buffNext < buffTotalLen <= buffer.Length && frag == buffer[buffNext..buffTotalLen]
      requires |image| in {1, 2} ==> buffNext == 0
      requires !Crashes(keepsPrefix, image, frag)
      requires Viewed(v, keepsPrefix, image, frag, stack) && FrontOk(v)
      modifies this`numBytesRead, this`buffNext, this`hdrLen, this`fullHdrLen, this`header, this`image, tmpHdr, header
      ensures !threw && ParsingWith(3)
      ensures image == Taken(v, |old(image)|) && buffNext == buffTotalLen - (|v| - |image|)
      ensures header != old(header) ==> fresh(header)
      ensures header != null <==> |v| >= 3
      ensures 0 <= |image| - |old(image)| <= |frag|
    {
      hide Crashes, START, Value;
      ghost var t := Taken(v, |image|);
      TakenKeeps(v, keepsPrefix, image, frag, stack);
      threw := ScanHeader(stack, v, frag);
      if !threw {
        AdvanceImage(v, t);
      }
    }

    /** Collects header bytes. Ready means that the whole header is there and at least one byte follows it. */
    method HeaderReady(stack: Stack, ghost ahead: seq<byte>, ghost frag: seq<byte>) returns (ready: bool, threw: bool)
      requires buffer != null && currBuffIdx != null && Attached(buffer, currBuffIdx, buffTotalLen) && Parsing()
      requires 0 <= currBuffIdx.value == buffNext < buffTotalLen && frag == buffer[buffNext..buffTotalLen]
      requires |image| in {1, 2} ==> currBuffIdx.value == 0
      requires !Crashes(keepsPrefix, image, frag)
      requires Viewed(ahead, keepsPrefix, image, frag, stack) && FrontOk(ahead)
      modifies this`numBytesRead, this`buffNext, this`hdrLen, this`fullHdrLen, this`header, this`image,
               this`pktRebuilding, this`pktBuilt, this`buffer, this`currBuffIdx, this`buffTotalLen,
               tmpHdr, header, currBuffIdx
      ensures buffer == old(buffer) && currBuffIdx == old(currBuffIdx) && buffTotalLen == old(buffTotalLen)
      ensures !threw && Parsing() && buffNext == currBuffIdx.value
      ensures payload == old(payload) && (header != old(header) ==> fresh(header))
      ensures ready <==> |ahead| >= 3 && |ahead| > FullHeaderLen(ahead)
      ensures !ready ==> pktRebuilding
      ensures image == Taken(ahead, |old(image)|)
      ensures image <= ahead && currBuffIdx.value == buffTotalLen - (|ahead| - |image|)
      ensures |ahead| >= 3 ==> InBuffer(ahead)
    {
      ghost var held, p0 := image, buffNext;
      threw := ScanAndAdvance(stack, ahead, frag);
      if |ahead| >= 3 {
        StillInBuffer(ahead, frag, |held|, p0);
      }
      if !threw {
        ready, threw := SettleHeader(ahead);
      }
    }

    lemma StillInBuffer(v: seq<byte>, frag: seq<byte>, n0: nat, p0: nat)
      requires buffer != null && p0 <= buffTotalLen <= buffer.Length && frag == buffer[p0..buffTotalLen]
      requires Feeds(v, n0, frag, keepsPrefix)
      requires 3 <= numBytesRead <= |v| && n0 <= numBytesRead && buffNext - p0 == numBytesRead - n0
      ensures InBuffer(v)
    {
    }

    /** After the header loop the packet holds the bytes `t` of the view. */
    ghost method AdvanceImage(v: seq<byte>, t: seq<byte>)
      requires tmpHdr.Length == 3 && header != tmpHdr && payload != tmpHdr && builtPkt == null && !pktBuilt
      requires numBytesRead == |t| && t <= v && FrontOk(t) && !HasFrame(t)
      requires header == null ==> |t| < 3 && fullHdrLen == 3 && payload == null && (keepsPrefix ==> tmpHdr[..|t|] == t)
      requires header != null ==> HeaderPhase(v) && (|t| > fullHdrLen ==> payload != null)
      requires payload != null ==>
                 && t == image && payload != header && |image| >= fullHdrLen && header != null
                 && payload.Length == PayloadLen(image) > 0 && payload[..|image| - fullHdrLen] == image[fullHdrLen..]
                 && FieldsAre(image)
      modifies this`image
      ensures image == t && ParsingWith(3)
    {
      image := t;
    }

    /** The end of `header_ready`. */
    method SettleHeader(ghost v: seq<byte>) returns (ready: bool, threw: bool)
      requires buffer != null && currBuffIdx != null && ParsingWith(3) && 0 <= buffNext <= buffTotalLen
      modifies this`fullHdrLen, this`pktRebuilding, this`pktBuilt, this`buffer, this`currBuffIdx, this`buffTotalLen,
               this`buffNext, currBuffIdx
      ensures buffer == old(buffer) && currBuffIdx == old(currBuffIdx) && buffTotalLen == old(buffTotalLen)
      ensures buffNext == old(buffNext) == currBuffIdx.value && (old(InBuffer(v)) ==> InBuffer(v))
      ensures !threw && Parsing()
      ensures ready <==> buffNext < buffTotalLen && header != null && |image| >= fullHdrLen
      ensures !ready ==> pktRebuilding
    {
      threw := false;
      var idx := buffNext;
      if idx >= buffTotalLen || numBytesRead < fullHdrLen {
        if fullHdrLen <= 3 {
          fullHdrLen := 0;
        }
        threw := UpdateBuffIdx();
        if !threw {
          SetBuildPending(true);
        }
        ready := false;
      } else {
        currBuffIdx.value := idx;
        ready := numBytesRead >= fullHdrLen;
      }
    }

    /** The rest of the buffer is what the view `v` has beyond the bytes read. */
    ghost predicate InBuffer(v: seq<byte>)
      reads this`buffer, this`buffNext, this`buffTotalLen, this`numBytesRead, buffer
    {
      && buffer != null && 0 <= buffNext <= buffTotalLen <= buffer.Length
      && 0 <= numBytesRead <= |v| && |v| - numBytesRead == buffTotalLen - buffNext
      && forall i :: numBytesRead <= i < |v| ==> v[i] == buffer[buffNext + i - numBytesRead]
    }

    /** Reads the fields of a full header and allocates the payload, unless it is there already. Returns true where the
        source throws "got a header (or payload) length of zero or less". */
    method RebuildHeader() returns (threw: bool)
      requires currBuffIdx != null && buffNext <= buffTotalLen && header != null && header.Length >= FULL_HDR_LEN
      modifies this`kind, this`charset, this`encoding, this`encryption, this`compression, this`hdrLen, this`payloadLen,
               this`payload, currBuffIdx
      ensures threw <==> HeaderLen(header[..]) == 0 || PayloadLen(header[..]) == 0
      ensures payload == old(payload) ||
              (old(payload) == null && !threw && fresh(payload) && payload.Length == payloadLen)
      ensures currBuffIdx.value == if threw then old(currBuffIdx.value) else buffNext
      ensures !threw ==>
                && payload != null && payloadLen == PayloadLen(header[..]) && hdrLen == HeaderLen(header[..])
                && Properties(header[..])
    {
      hide Value, Signed, Pow256;
      var hdr := 0;
      LengthFields(header[..]);
      assert header[1..3] == header[..][1..3] && header[8..12] == header[..][8..12];
      hdr := hdr + 1;
      var len := Serializer.DeserializeInt16(header, hdr);
      hdrLen := len % 0x1_0000;
      hdr := hdr + 2;
      threw := hdrLen <= 0;
      if !threw {
        kind, charset, encoding := header[hdr], header[hdr + 1], header[hdr + 2];
        encryption, compression := header[hdr + 3], header[hdr + 4];
        hdr := hdr + 5;
        len := Serializer.DeserializeInt32(header, hdr);
        payloadLen := len % 0x1_0000_0000;
        threw := payloadLen <= 0;
        if !threw {
          if payload == null {
            payload := new byte[payloadLen](_ => 0);
          }
          threw := UpdateBuffIdx();
        }
      }
    }

    /** What a full header says is what the bytes taken so far say. */
    lemma FullHeader()
      requires Parsing() && header != null && |image| >= fullHdrLen
      ensures header.Length == fullHdrLen >= FULL_HDR_LEN && header[..] == image[..fullHdrLen]
      ensures HeaderLen(header[..]) == HeaderLen(image) && PayloadLen(header[..]) == PayloadLen(image)
      ensures forall j :: 0 <= j < FULL_HDR_LEN ==> header[j] == image[j]
    {
      var h := header[..];
      assert h == image[..fullHdrLen];
      assert image == h + image[fullHdrLen..];
      FrontStable(h, image[fullHdrLen..]);
      assert forall j :: 0 <= j < FULL_HDR_LEN ==> header[j] == h[j] == image[j];
    }

    /** The payload loop. */
    method CollectPayload(ghost v: seq<byte>)
      requires buffer != null && currBuffIdx != null && payload != null && payload != buffer
      requires 0 <= currBuffIdx.value == buffNext && InBuffer(v)
      requires 0 <= fullHdrLen <= numBytesRead <= pktLen && payload.Length == pktLen - fullHdrLen
      requires payload[..numBytesRead - fullHdrLen] == v[fullHdrLen..numBytesRead]
      modifies this`numBytesRead, this`buffNext, payload, currBuffIdx
      ensures numBytesRead == if |v| < pktLen then |v| else pktLen
      ensures currBuffIdx.value == buffNext == buffTotalLen - (|v| - numBytesRead)
      ensures payload[..numBytesRead - fullHdrLen] == v[fullHdrLen..numBytesRead]
    {
      ghost var n0, p0 := numBytesRead, buffNext;
      var idx := currBuffIdx.value;
      var pld := numBytesRead - fullHdrLen;
      while idx < buffTotalLen && numBytesRead < pktLen
        invariant idx == buffNext <= buffTotalLen && numBytesRead - n0 == idx - p0 >= 0
        invariant pld == numBytesRead - fullHdrLen && numBytesRead <= pktLen && numBytesRead <= |v|
        invariant InBuffer(v)
        invariant payload[..pld] == v[fullHdrLen..numBytesRead]
      {
        payload[pld] := buffer[buffNext];
        pld := pld + 1;
        buffNext := buffNext + 1;
        numBytesRead := numBytesRead + 1;
        idx := idx + 1;
        assert payload[..pld] == payload[..pld - 1] + [v[numBytesRead - 1]];
        assert v[fullHdrLen..numBytesRead] == v[fullHdrLen..numBytesRead - 1] + [v[numBytesRead - 1]];
      }
      currBuffIdx.value := idx;
    }

    /** The header is full and the payload allocated: of the view `v`, `numBytesRead` bytes are in place. */
    ghost predicate PayloadPhase(v: seq<byte>)
      reads this`header, this`payload, this`fullHdrLen, this`numBytesRead, this`payloadLen, this`hdrLen
      reads this`kind, this`charset, this`encoding, this`encryption, this`compression, header, payload
    {
      && header != null && payload != null && header != tmpHdr && payload != tmpHdr && payload != header
      && tmpHdr.Length == 3
      && FULL_HDR_LEN <= fullHdrLen == header.Length <= numBytesRead <= |v|
      && fullHdrLen == FullHeaderLen(v) && payload.Length == payloadLen == PayloadLen(v) > 0
      && numBytesRead <= FrameLen(v)
      && header[..] == v[..fullHdrLen] && payload[..numBytesRead - fullHdrLen] == v[fullHdrLen..numBytesRead]
      && hdrLen == HeaderLen(v) && Properties(v)
    }

    /** Everything was taken and the frame is not whole. */
    lemma PayloadPending()
      requires PayloadPhase(image) && FrontOk(image) && numBytesRead == |image| < FrameLen(image)
      requires builtPkt == null && !pktBuilt
      ensures Parsing()
    {
    }

    /** Everything the frame needs was taken and put together. */
    lemma HoldsAll(v: seq<byte>)
      requires PayloadPhase(v) && numBytesRead == pktLen == FrameLen(v)
      requires pktBuilt && builtPkt != null && builtPkt[..] == header[..fullHdrLen] + payload[..payloadLen] + [0]
      ensures Holds(v[..pktLen])
    {
      assert header[..fullHdrLen] == header[..] && payload[..payloadLen] == payload[..];
      Slices(v, pktLen, fullHdrLen);
    }

    /** The rest of `rebuild`, with the header read and the payload allocated. */
    method RebuildPayload(ghost ahead: seq<byte>) returns (threw: bool)
      requires buffer != null && currBuffIdx != null && buffer != payload && buffTotalLen <= buffer.Length
      requires 0 <= currBuffIdx.value == buffNext && InBuffer(ahead)
      requires PayloadPhase(ahead) && FrontOk(ahead) && builtPkt == null && !pktBuilt
      modifies this`pktLen, this`numBytesRead, this`builtPkt, this`image, this`pktRebuilding, this`pktBuilt,
               this`buffer, this`currBuffIdx, this`buffTotalLen, this`buffNext, payload, currBuffIdx
      ensures !threw
      ensures builtPkt != null ==> fresh(builtPkt)
      ensures HasFrame(ahead) ==> Holds(ahead[..FrameLen(ahead)]) && image == ahead[..FrameLen(ahead)]
      ensures !HasFrame(ahead) ==>
                && Parsing() && image == ahead && builtPkt == null
                && buffer == old(buffer) && currBuffIdx == old(currBuffIdx) && buffTotalLen == old(buffTotalLen)
      ensures old(currBuffIdx).value == old(buffTotalLen) - (|ahead| - |image|)
      ensures pktRebuilding == !pktBuilt
      ensures HasFrame(ahead) ==> buffer == null && currBuffIdx == null && buffTotalLen == -1
    {
      pktLen := fullHdrLen + payloadLen;
      CollectPayload(ahead);
      threw := FinishRebuild(ahead);
      if pktBuilt {
        HoldsAll(ahead);
      } else {
        assert image == ahead;
        PayloadPending();
      }
    }

    /** The end of `rebuild`: with every byte in place the packet is made, otherwise it stays pending. Returns true
        where the source throws "number of bytes remaining is negative". */
    method FinishRebuild(ghost ahead: seq<byte>) returns (threw: bool)
      requires buffer != null && currBuffIdx != null && buffNext <= buffTotalLen
      requires PayloadPhase(ahead) && FrontOk(ahead) && pktLen == FrameLen(ahead) && builtPkt == null && !pktBuilt
      requires numBytesRead == if |ahead| < pktLen then |ahead| else pktLen
      modifies this`builtPkt, this`image, this`pktRebuilding, this`pktBuilt, this`buffer,
               this`currBuffIdx, this`buffTotalLen, this`buffNext, currBuffIdx
      ensures !threw
      ensures builtPkt != null ==> fresh(builtPkt)
      ensures image == ahead[..numBytesRead] && PayloadPhase(ahead)
      ensures pktBuilt <==> |ahead| >= pktLen
      ensures pktRebuilding == !pktBuilt
      ensures pktBuilt ==> buffer == null && currBuffIdx == null && buffTotalLen == -1
      ensures pktBuilt ==> builtPkt != null && builtPkt[..] == header[..fullHdrLen] + payload[..payloadLen] + [0]
      ensures !pktBuilt ==>
                && builtPkt == null
                && buffer == old(buffer) && currBuffIdx == old(currBuffIdx) && buffTotalLen == old(buffTotalLen)
      ensures old(currBuffIdx).value == old(buffNext)
    {
      hide Value, FrontOk, Packet.Properties;
      threw := false;
      var buildPending := true;
      image := ahead[..numBytesRead];
      var remaining := pktLen - numBytesRead;
      if remaining > 0 {
        buildPending := true;
      } else if remaining == 0 {
        MakePkt();
        buildPending := false;
      } else if remaining < 0 {
        threw := true;
      }
      assert !threw;
      if !threw {
        threw := UpdateBuffIdx();
        assert !threw;
        if !threw {
          SetBuildPending(buildPending);
        }
      }
    }

    /** A full header with more bytes behind it is read into the fields. Reading it again, on each later fragment,
        changes none of them and keeps the payload. */
    method ReadHeader(ghost ahead: seq<byte>) returns (threw: bool)
      requires buffer != null && currBuffIdx != null && Parsing() && header != null
      requires 0 <= currBuffIdx.value == buffNext < buffTotalLen && InBuffer(ahead)
      requires image <= ahead && FrontOk(ahead)
      requires |image| >= fullHdrLen
      modifies this`kind, this`charset, this`encoding, this`encryption, this`compression, this`hdrLen, this`payloadLen,
               this`payload, currBuffIdx
      ensures payload != old(payload) ==> fresh(payload)
      ensures currBuffIdx.value == buffNext && InBuffer(ahead)
      ensures !threw ==> PayloadPhase(ahead) && image == old(image)
      ensures threw ==> Parsing() && image == Clip(ahead) && !HasFrame(ahead)
      ensures old(payload) != null ==>
                && !threw && payload == old(payload) && hdrLen == old(hdrLen) && payloadLen == old(payloadLen)
                && kind == old(kind) && charset == old(charset) && encoding == old(encoding)
                && encryption == old(encryption) && compression == old(compression)
      ensures threw <==> Stuck(ahead)
    {
      assert ahead == image + ahead[|image|..];
      FrontStable(image, ahead[|image|..]);
      FullHeader();
      threw := RebuildHeader();
    }

    /** `rebuild` once the header is full and more bytes are there. */
    method RebuildBody(ghost ahead: seq<byte>) returns (threw: bool)
      requires buffer != null && currBuffIdx != null && Parsing() && header != null && buffer != payload
      requires 0 <= currBuffIdx.value == buffNext < buffTotalLen && InBuffer(ahead)
      requires image <= ahead && FrontOk(ahead) && |image| >= fullHdrLen
      modifies this, payload, currBuffIdx
      ensures header != old(header) ==> fresh(header)
      ensures payload != old(payload) ==> fresh(payload)
      ensures builtPkt != old(builtPkt) ==> fresh(builtPkt)
      ensures HasFrame(ahead) ==> Holds(ahead[..FrameLen(ahead)]) && image == ahead[..FrameLen(ahead)]
      ensures !HasFrame(ahead) ==>
                && Parsing() && image == Clip(ahead)
                && buffer == old(buffer) && currBuffIdx == old(currBuffIdx) && buffTotalLen == old(buffTotalLen)
      ensures old(currBuffIdx).value == old(buffTotalLen) - (|ahead| - |image|)
      ensures threw <==> Stuck(ahead)
      ensures !threw ==> pktRebuilding == !pktBuilt
      ensures HasFrame(ahead) ==> buffer == null && currBuffIdx == null && buffTotalLen == -1
    {
      threw := ReadHeader(ahead);
      if !threw {
        threw := RebuildPayload(ahead);
      }
    }

    /** One call on what is left of the buffer. With `ahead`, all the bytes of this packet there are: the packet takes a
        whole frame and is done, or takes everything and stays pending, or stops after the header of a frame with
        an empty payload and throws. The position moves by exactly the bytes taken. */
    method Rebuild(stack: Stack, ghost ahead: seq<byte>, ghost frag: seq<byte>) returns (threw: bool)
      requires buffer != null && currBuffIdx != null && Attached(buffer, currBuffIdx, buffTotalLen) && Parsing()
      requires 0 <= currBuffIdx.value < buffTotalLen && frag == buffer[currBuffIdx.value..buffTotalLen]
      requires |image| in {1, 2} ==> currBuffIdx.value == 0
      requires !Crashes(keepsPrefix, image, frag)
      requires Viewed(ahead, keepsPrefix, image, frag, stack) && FrontOk(ahead)
      modifies this, tmpHdr, header, payload, currBuffIdx
      ensures header != old(header) ==> fresh(header)
      ensures payload != old(payload) ==> fresh(payload)
      ensures builtPkt != old(builtPkt) ==> fresh(builtPkt)
      ensures HasFrame(ahead) ==> Holds(ahead[..FrameLen(ahead)]) && image == ahead[..FrameLen(ahead)]
      ensures !HasFrame(ahead) ==>
                && Parsing() && image == Clip(ahead)
                && Attached(old(buffer), old(currBuffIdx), old(buffTotalLen))
      ensures old(currBuffIdx).value == old(buffTotalLen) - (|ahead| - |image|)
      ensures threw <==> Stuck(ahead)
      ensures !threw ==> pktRebuilding == !pktBuilt
      ensures HasFrame(ahead) ==> buffer == null && currBuffIdx == null && buffTotalLen == -1
    {
      hide Viewed, Crashes, Packet.Holds, Packet.InBuffer, Packet.FieldsAre, HasFrame, Clip, Stuck, FrameLen;
      hide PayloadLen;
      ViewedLength(ahead, keepsPrefix, image, frag, stack);
      UpdateLocalBuffInfo();
      var ready;
      ready, threw := HeaderReady(stack, ahead, frag);
      if ready {
        threw := RebuildBody(ahead);
      } else {
        NotWhole(ahead);
      }
    }
  }

  /** What the user of a received packet reads is what the user of the sent one put in. */
  lemma HeldMessage(p: Packet, m: Message)
    requires Buildable(m) && m.payload != [] && p.Holds(Encode(m))
    ensures p.payloadLen == |m.payload| && p.payload != null && p.payloadLen <= p.payload.Length
    ensures m == Message(p.kind, p.charset, p.encoding, p.encryption, p.compression, p.payload[..p.payloadLen])
    ensures p.pktLen == 12 + |m.payload| && p.builtPkt != null && p.builtPkt[..] == Encode(m) + [0]
  {
    var f := Encode(m);
    FrameRoundTrip(m);
    HeaderFields(m, m.payload);
  }

  lemma NotWhole(s: seq<byte>)
    requires FrontOk(s) && (|s| < 3 || |s| <= FullHeaderLen(s))
    ensures !HasFrame(s) && !Stuck(s) && Clip(s) == s
  {
  }

  lemma Slices(v: seq<byte>, n: nat, hdr: nat)
    requires FULL_HDR_LEN <= hdr <= n <= |v|
    ensures var f := v[..n];
      && f[..hdr] == v[..hdr] && f[hdr..] == v[hdr..n]
      && HeaderLen(f) == HeaderLen(v) && v[..hdr] + v[hdr..n] + [0] == f + [0]
  {
  }

  /** What the header loop leaves taken, of the view `v`, by a packet that had taken n0 bytes. */
  function Taken(v: seq<byte>, n0: nat): seq<byte>
    requires n0 <= |v|
  {
    if |v| < 3 || |v| <= FullHeaderLen(v) then v
    else if n0 >= FullHeaderLen(v) then v[..n0]
    else v[..FullHeaderLen(v)]
  }

  /** How many bytes of an unallocated header a packet that has read n0 has lost. */
  function Lost(n0: nat, keeps: bool): nat {
    if keeps || n0 > 2 then 0 else n0
  }

  /** The bytes of `frag` are the next ones of the view, after n0. Those of a third byte or later are where they
      belong; the first three, if they matter, land where the local array is written. */
  ghost predicate Feeds(v: seq<byte>, n0: nat, frag: seq<byte>, keeps: bool) {
    && |v| == n0 + |frag|
    && (forall i :: 3 <= i < |v| && n0 <= i ==> v[i] == frag[i - n0])
    && (keeps || |v| >= 3 ==>
          var lost := Lost(n0, keeps);
          forall j :: 0 <= j < 3 - lost && n0 - lost <= j < |v| - lost ==> v[j] == frag[j + lost - n0])
  }

  /** What the parser relies on about the view of the stream, byte by byte. */
  ghost predicate Viewed(v: seq<byte>, keeps: bool, held: seq<byte>, frag: seq<byte>, stack: Stack) {
    && Feeds(v, |held|, frag, keeps)
    && (keeps || |held| >= 3 || |v| < 3 ==> held <= v)
    && (|v| < 3 ==> v[|held|..] == frag)
    && (!keeps && 1 <= |held| <= 2 && |v| >= 3 ==> forall j :: 3 - |held| <= j < 3 ==> v[j] == stack[j])
  }

  lemma ViewedLength(v: seq<byte>, keeps: bool, held: seq<byte>, frag: seq<byte>, stack: Stack)
    requires Viewed(v, keeps, held, frag, stack)
    ensures |v| == |held| + |frag|
  {
  }

  /** It is the view, and no other sequence. */
  lemma ViewedIsView(v: seq<byte>, keeps: bool, held: seq<byte>, frag: seq<byte>, stack: Stack)
    ensures Viewed(v, keeps, held, frag, stack) <==> v == View(keeps, held, frag, stack)
  {
    var w := View(keeps, held, frag, stack);
    if Viewed(v, keeps, held, frag, stack) {
      assert forall i :: 0 <= i < |v| ==> v[i] == w[i];
    }
  }

  /** The bytes taken after the header loop are well formed and hold no frame, if that was so before. */
  lemma TakenKeeps(v: seq<byte>, keeps: bool, image: seq<byte>, frag: seq<byte>, stack: Stack)
    requires FrontOk(image) && !HasFrame(image)
    requires Viewed(v, keeps, image, frag, stack) && FrontOk(v)
    ensures var t := Taken(v, |image|);
      && FrontOk(t) && !HasFrame(t) && t <= v
      && (|v| < 3 ==> t == v)
      && (|v| >= 3 ==> |t| >= 3 && FullHeaderLen(t) == FullHeaderLen(v))
      && (|image| >= 3 && |image| >= FullHeaderLen(image) ==> t == image)
      && 0 <= |t| - |image| <= |frag|
  {
    var t := Taken(v, |image|);
    if |image| >= 3 {
      assert v == image + v[|image|..];
      FrontStable(image, v[|image|..]);
    }
    assert v == t + v[|t|..];
    FrontStable(t, v[|t|..]);
  }
}
