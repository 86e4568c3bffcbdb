/** The wire format of a packet and the one-shot decoder of a byte stream. A frame is 0xFF, the header length H in
    two bytes, five property bytes, the payload length in four bytes, any further header bytes up to 3 + H,
    and the payload. */
module Framing {
  import opened Bytes

  const START: byte := 0xFF
  const HDR_LEN := 9
  const FULL_HDR_LEN := 12
  const INT_MAX := 0x7FFF_FFFF
  const MAX_HDR_LEN := 65532

  /** What the user of a packet sees. */
  datatype Message = Message(kind: byte, charset: byte, encoding: byte, encryption: byte, compression: byte,
                             payload: seq<byte>)

  type Frame = seq<byte>

  function HeaderLen(s: seq<byte>): int
    requires |s| >= 3
  {
    s[1] as int * 256 + s[2]
  }

  function FullHeaderLen(s: seq<byte>): int
    requires |s| >= 3
  {
    HeaderLen(s) + 3
  }

  function PayloadLen(s: seq<byte>): int
    requires |s| >= FULL_HDR_LEN
  {
    Value(s[8..12])
  }

  function FrameLen(s: seq<byte>): int
    requires |s| >= FULL_HDR_LEN
  {
    FullHeaderLen(s) + PayloadLen(s)
  }

  /** The bytes in front are a well-formed (part of a) frame: the start byte, a header length that covers the
      fields read and does not overflow 16 bits, and a total length the receiver can allocate
      (with its terminator) in an int. An empty payload is well formed here: the receiver answers it. */
  predicate FrontOk(s: seq<byte>) {
    && (|s| >= 1 ==> s[0] == START)
    && (|s| >= 3 ==> HDR_LEN <= HeaderLen(s) <= MAX_HDR_LEN)
    && (|s| >= FULL_HDR_LEN ==> FrameLen(s) < INT_MAX)
  }

  /** A whole frame is in front. A frame with an empty payload is never whole: the receiver rejects it. */
  predicate HasFrame(s: seq<byte>) {
    |s| >= FULL_HDR_LEN && HeaderLen(s) >= HDR_LEN && PayloadLen(s) > 0 && FrameLen(s) <= |s|
  }

  predicate IsFrame(f: seq<byte>) {
    FrontOk(f) && HasFrame(f) && FrameLen(f) == |f|
  }

  datatype Decoded = Decoded(frames: seq<Frame>, rest: seq<byte>)

  /** The one-shot decoder: all the whole frames of a stream, and what is left. */
  function Decode(s: seq<byte>): Decoded
    decreases |s|
  {
    if HasFrame(s) then
      var n := FrameLen(s);
      var d := Decode(s[n..]);
      Decoded([s[..n]] + d.frames, d.rest)
    else
      Decoded([], s)
  }

  /** Every frame of the stream, and the part of one at its end, is well formed. */
  predicate StreamOk(s: seq<byte>)
    decreases |s|
  {
    FrontOk(s) && (HasFrame(s) ==> StreamOk(s[FrameLen(s)..]))
  }

  function Concat(frames: seq<seq<byte>>): seq<byte> {
    if frames == [] then [] else frames[0] + Concat(frames[1..])
  }

  lemma ConcatCons(f: seq<byte>, fs: seq<seq<byte>>)
    ensures Concat([f] + fs) == f + Concat(fs)
  {
    assert ([f] + fs)[1..] == fs;
  }

  lemma {:induction false} ConcatAppend(fs: seq<seq<byte>>, gs: seq<seq<byte>>)
    ensures Concat(fs + gs) == Concat(fs) + Concat(gs)
  {
    if fs == [] {
      assert fs + gs == gs;
    } else {
      assert (fs + gs)[1..] == fs[1..] + gs;
      ConcatAppend(fs[1..], gs);
    }
  }

  lemma ConcatSnoc(fs: seq<seq<byte>>, f: seq<byte>)
    ensures Concat(fs + [f]) == Concat(fs) + f
  {
    ConcatAppend(fs, [f]);
    ConcatCons(f, []);
    assert [f] + [] == [f] && f + [] == f;
  }

  lemma Assoc<T>(a: seq<T>, b: seq<T>, c: seq<T>)
    ensures (a + b) + c == a + (b + c)
  {
  }

  /** Later bytes do not change what the bytes in front say. */
  lemma FrontStable(a: seq<byte>, b: seq<byte>)
    ensures |a| >= 3 ==> HeaderLen(a + b) == HeaderLen(a)
    ensures |a| >= FULL_HDR_LEN ==> PayloadLen(a + b) == PayloadLen(a) && FrameLen(a + b) == FrameLen(a)
    ensures HasFrame(a) ==> HasFrame(a + b)
    ensures FrontOk(a + b) ==> FrontOk(a)
    ensures FrontOk(a) && |a| >= FULL_HDR_LEN ==> FrontOk(a + b)
  {
    if |a| >= FULL_HDR_LEN {
      assert (a + b)[8..12] == a[8..12];
    }
  }

  /** Decoding in two steps, keeping only the undecoded rest in between, is decoding at once. */
  lemma {:induction false} DecodeAppend(a: seq<byte>, b: seq<byte>)
    ensures Decode(a + b).frames == Decode(a).frames + Decode(Decode(a).rest + b).frames
    ensures Decode(a + b).rest == Decode(Decode(a).rest + b).rest
    decreases |a|
  {
    if HasFrame(a) {
      var n := FrameLen(a);
      FrontStable(a, b);
      assert (a + b)[n..] == a[n..] + b && (a + b)[..n] == a[..n];
      DecodeAppend(a[n..], b);
    }
  }

  lemma {:induction false} StreamOkAppend(a: seq<byte>, b: seq<byte>)
    requires StreamOk(a + b)
    ensures StreamOk(a) && StreamOk(Decode(a).rest + b)
    decreases |a|
  {
    FrontStable(a, b);
    if HasFrame(a) {
      var n := FrameLen(a);
      assert (a + b)[n..] == a[n..] + b;
      StreamOkAppend(a[n..], b);
    }
  }

  lemma Reassociate(f: seq<byte>, frames: seq<Frame>, rest: seq<byte>)
    ensures Concat([f] + frames) + rest == f + (Concat(frames) + rest)
  {
    ConcatCons(f, frames);
  }

  lemma {:induction false} NoFrameLeft(s: seq<byte>)
    ensures !HasFrame(Decode(s).rest)
    decreases |s|
  {
    if HasFrame(s) {
      NoFrameLeft(s[FrameLen(s)..]);
    }
  }

  /** Nothing is lost or invented: the frames and the rest are the stream, and the rest holds no frame. */
  lemma {:induction false} DecodeConserves(s: seq<byte>)
    ensures Concat(Decode(s).frames) + Decode(s).rest == s
    ensures !HasFrame(Decode(s).rest)
    decreases |s|
  {
    NoFrameLeft(s);
    if HasFrame(s) {
      var n := FrameLen(s);
      var d := Decode(s[n..]);
      DecodeConserves(s[n..]);
      Reassociate(s[..n], d.frames, d.rest);
    }
  }

  lemma {:induction false} DecodeYieldsFrames(s: seq<byte>)
    requires StreamOk(s)
    ensures forall f :: f in Decode(s).frames ==> IsFrame(f)
    ensures FrontOk(Decode(s).rest)
    decreases |s|
  {
    if HasFrame(s) {
      var n := FrameLen(s);
      assert s == s[..n] + s[n..];
      FrontStable(s[..n], s[n..]);
      DecodeYieldsFrames(s[n..]);
    }
  }

  /** The decoder inverts concatenation. */
  lemma {:induction false} DecodeConcat(frames: seq<Frame>, rest: seq<byte>)
    requires forall f :: f in frames ==> IsFrame(f)
    requires !HasFrame(rest)
    ensures Decode(Concat(frames) + rest) == Decoded(frames, rest)
    ensures FrontOk(rest) ==> StreamOk(Concat(frames) + rest)
  {
    if frames == [] {
      assert Concat(frames) + rest == rest;
    } else {
      var f, tail := frames[0], Concat(frames[1..]) + rest;
      assert f in frames;
      assert Concat(frames) + rest == f + tail by {
        assert Concat(frames) == f + Concat(frames[1..]);
      }
      FrontStable(f, tail);
      assert (f + tail)[|f|..] == tail && (f + tail)[..|f|] == f;
      DecodeConcat(frames[1..], rest);
      assert frames == [f] + frames[1..];
    }
  }

  /** No frame is a proper prefix of another. */
  lemma PrefixFree(f: Frame, g: Frame)
    requires IsFrame(f) && IsFrame(g) && f <= g
    ensures f == g
  {
    assert g == f + g[|f|..];
    FrontStable(f, g[|f|..]);
  }

  /** So a stream of frames can be read in one way only. */
  lemma UniqueDecodability(fs: seq<Frame>, gs: seq<Frame>)
    requires forall f :: f in fs ==> IsFrame(f)
    requires forall g :: g in gs ==> IsFrame(g)
    ensures Concat(fs) == Concat(gs) <==> fs == gs
  {
    DecodeConcat(fs, []);
    DecodeConcat(gs, []);
    assert Concat(fs) + [] == Concat(fs) && Concat(gs) + [] == Concat(gs);
  }

  /** The frames decoded so far stay decoded: a longer stream only adds to them. */
  lemma DecodeMonotone(a: seq<byte>, b: seq<byte>)
    ensures Decode(a).frames <= Decode(a + b).frames
  {
    DecodeAppend(a, b);
  }

  // ----- building and parsing one frame -----

  function Header(m: Message): (h: seq<byte>)
    ensures |h| == FULL_HDR_LEN
  {
    [START] + BigEndian(HDR_LEN, 2)
    + [m.kind, m.charset, m.encoding, m.encryption, m.compression]
    + BigEndian(|m.payload|, 4)
  }

  /** The length of the whole fits an int. */
  predicate Buildable(m: Message) {
    |m.payload| < INT_MAX - FULL_HDR_LEN
  }

  /** The frame the sender builds. */
  function Encode(m: Message): Frame {
    Header(m) + m.payload
  }

  /** The message a received frame carries. */
  function Parse(f: Frame): Message
    requires IsFrame(f)
  {
    Message(f[3], f[4], f[5], f[6], f[7], f[FullHeaderLen(f)..])
  }

  /** The two length fields as the codec reads them. */
  lemma LengthFields(s: seq<byte>)
    requires |s| >= FULL_HDR_LEN
    ensures Signed(Value(s[1..3]), 2) % 0x1_0000 == HeaderLen(s)
    ensures Signed(Value(s[8..12]), 4) % 0x1_0000_0000 == PayloadLen(s)
  {
    assert s[1..3][..1] == [s[1]] && [s[1]][..0] == [];
    assert Value([s[1]]) == s[1];
    assert Value(s[1..3]) == HeaderLen(s);
    assert Pow256(4) == 256 * (256 * (256 * (256 * Pow256(0)))) == 0x1_0000_0000;
    assert Pow256(2) == 256 * (256 * Pow256(0)) == 0x1_0000;
    ValueBound(s[8..12]);
  }

  lemma HeaderFields(m: Message, tail: seq<byte>)
    requires |m.payload| < 0x1_0000_0000
    ensures |Header(m)| == FULL_HDR_LEN
    ensures var s := Header(m) + tail;
      s[0] == START && HeaderLen(s) == HDR_LEN && PayloadLen(s) == |m.payload|
      && s[3..8] == [m.kind, m.charset, m.encoding, m.encryption, m.compression]
  {
    hide BigEndian, Value, Pow256;
    var s := Header(m) + tail;
    NineInTwoBytes();
    assert s[8..12] == BigEndian(|m.payload|, 4);
    FourBytes(|m.payload|);
  }

  lemma NineInTwoBytes()
    ensures BigEndian(HDR_LEN, 2) == [0, 9]
  {
    assert BigEndian(9, 2) == BigEndian(0, 1) + [9];
    assert BigEndian(0, 1) == BigEndian(0, 0) + [0];
  }

  lemma FourBytes(n: int)
    requires 0 <= n < 0x1_0000_0000
    ensures Value(BigEndian(n, 4)) == n
  {
    ValueOfBigEndian(n, 4);
    assert Pow256(4) == 256 * (256 * (256 * (256 * Pow256(0)))) == 0x1_0000_0000;
  }

  lemma SmallFrame(m: Message)
    requires |m.payload| < 256
    ensures Encode(m) == [START, 0, 9, m.kind, m.charset, m.encoding, m.encryption, m.compression,
                          0, 0, 0, |m.payload|] + m.payload
  {
    var n := |m.payload|;
    assert BigEndian(9, 2) == BigEndian(0, 1) + [9];
    assert BigEndian(n, 4) == BigEndian(0, 3) + [n];
    assert BigEndian(0, 3) == BigEndian(0, 2) + [0];
    assert BigEndian(0, 2) == BigEndian(0, 1) + [0];
    assert BigEndian(0, 1) == BigEndian(0, 0) + [0];
  }

  /** The receiver gets back exactly the message, for every payload that is not empty and fits; any other
      message builds a frame the receiver never completes. */
  lemma FrameRoundTrip(m: Message)
    requires Buildable(m)
    ensures IsFrame(Encode(m)) <==> m.payload != []
    ensures m.payload != [] ==> Parse(Encode(m)) == m
  {
    HeaderFields(m, m.payload);
    var f := Encode(m);
    assert f[3] == f[3..8][0] && f[4] == f[3..8][1] && f[5] == f[3..8][2] && f[6] == f[3..8][3] && f[7] == f[3..8][4];
  }

  /** Other way round, also for headers longer than the sender's: the frame is its header followed by the payload
      parsed from it, and with the sender's header length it is the frame the sender would build. */
  lemma ParsedFrame(f: Frame)
    requires IsFrame(f)
    ensures f == f[..FullHeaderLen(f)] + Parse(f).payload
    ensures |Parse(f).payload| == PayloadLen(f)
    ensures HeaderLen(f) == HDR_LEN <==> Encode(Parse(f)) == f
  {
    hide BigEndian, Value, Pow256, Header;
    var m := Parse(f);
    FourBytesBound(f[8..12]);
    HeaderFields(m, m.payload);
    if HeaderLen(f) == HDR_LEN {
      SameHeaderBytes(f, m);
    }
  }

  /** A frame in general: its header may go on behind the payload length. Each of these that is not too long and has a
      payload is one, carries the message and ends with it; nothing shorter in front of it is one. */
  lemma LongHeader(m: Message, ext: seq<byte>, k: nat)
    requires |ext| <= 65523 && 12 + |ext| + |m.payload| < 0x7FFF_FFFF
    ensures var f := [0xFF] + BigEndian(9 + |ext|, 2)
                     + [m.kind, m.charset, m.encoding, m.encryption, m.compression]
                     + BigEndian(|m.payload|, 4) + ext + m.payload;
      && FrontOk(f) && (IsFrame(f) <==> m.payload != []) && (m.payload != [] ==> Parse(f) == m)
      && (k < |f| ==> FrontOk(f[..k]) && !HasFrame(f[..k]))
      && (ext == [] <==> f == Encode(m))
  {
    hide BigEndian, Value, Pow256;
    TwoBytes(9 + |ext|);
    FourBytes(|m.payload|);
    var h := [0xFF] + BigEndian(9 + |ext|, 2) + [m.kind, m.charset, m.encoding, m.encryption, m.compression]
      + BigEndian(|m.payload|, 4);
    var f := h + ext + m.payload;
    assert f[8..12] == BigEndian(|m.payload|, 4);
    assert f[1..3] == BigEndian(9 + |ext|, 2) && f[1] == f[1..3][0] && f[2] == f[1..3][1];
    assert f[FullHeaderLen(f)..] == m.payload;
    if k < |f| {
      assert f == f[..k] + f[k..];
      FrontStable(f[..k], f[k..]);
    }
  }

  lemma TwoBytes(n: int)
    requires 0 <= n < 0x1_0000
    ensures var bs := BigEndian(n, 2); bs[0] as int * 256 + bs[1] == n
  {
    assert BigEndian(n, 2) == BigEndian(n / 256, 1) + [n % 256];
    assert BigEndian(n / 256, 1) == BigEndian(n / 256 / 256, 0) + [n / 256 % 256];
  }

  lemma FourBytesBound(bs: seq<byte>)
    requires |bs| == 4
    ensures Value(bs) < 0x1_0000_0000 && BigEndian(Value(bs), 4) == bs
  {
    ValueBound(bs);
    BigEndianOfValue(bs);
    assert Pow256(4) == 256 * (256 * (256 * (256 * Pow256(0)))) == 0x1_0000_0000;
  }

  lemma SameHeaderBytes(f: Frame, m: Message)
    requires IsFrame(f) && m == Parse(f) && |m.payload| == PayloadLen(f) && HeaderLen(f) == HDR_LEN
    ensures Header(m) == f[..12]
  {
    hide BigEndian, Value, Pow256;
    FourBytesBound(f[8..12]);
    NineInTwoBytes();
    assert [0, 9] == f[1..3];
    assert Header(m) == [f[0]] + f[1..3] + [f[3], f[4], f[5], f[6], f[7]] + f[8..12] == f[..12];
  }

  // ----- an empty payload -----

  /** Some bytes after a complete header that announces an empty payload. */
  predicate Stuck(s: seq<byte>) {
    |s| >= FULL_HDR_LEN && PayloadLen(s) == 0 && FullHeaderLen(s) < |s|
  }

  /** Once the rest of the stream is stuck, no packet is ever completed again, whatever is received. */
  lemma StuckForever(s: seq<byte>, b: seq<byte>)
    requires |Decode(s).rest| >= FULL_HDR_LEN && PayloadLen(Decode(s).rest) == 0
    ensures Decode(s + b).frames == Decode(s).frames
    ensures Decode(s + b).rest == Decode(s).rest + b
  {
    DecodeAppend(s, b);
    FrontStable(Decode(s).rest, b);
  }

  function EncodeAll(ms: seq<Message>): (fs: seq<Frame>)
    ensures |fs| == |ms| && forall i :: 0 <= i < |ms| ==> fs[i] == Encode(ms[i])
  {
    seq(|ms|, i requires 0 <= i < |ms| => Encode(ms[i]))
  }

  lemma EncodeCons(m: Message, ms: seq<Message>)
    ensures EncodeAll([m] + ms) == [Encode(m)] + EncodeAll(ms)
  {
  }

  /** The messages before the first one without a payload. */
  function Delivered(ms: seq<Message>): (d: seq<Message>)
    ensures d <= ms
    ensures d == ms <==> forall m :: m in ms ==> m.payload != []
    ensures forall m :: m in d ==> m.payload != []
  {
    if ms == [] || ms[0].payload == [] then [] else
    assert ms == [ms[0]] + ms[1..];
    [ms[0]] + Delivered(ms[1..])
  }

  /** What becomes of messages sent whole, with any bytes behind them: those before the first one without a payload are
      decoded, and if there is none without, so is what follows. */
  lemma {:induction false} SentThen(ms: seq<Message>, tail: seq<byte>)
    requires forall m :: m in ms ==> Buildable(m)
    ensures var d := Decode(Concat(EncodeAll(ms)) + tail);
      if Delivered(ms) == ms then d == Decoded(EncodeAll(ms) + Decode(tail).frames, Decode(tail).rest)
      else d.frames == EncodeAll(Delivered(ms))
    ensures Delivered(ms) != ms || StreamOk(tail) ==> StreamOk(Concat(EncodeAll(ms)) + tail)
  {
    hide Decode, StreamOk, Encode, Concat;
    if ms == [] {
      NothingSent(tail);
    } else {
      var m, rest := ms[0], Concat(EncodeAll(ms[1..])) + tail;
      assert [m] + ms[1..] == ms;
      EncodeCons(m, ms[1..]);
      Reassociate(Encode(m), EncodeAll(ms[1..]), tail);
      assert m in ms && forall x :: x in ms[1..] ==> x in ms;
      SentThen(ms[1..], tail);
      SentFirst(m, rest);
      EncodeCons(m, Delivered(ms[1..]));
      assert EncodeAll([]) == [];
      Assoc([Encode(m)], EncodeAll(ms[1..]), Decode(tail).frames);
    }
  }

  lemma NothingSent(tail: seq<byte>)
    ensures EncodeAll([]) == [] && Concat([]) + tail == tail
    ensures Delivered([]) == [] && [] + Decode(tail).frames == Decode(tail).frames
  {
  }

  /** With only a part of another frame behind them. */
  lemma SentWhole(ms: seq<Message>, rest: seq<byte>)
    requires forall m :: m in ms ==> Buildable(m)
    requires FrontOk(rest) && !HasFrame(rest)
    ensures StreamOk(Concat(EncodeAll(ms)) + rest)
    ensures Decode(Concat(EncodeAll(ms)) + rest).frames == EncodeAll(Delivered(ms))
    ensures Delivered(ms) == ms ==> Decode(Concat(EncodeAll(ms)) + rest).rest == rest
  {
    SentThen(ms, rest);
    assert EncodeAll(ms) + [] == EncodeAll(ms);
  }

  /** What the decoder makes of a message at the front of the stream. */
  lemma SentFirst(m: Message, tail: seq<byte>)
    requires Buildable(m)
    ensures var d := Decode(Encode(m) + tail);
      && (m.payload == [] ==> d.frames == [] && StreamOk(Encode(m) + tail))
      && (m.payload != [] ==>
            && d == Decoded([Encode(m)] + Decode(tail).frames, Decode(tail).rest)
            && (StreamOk(tail) ==> StreamOk(Encode(m) + tail)))
  {
    var f := Encode(m);
    HeaderFields(m, m.payload);
    FrontStable(f, tail);
    assert (f + tail)[|f|..] == tail && (f + tail)[..|f|] == f;
  }

  /** Sending messages whole delivers all of them, and leaves nothing over, exactly when each has a payload. */
  lemma AllDelivered(ms: seq<Message>)
    requires forall m :: m in ms ==> Buildable(m)
    ensures Decode(Concat(EncodeAll(ms))) == Decoded(EncodeAll(ms), []) <==> forall m :: m in ms ==> m.payload != []
  {
    SentWhole(ms, []);
    assert Concat(EncodeAll(ms)) + [] == Concat(EncodeAll(ms));
  }

  // ----- a frame of which only the first k bytes were sent -----

  /** The bytes that follow complete a frame in its place: when, and which. Up to the payload length in the header the
      length of that frame comes from the bytes that follow. */
  lemma CutFrame(m: Message, k: nat, more: seq<byte>)
    requires Buildable(m) && k < |Encode(m)|
    ensures var f := Encode(m); var s := f[..k] + more;
      && (3 <= k ==> (HasFrame(s) <==> |s| >= FULL_HDR_LEN && 0 < PayloadLen(s) <= |s| - FULL_HDR_LEN))
      && (FULL_HDR_LEN <= k ==> FrontOk(s) && (HasFrame(s) <==> |more| >= |f| - k))
      && (FULL_HDR_LEN <= k && HasFrame(s) ==> s[..FrameLen(s)] == f[..k] + more[..|f| - k])
      && (HasFrame(s) && s[..FrameLen(s)] == f <==> m.payload != [] && f[k..] <= more)
  {
    var f := Encode(m);
    var s := f[..k] + more;
    HeaderFields(m, m.payload);
    CutHeader(f, k, more);
    if f[k..] <= more && m.payload != [] {
      CutCompleted(f, k, more);
    }
    if HasFrame(s) && s[..FrameLen(s)] == f {
      CutFollows(f, k, more, FrameLen(s));
    }
  }

  /** What the bytes sent before the cut say already. */
  lemma CutHeader(f: Frame, k: nat, more: seq<byte>)
    requires FrontOk(f) && FULL_HDR_LEN <= |f| == FrameLen(f) && k < |f|
    ensures var s := f[..k] + more;
      && (3 <= k ==> HeaderLen(s) == HeaderLen(f))
      && (FULL_HDR_LEN <= k ==> FrameLen(s) == |f| && PayloadLen(s) == PayloadLen(f) && FrontOk(s))
      && (|more| >= |f| - k ==> s[..|f|] == f[..k] + more[..|f| - k])
  {
    assert f == f[..k] + f[k..];
    FrontStable(f[..k], f[k..]);
    FrontStable(f[..k], more);
  }

  lemma CutFollows(f: Frame, k: nat, more: seq<byte>, n: nat)
    requires k < |f| && n <= k + |more| && (f[..k] + more)[..n] == f
    ensures f[k..] <= more
  {
    assert (f[..k] + more)[..n][k..] == more[..n - k];
  }

  lemma CutCompleted(f: Frame, k: nat, more: seq<byte>)
    requires k < |f| && f[k..] <= more && HasFrame(f) && FrameLen(f) == |f|
    ensures var s := f[..k] + more; HasFrame(s) && s[..FrameLen(s)] == f
  {
    var tail := more[|f| - k..];
    assert more == f[k..] + tail && f == f[..k] + f[k..];
    assert f[..k] + more == f + tail;
    FrontStable(f, tail);
    assert (f + tail)[..|f|] == f;
  }

  /** The exact condition under which the packets completed are still those sent: after whole messages and the first k
      bytes of another, nothing else is completed if and only if the bytes that follow hold no frame together with
      those k bytes, which from the header on means that they are fewer than the frame lacks. Otherwise the next
      packet completed is made of both, and it is the one that was cut if and only if the missing bytes follow. */
  lemma CutStream(ms: seq<Message>, m: Message, k: nat, more: seq<byte>)
    requires forall x :: x in ms ==> Buildable(x) && x.payload != []
    requires Buildable(m) && k < |Encode(m)|
    ensures var f := Encode(m); var s := f[..k] + more; var d := Decode(Concat(EncodeAll(ms)) + s);
      && (d.frames == EncodeAll(ms) <==> !HasFrame(s))
      && (3 <= k ==> (HasFrame(s) <==> |s| >= FULL_HDR_LEN && 0 < PayloadLen(s) <= |s| - FULL_HDR_LEN))
      && (FULL_HDR_LEN <= k ==> (d.frames == EncodeAll(ms) <==> |more| < |f| - k))
      && (HasFrame(s) ==>
            && |d.frames| > |ms| && d.frames[..|ms|] == EncodeAll(ms) && d.frames[|ms|] == s[..FrameLen(s)]
            && (FULL_HDR_LEN <= k ==> d.frames[|ms|] == f[..k] + more[..|f| - k])
            && (d.frames[|ms|] == f <==> m.payload != [] && f[k..] <= more))
  {
    var s := Encode(m)[..k] + more;
    CutFrame(m, k, more);
    SentThen(ms, s);
    var d := Decode(Concat(EncodeAll(ms)) + s);
    assert d.frames == EncodeAll(ms) + Decode(s).frames;
    if HasFrame(s) {
      assert Decode(s).frames == [s[..FrameLen(s)]] + Decode(s[FrameLen(s)..]).frames;
      assert d.frames[|ms|] == Decode(s).frames[0];
    } else {
      assert EncodeAll(ms) + [] == EncodeAll(ms);
    }
  }

  /** And when the whole is well formed: behind the header, exactly if what lies behind the frame is. */
  lemma CutWellFormed(ms: seq<Message>, m: Message, k: nat, more: seq<byte>)
    requires forall x :: x in ms ==> Buildable(x) && x.payload != []
    requires Buildable(m) && FULL_HDR_LEN <= k < |Encode(m)|
    ensures var f := Encode(m); var s := Concat(EncodeAll(ms)) + (f[..k] + more);
      && (StreamOk(s) <==> |more| < |f| - k || StreamOk(more[|f| - k..]))
      && (|more| >= |f| - k ==>
            var tail := more[|f| - k..];
            Decode(s) == Decoded(EncodeAll(ms) + [f[..k] + more[..|f| - k]] + Decode(tail).frames, Decode(tail).rest))
  {
    hide Decode, StreamOk, Encode, Concat, EncodeAll;
    var f := Encode(m);
    var cut := f[..k] + more;
    CutDecodes(m, k, more);
    SentThen(ms, cut);
    BehindSent(ms, cut);
    if |more| >= |f| - k {
      Assoc(EncodeAll(ms), [f[..k] + more[..|f| - k]], Decode(more[|f| - k..]).frames);
    }
  }

  lemma CutDecodes(m: Message, k: nat, more: seq<byte>)
    requires Buildable(m) && FULL_HDR_LEN <= k < |Encode(m)|
    ensures var f := Encode(m); var s := f[..k] + more;
      && (StreamOk(s) <==> |more| < |f| - k || StreamOk(more[|f| - k..]))
      && (|more| >= |f| - k ==>
            var tail := more[|f| - k..];
            Decode(s) == Decoded([f[..k] + more[..|f| - k]] + Decode(tail).frames, Decode(tail).rest))
  {
    hide Header, Value;
    var f := Encode(m);
    var s := f[..k] + more;
    CutFrame(m, k, more);
    HeaderFields(m, m.payload);
    CutHeader(f, k, more);
    if |more| >= |f| - k {
      assert s[|f|..] == more[|f| - k..];
    }
  }

  lemma BehindSent(ms: seq<Message>, tail: seq<byte>)
    requires forall x :: x in ms ==> Buildable(x) && x.payload != []
    ensures StreamOk(Concat(EncodeAll(ms)) + tail) <==> StreamOk(tail)
  {
    hide Decode, StreamOk, Encode, EncodeAll, Concat;
    SentThen(ms, tail);
    if StreamOk(Concat(EncodeAll(ms)) + tail) {
      AllDelivered(ms);
      StreamOkAppend(Concat(EncodeAll(ms)), tail);
      assert [] + tail == tail;
    }
  }
}
