/** One direction of a connection, end to end: packets sent one after the other through the partial-write loop, a byte
    channel that keeps order, and a receiver that reads up to 1500 bytes at a time. */
module Transfer {
  import opened Bytes
  import opened Framing
  import opened Reassembly

  /** One send of a packet: how many bytes of its frame got out. */
  datatype Write = Write(msg: Message, frame: Frame, accepted: nat)

  datatype State = State(writes: seq<Write>, sending: bool, wire: seq<byte>, frags: seq<seq<byte>>, stacks: seq<Stack>)

  datatype Action =
    | Send(m: Message)
    | Accept(k: nat)
    | Fail
    | Receive(k: nat, stack: Stack)

  const INIT := State([], false, [], [], [])

  predicate Enabled(s: State, a: Action) {
    match a
    case Send(m) => !s.sending && Buildable(m)
    case Accept(k) => s.sending && s.writes != [] && var w := s.writes[|s.writes| - 1];
                      0 < k && w.accepted + k <= |w.frame|
    case Fail => s.sending
    case Receive(k, _) => 0 < k <= |s.wire| && k <= BUFF_SIZE && |s.stacks| == |s.frags|
  }

  function Step(s: State, a: Action): State
    requires Enabled(s, a)
  {
    match a
    case Send(m) => s.(writes := s.writes + [Write(m, Encode(m), 0)], sending := true)
    case Accept(k) =>
      var w := s.writes[|s.writes| - 1];
      s.(writes := Grown(s.writes, k),
      wire := s.wire + w.frame[w.accepted..w.accepted + k],
      sending := w.accepted + k < |w.frame|)
    case Fail => s.(sending := false)
    case Receive(k, stack) =>
      s.(wire := s.wire[k..], frags := s.frags + [s.wire[..k]], stacks := s.stacks + [stack])
  }

  /** The state after a run, if each of its actions is enabled. */
  ghost predicate IsRun(actions: seq<Action>, s: State)
    decreases |actions|
  {
    if actions == [] then s == INIT else
    var k := |actions| - 1;
    exists before :: IsRun(actions[..k], before) && Enabled(before, actions[k]) && Step(before, actions[k]) == s
  }

  // ----- what has gone out -----

  function Log(writes: seq<Write>): seq<byte> {
    if writes == [] then [] else
    var k := |writes| - 1;
    Log(writes[..k]) + Out(writes[k])
  }

  function Out(w: Write): seq<byte> {
    if w.accepted <= |w.frame| then w.frame[..w.accepted] else w.frame
  }

  /** One more send, of which k bytes were accepted. */
  lemma OneMoreWrite(writes: seq<Write>, m: Message, k: nat)
    requires k <= |Encode(m)|
    ensures Log(writes + [Write(m, Encode(m), k)]) == Log(writes) + Encode(m)[..k]
  {
    assert (writes + [Write(m, Encode(m), k)])[..|writes|] == writes;
  }

  /** A part of the frame went out: the send failed, or is still under way. */
  predicate Torn(w: Write) {
    0 < w.accepted < |w.frame|
  }

  /** The messages whose frame went out whole. */
  function Whole(writes: seq<Write>): seq<Message> {
    if writes == [] then [] else
    var k := |writes| - 1;
    Whole(writes[..k]) + if writes[k].accepted == |writes[k].frame| then [writes[k].msg] else []
  }

  predicate WritesOk(writes: seq<Write>) {
    forall w :: w in writes ==> Buildable(w.msg) && w.frame == Encode(w.msg) && w.accepted <= |w.frame|
  }

  /** Nothing was sent after a write that failed part of the way. */
  predicate Clean(writes: seq<Write>) {
    forall i :: 0 <= i < |writes| - 1 ==> !Torn(writes[i])
  }

  /** What every action keeps: what was received and what is in flight are what went out. */
  ghost predicate Inv(s: State) {
    && WritesOk(s.writes) && |s.frags| == |s.stacks|
    && Concat(s.frags) + s.wire == Log(s.writes)
    && (forall f :: f in s.frags ==> f != [])
  }

  lemma {:induction false} Conservation(actions: seq<Action>, s: State)
    requires IsRun(actions, s)
    ensures Inv(s)
    decreases |actions|
  {
    if actions != [] {
      var k := |actions| - 1;
      var before :| IsRun(actions[..k], before) && Enabled(before, actions[k]) && Step(before, actions[k]) == s;
      Conservation(actions[..k], before);
      match actions[k]
      case Send(m) => SendKeeps(before, m);
      case Accept(n) => AcceptKeeps(before, n);
      case Fail =>
      case Receive(n, stack) => ReceiveKeeps(before, n, stack);
    }
  }

  lemma SendKeeps(s: State, m: Message)
    requires Inv(s) && Enabled(s, Send(m))
    ensures Inv(Step(s, Send(m)))
  {
    var t := Step(s, Send(m));
    assert t.writes[..|s.writes|] == s.writes;
    assert Log(t.writes) == Log(s.writes) + [];
  }

  lemma AcceptKeeps(s: State, k: nat)
    requires Inv(s) && Enabled(s, Accept(k))
    ensures Inv(Step(s, Accept(k)))
  {
    hide WritesOk, Log, Concat;
    var w := s.writes[|s.writes| - 1];
    LogGrows(s.writes, k);
    WritesStayOk(s.writes, k);
    Assoc(Concat(s.frags), s.wire, w.frame[w.accepted..w.accepted + k]);
  }

  function Grown(writes: seq<Write>, k: nat): seq<Write>
    requires writes != []
  {
    var n := |writes| - 1;
    writes[..n] + [writes[n].(accepted := writes[n].accepted + k)]
  }

  lemma WritesStayOk(writes: seq<Write>, k: nat)
    requires writes != [] && writes[|writes| - 1].accepted + k <= |writes[|writes| - 1].frame|
    requires WritesOk(writes)
    ensures WritesOk(Grown(writes, k))
  {
    var w := writes[|writes| - 1];
    assert w in writes;
    forall x | x in Grown(writes, k)
      ensures x in writes || x == w.(accepted := w.accepted + k)
    {
    }
  }

  /** What one more send call accepts is appended to the log. */
  lemma LogGrows(writes: seq<Write>, k: nat)
    requires writes != []
    requires var w := writes[|writes| - 1]; w.accepted + k <= |w.frame|
    ensures var w := writes[|writes| - 1];
      Log(Grown(writes, k)) == Log(writes) + w.frame[w.accepted..w.accepted + k]
  {
    var n := |writes| - 1;
    var w := writes[n];
    var sent := w.frame[w.accepted..w.accepted + k];
    assert Grown(writes, k)[..n] == writes[..n];
    assert w.frame[..w.accepted + k] == w.frame[..w.accepted] + sent;
    Assoc(Log(writes[..n]), Out(w), sent);
  }

  lemma ReceiveKeeps(s: State, k: nat, stack: Stack)
    requires Inv(s) && Enabled(s, Receive(k, stack))
    ensures Inv(Step(s, Receive(k, stack)))
  {
    var t := Step(s, Receive(k, stack));
    var got, left := s.wire[..k], s.wire[k..];
    assert s.wire == got + left;
    ConcatSnoc(s.frags, got);
    Assoc(Concat(s.frags), got, left);
    assert Concat(t.frags) + t.wire == Log(t.writes);
  }

  // ----- decoding what has gone out -----

  /** A part of a frame holds no frame. */
  lemma TornPart(m: Message, k: nat)
    requires Buildable(m) && k < |Encode(m)|
    ensures FrontOk(Encode(m)[..k]) && !HasFrame(Encode(m)[..k])
  {
    hide Header, Value;
    var f := Encode(m);
    HeaderFields(m, m.payload);
    assert f == f[..k] + f[k..];
    FrontStable(f[..k], f[k..]);
  }

  lemma {:induction false} WholeBuildable(writes: seq<Write>)
    requires WritesOk(writes)
    ensures forall m :: m in Whole(writes) ==> Buildable(m)
    decreases |writes|
  {
    hide Encode, Buildable;
    if writes != [] {
      var k := |writes| - 1;
      WritesOkFront(writes);
      WholeBuildable(writes[..k]);
    }
  }

  lemma WritesOkFront(writes: seq<Write>)
    requires WritesOk(writes) && writes != []
    ensures var w := writes[|writes| - 1];
      WritesOk(writes[..|writes| - 1]) && Buildable(w.msg) && w.frame == Encode(w.msg) && w.accepted <= |w.frame|
  {
    assert writes[|writes| - 1] in writes && forall x :: x in writes[..|writes| - 1] ==> x in writes;
  }

  /** One more write after the log so far. */
  lemma WholeLog(writes: seq<Write>)
    requires writes != [] && writes[|writes| - 1].frame == Encode(writes[|writes| - 1].msg)
    ensures var w, before := writes[|writes| - 1], Whole(writes[..|writes| - 1]);
      && (w.accepted == |w.frame| ==> Concat(EncodeAll(Whole(writes))) == Concat(EncodeAll(before)) + w.frame)
      && (w.accepted != |w.frame| ==> Whole(writes) == before)
  {
    var w, before := writes[|writes| - 1], Whole(writes[..|writes| - 1]);
    assert EncodeAll(before + [w.msg]) == EncodeAll(before) + [w.frame];
    ConcatSnoc(EncodeAll(before), w.frame);
  }

  /** Without a torn write, the log is the frames of the whole ones. */
  lemma {:induction false} UntornLog(writes: seq<Write>)
    requires WritesOk(writes) && forall w :: w in writes ==> !Torn(w)
    ensures Log(writes) == Concat(EncodeAll(Whole(writes)))
    decreases |writes|
  {
    hide Encode, EncodeAll, Concat;
    if writes == [] {
      NothingSent([]);
      assert Concat([]) == Concat([]) + [];
    } else {
      var k := |writes| - 1;
      WritesOkFront(writes);
      assert writes[k] in writes && forall x :: x in writes[..k] ==> x in writes;
      UntornLog(writes[..k]);
      WholeLog(writes);
    }
  }

  /** If nothing follows a torn write, the log decodes to the frames of the messages sent whole, up to the first one
      without a payload. */
  lemma CleanLog(writes: seq<Write>)
    requires WritesOk(writes) && Clean(writes)
    ensures StreamOk(Log(writes)) && Decode(Log(writes)).frames == EncodeAll(Delivered(Whole(writes)))
  {
    WholeBuildable(writes);
    if writes == [] || !Torn(writes[|writes| - 1]) {
      forall x | x in writes
        ensures !Torn(x)
      {
        var i :| 0 <= i < |writes| && writes[i] == x;
      }
      UntornLog(writes);
      SentWhole(Whole(writes), []);
      assert Log(writes) == Concat(EncodeAll(Whole(writes))) + [];
    } else {
      TornEnd(writes);
    }
  }

  lemma TornEnd(writes: seq<Write>)
    requires WritesOk(writes) && Clean(writes) && writes != [] && Torn(writes[|writes| - 1])
    ensures StreamOk(Log(writes)) && Decode(Log(writes)).frames == EncodeAll(Delivered(Whole(writes)))
  {
    hide Decode, EncodeAll, Delivered, Concat, StreamOk, Log, Whole, FrontOk, HasFrame, WritesOk;
    var k := |writes| - 1;
    var w := writes[k];
    BeforeTorn(writes);
    UntornLog(writes[..k]);
    WholeBuildable(writes[..k]);
    TornPart(w.msg, w.accepted);
    SentWhole(Whole(writes[..k]), Out(w));
  }

  lemma BeforeTorn(writes: seq<Write>)
    requires WritesOk(writes) && Clean(writes) && writes != [] && Torn(writes[|writes| - 1])
    ensures var front, w := writes[..|writes| - 1], writes[|writes| - 1];
      && WritesOk(front) && (forall x :: x in front ==> !Torn(x))
      && Buildable(w.msg) && w.frame == Encode(w.msg)
      && Log(writes) == Log(front) + Out(w) && Whole(writes) == Whole(front)
  {
    var k := |writes| - 1;
    assert writes[k] in writes && forall x :: x in writes[..k] ==> x in writes;
    forall x | x in writes[..k]
      ensures !Torn(x)
    {
      var i :| 0 <= i < k && writes[..k][i] == x;
      assert writes[i] == x;
    }
  }

  // ----- the theorems -----

  /** Safety in every run: as long as nothing is sent after a torn write, the packets the receiver has completed are the
      first of those sent whole: in order, none lost in between, repeated or merged. All of them, once everything has
      arrived, up to the first one without a payload. For the intended receiver however the stream is cut; for the
      code as written if the first three bytes of each frame come together. */
  lemma ReceivedIsPrefixOfSent(keeps: bool, actions: seq<Action>, s: State)
    requires IsRun(actions, s) && Clean(s.writes)
    requires keeps || HeadsWhole(s.frags)
    ensures |s.frags| == |s.stacks| && Right(keeps, s.frags, s.stacks)
    ensures Decode(Image(keeps, s.frags, s.stacks)).frames <= EncodeAll(Delivered(Whole(s.writes)))
    ensures s.wire == [] ==> Decode(Image(keeps, s.frags, s.stacks)).frames == EncodeAll(Delivered(Whole(s.writes)))
  {
    Conservation(actions, s);
    CleanLog(s.writes);
    StreamOkAppend(Concat(s.frags), s.wire);
    ReassemblyRefinesDecode(keeps, s.frags, s.stacks);
    DecodeMonotone(Concat(s.frags), s.wire);
    if s.wire == [] {
      assert Concat(s.frags) + [] == Concat(s.frags);
    }
  }

  /** The messages read out of the completed packets are the first of the messages sent whole. */
  lemma ReceivedMessages(keeps: bool, actions: seq<Action>, s: State, i: nat)
    requires IsRun(actions, s) && Clean(s.writes)
    requires keeps || HeadsWhole(s.frags)
    requires |s.frags| == |s.stacks| && i < |Decode(Image(keeps, s.frags, s.stacks)).frames|
    ensures i < |Whole(s.writes)|
    ensures var f := Decode(Image(keeps, s.frags, s.stacks)).frames[i];
      IsFrame(f) && Parse(f) == Whole(s.writes)[i]
  {
    ReceivedIsPrefixOfSent(keeps, actions, s);
    Conservation(actions, s);
    WholeBuildable(s.writes);
    var m := Delivered(Whole(s.writes))[i];
    assert m in Delivered(Whole(s.writes)) && m in Whole(s.writes);
    FrameRoundTrip(m);
  }

  function TornBytes(writes: seq<Write>): nat {
    if writes == [] then 0 else
    var k := |writes| - 1;
    TornBytes(writes[..k]) + if Torn(writes[k]) then writes[k].accepted else 0
  }

  lemma {:induction false} LogLength(writes: seq<Write>)
    requires WritesOk(writes)
    ensures |Log(writes)| == |Concat(EncodeAll(Whole(writes)))| + TornBytes(writes)
    ensures TornBytes(writes) == 0 <==> forall w :: w in writes ==> !Torn(w)
    decreases |writes|
  {
    if writes != [] {
      var k := |writes| - 1;
      var w := writes[k];
      assert w in writes && forall x :: x in writes <==> x in writes[..k] || x == w;
      LogLength(writes[..k]);
      WholeLog(writes);
    }
  }

  /** With everything delivered, the stream received decodes to exactly the packets sent whole, with nothing left
      over, if and only if no write is torn, by a failure or because it is still under way, and none of those packets
      is without a payload. Whether the packets completed are right is another matter: see AfterTornWrite. */
  lemma DrainedExactlyWhenUntorn(actions: seq<Action>, s: State)
    requires IsRun(actions, s) && s.wire == []
    ensures Decode(Concat(s.frags)) == Decoded(EncodeAll(Whole(s.writes)), [])
            <==> (forall w :: w in s.writes ==> !Torn(w)) && (forall m :: m in Whole(s.writes) ==> m.payload != [])
  {
    Conservation(actions, s);
    LogLength(s.writes);
    WholeBuildable(s.writes);
    var log := Log(s.writes);
    assert Concat(s.frags) == Concat(s.frags) + [] == log;
    if forall w :: w in s.writes ==> !Torn(w) {
      UntornLog(s.writes);
      AllDelivered(Whole(s.writes));
    } else {
      DecodeConserves(log);
    }
  }

  // ----- after a torn write -----

  ghost predicate FirstTorn(writes: seq<Write>, i: nat) {
    i < |writes| && Torn(writes[i]) && forall j :: 0 <= j < i ==> !Torn(writes[j])
  }

  lemma {:induction false} LogAppend(a: seq<Write>, b: seq<Write>)
    ensures Log(a + b) == Log(a) + Log(b)
    decreases |b|
  {
    if b == [] {
      assert a + b == a && Log(a) + [] == Log(a);
    } else {
      var k := |b| - 1;
      assert (a + b)[..|a| + k] == a + b[..k];
      LogAppend(a, b[..k]);
      Assoc(Log(a), Log(b[..k]), Out(b[k]));
    }
  }

  /** The log around the first torn write. */
  lemma LogAround(writes: seq<Write>, i: nat)
    requires WritesOk(writes) && FirstTorn(writes, i)
    ensures var w := writes[i];
      && Buildable(w.msg) && w.frame == Encode(w.msg) && (forall m :: m in Whole(writes[..i]) ==> Buildable(m))
      && Log(writes) == Concat(EncodeAll(Whole(writes[..i]))) + (w.frame[..w.accepted] + Log(writes[i + 1..]))
  {
    hide Log, Torn, Whole, Concat, EncodeAll, Encode, WritesOk;
    BeforeFirstTorn(writes, i);
    UntornLog(writes[..i]);
    WholeBuildable(writes[..i]);
    LogSplit(writes, i);
  }

  lemma LogSplit(writes: seq<Write>, i: nat)
    requires i < |writes|
    ensures Log(writes) == Log(writes[..i]) + (Out(writes[i]) + Log(writes[i + 1..]))
  {
    hide Log, Out;
    var w, rest := writes[i], writes[i + 1..];
    assert writes == writes[..i] + ([w] + rest);
    LogAppend(writes[..i], [w] + rest);
    LogAppend([w], rest);
    LogOne(w);
  }

  lemma LogOne(w: Write)
    ensures Log([w]) == Out(w)
  {
    assert [w][..0] == [] && Log([w]) == [] + Out(w);
  }

  lemma BeforeFirstTorn(writes: seq<Write>, i: nat)
    requires WritesOk(writes) && FirstTorn(writes, i)
    ensures WritesOk(writes[..i]) && (forall w :: w in writes[..i] ==> !Torn(w))
    ensures var w := writes[i]; Buildable(w.msg) && w.frame == Encode(w.msg) && w.accepted < |w.frame|
  {
    forall w | w in writes[..i]
      ensures w in writes && !Torn(w)
    {
      var j :| 0 <= j < i && writes[..i][j] == w;
      assert writes[j] == w;
    }
    assert writes[i] in writes;
  }

  /** Whether the sender may go on after a write that was torn, exactly: with everything delivered, the packets
      completed are those sent whole before it, and nothing else, if and only if what was sent afterwards holds no
      frame together with the part of it that got out: from the header on, if and only if it is shorter than what the
      frame lacks. Otherwise the next packet completed is made of both, and is the one whose write was torn if and
      only if the missing bytes follow. */
  lemma AfterTornWrite(actions: seq<Action>, s: State, i: nat)
    requires IsRun(actions, s) && s.wire == [] && FirstTorn(s.writes, i)
    requires forall m :: m in Whole(s.writes[..i]) ==> m.payload != []
    ensures var ms, f, k := Whole(s.writes[..i]), s.writes[i].frame, s.writes[i].accepted;
      var more := Log(s.writes[i + 1..]);
      var cut, d := f[..k] + more, Decode(Concat(s.frags));
      && (d.frames == EncodeAll(ms) <==> !HasFrame(cut))
      && (FULL_HDR_LEN <= k ==> (d.frames == EncodeAll(ms) <==> |more| < |f| - k))
      && (HasFrame(cut) ==>
            && |d.frames| > |ms| && d.frames[..|ms|] == EncodeAll(ms) && d.frames[|ms|] == cut[..FrameLen(cut)]
            && (d.frames[|ms|] == f <==> s.writes[i].msg.payload != [] && f[k..] <= more))
  {
    hide Decode, Concat, EncodeAll, Encode, Log, Whole, WritesOk, IsRun, HasFrame, FrameLen;
    Conservation(actions, s);
    LogAround(s.writes, i);
    var w := s.writes[i];
    CutStream(Whole(s.writes[..i]), w.msg, w.accepted, Log(s.writes[i + 1..]));
    assert Concat(s.frags) + [] == Concat(s.frags);
  }

  /** Safety goes on as long as that is so, at every moment of a run and for the receiver itself: for any cut, as long
      as what was sent afterwards is well formed with the part that got out and holds no frame with it. */
  lemma SafeAfterTornWrite(keeps: bool, actions: seq<Action>, s: State, i: nat)
    requires IsRun(actions, s) && FirstTorn(s.writes, i)
    requires var cut := s.writes[i].frame[..s.writes[i].accepted] + Log(s.writes[i + 1..]);
      FrontOk(cut) && !HasFrame(cut)
    requires keeps || HeadsWhole(s.frags)
    ensures |s.frags| == |s.stacks| && Right(keeps, s.frags, s.stacks)
    ensures Decode(Image(keeps, s.frags, s.stacks)).frames <= EncodeAll(Delivered(Whole(s.writes[..i])))
    ensures s.wire == [] ==>
              Decode(Image(keeps, s.frags, s.stacks)).frames == EncodeAll(Delivered(Whole(s.writes[..i])))
  {
    hide Decode, Concat, EncodeAll, Encode, Log, Whole, WritesOk, IsRun, Image, Delivered, StreamOk, FrontOk;
    var w, more := s.writes[i], Log(s.writes[i + 1..]);
    Conservation(actions, s);
    LogAround(s.writes, i);
    SentWhole(Whole(s.writes[..i]), w.frame[..w.accepted] + more);
    StreamOkAppend(Concat(s.frags), s.wire);
    ReassemblyRefinesDecode(keeps, s.frags, s.stacks);
    DecodeMonotone(Concat(s.frags), s.wire);
    if s.wire == [] {
      assert Concat(s.frags) + [] == Concat(s.frags);
    }
  }

  /** What the receiver makes of a write cut behind its header, exactly and at every moment of a run. Before as many
      bytes have arrived as the cut frame has, it is right, and has completed nothing but packets sent whole. From
      then on there is a packet made of both, which is the one that was cut if and only if the missing bytes follow,
      and the receiver is right if and only if what has arrived behind it is well formed: so not if that does not
      begin with 0xFF. */
  lemma ReceiverAfterTornWrite(keeps: bool, actions: seq<Action>, s: State, i: nat)
    requires IsRun(actions, s) && FirstTorn(s.writes, i) && FULL_HDR_LEN <= s.writes[i].accepted
    requires forall m :: m in Whole(s.writes[..i]) ==> m.payload != []
    requires keeps || HeadsWhole(s.frags)
    ensures |s.frags| == |s.stacks|
    ensures var ms, f, k := Whole(s.writes[..i]), s.writes[i].frame, s.writes[i].accepted;
      var more, got, n := Log(s.writes[i + 1..]), Concat(s.frags), |Concat(EncodeAll(Whole(s.writes[..i])))|;
      var d := Decode(Image(keeps, s.frags, s.stacks));
      && (|got| < n + |f| ==> Right(keeps, s.frags, s.stacks) && d.frames <= EncodeAll(ms))
      && (|got| >= n + |f| ==>
            var tail := got[n + |f|..];
            && |more| >= |f| - k
            && (Right(keeps, s.frags, s.stacks) <==> StreamOk(tail))
            && (tail != [] && tail[0] != START ==> !Right(keeps, s.frags, s.stacks))
            && d == Decoded(EncodeAll(ms) + [f[..k] + more[..|f| - k]] + Decode(tail).frames, Decode(tail).rest)
            && (f[..k] + more[..|f| - k] == f <==> f[k..] <= more))
  {
    hide Decode, Concat, EncodeAll, Encode, Log, Whole, WritesOk, IsRun, Image, Right, HeadsWhole;
    var w, more := s.writes[i], Log(s.writes[i + 1..]);
    Conservation(actions, s);
    LogAround(s.writes, i);
    RightExactlyIfWellFormed(keeps, s.frags, s.stacks);
    Arrived(Whole(s.writes[..i]), w.msg, w.accepted, more, Concat(s.frags), s.wire);
  }

  /** The same for what has arrived, as bytes. */
  lemma Arrived(ms: seq<Message>, m: Message, k: nat, more: seq<byte>, got: seq<byte>, wire: seq<byte>)
    requires forall x :: x in ms ==> Buildable(x) && x.payload != []
    requires Buildable(m) && FULL_HDR_LEN <= k < |Encode(m)|
    requires got + wire == Concat(EncodeAll(ms)) + (Encode(m)[..k] + more)
    ensures var f, n := Encode(m), |Concat(EncodeAll(ms))|;
      && (|got| < n + |f| ==> StreamOk(got) && Decode(got).frames <= EncodeAll(ms))
      && (|got| >= n + |f| ==>
            var tail := got[n + |f|..];
            && |more| >= |f| - k
            && (StreamOk(got) <==> StreamOk(tail)) && (tail != [] && tail[0] != START ==> !StreamOk(tail))
            && Decode(got)
               == Decoded(EncodeAll(ms) + [f[..k] + more[..|f| - k]] + Decode(tail).frames, Decode(tail).rest)
            && (f[..k] + more[..|f| - k] == f <==> f[k..] <= more))
  {
    hide Decode, StreamOk, Concat, EncodeAll, Encode;
    var f, whole := Encode(m), Concat(EncodeAll(ms));
    if |got| < |whole| + |f| {
      ArrivedShort(ms, m, k, more, got, wire);
    } else {
      var more' := got[|whole| + k..];
      ArrivedParts(whole, f[..k], more, got, wire);
      CutWellFormed(ms, m, k, more');
      assert more'[..|f| - k] == more[..|f| - k] && more'[|f| - k..] == got[|whole| + |f|..];
      MissingFollow(f, k, more);
      if got[|whole| + |f|..] != [] && got[|whole| + |f|] != START {
        NotStart(got[|whole| + |f|..]);
      }
    }
  }

  lemma NotStart(s: seq<byte>)
    requires s != [] && s[0] != START
    ensures !StreamOk(s)
  {
  }

  lemma MissingFollow(f: seq<byte>, k: nat, more: seq<byte>)
    requires k < |f| <= k + |more|
    ensures f[..k] + more[..|f| - k] == f <==> f[k..] <= more
  {
    assert f == f[..k] + f[k..];
    assert (f[..k] + more[..|f| - k])[k..] == more[..|f| - k];
  }

  lemma ArrivedParts(whole: seq<byte>, part: seq<byte>, more: seq<byte>, got: seq<byte>, wire: seq<byte>)
    requires got + wire == whole + (part + more) && |got| >= |whole| + |part|
    ensures var more' := got[|whole| + |part|..];
      got == whole + (part + more') && more' <= more
  {
    var all := got + wire;
    var n := |whole| + |part|;
    assert whole + (part + more) == (whole + part) + more;
    assert all[..n] == whole + part && all[n..] == more;
    assert got == all[..|got|] && got[..n] == all[..n];
    assert got[n..] == all[n..][..|got| - n];
  }

  lemma ArrivedShort(ms: seq<Message>, m: Message, k: nat, more: seq<byte>, got: seq<byte>, wire: seq<byte>)
    requires forall x :: x in ms ==> Buildable(x) && x.payload != []
    requires Buildable(m) && FULL_HDR_LEN <= k < |Encode(m)|
    requires got + wire == Concat(EncodeAll(ms)) + (Encode(m)[..k] + more)
    requires |got| < |Concat(EncodeAll(ms))| + |Encode(m)|
    ensures StreamOk(got) && Decode(got).frames <= EncodeAll(ms)
  {
    hide Decode, StreamOk, Concat, EncodeAll, Encode;
    var f, whole := Encode(m), Concat(EncodeAll(ms));
    var more' := more[..if |more| < |f| - k then |more| else |f| - k - 1];
    var x := whole + (f[..k] + more');
    CutWellFormed(ms, m, k, more');
    CutStream(ms, m, k, more');
    FrontOf(whole, f[..k], more, more', got, wire);
    StreamOkAppend(got, x[|got|..]);
    DecodeMonotone(got, x[|got|..]);
  }

  lemma FrontOf(whole: seq<byte>, part: seq<byte>, more: seq<byte>, more': seq<byte>, got: seq<byte>, wire: seq<byte>)
    requires got + wire == whole + (part + more) && more' <= more
    requires more' == more || |got| <= |whole| + |part| + |more'|
    ensures var x := whole + (part + more'); |got| <= |x| && x == got + x[|got|..]
  {
    var x, all := whole + (part + more'), got + wire;
    assert all[..|x|] == x;
    if |got| <= |x| {
      assert x[..|got|] == all[..|x|][..|got|] == got;
    }
  }

  // ----- a packet nobody sent, at the receiver -----

  /** A packet other than the ones sent reaches the callback when a send fails within the payload, at a byte that is
      not the start byte, and the next packet is long enough: there is a run in which the receiver, right so far, has
      completed the first payload bytes of the one with the first bytes of the other. */
  lemma TornWriteForgesPacket(keeps: bool, m: Message, next: Message, n: nat, stack: Stack)
      returns (actions: seq<Action>, s: State)
    requires Buildable(m) && Buildable(next) && n < |m.payload| <= n + FULL_HDR_LEN + |next.payload|
    requires m.payload[n] != START
    ensures var k, g := FULL_HDR_LEN + n, Encode(next);
      var forged := m.(payload := m.payload[..n] + g[..|m.payload| - n]);
      && IsRun(actions, s) && s.writes == [Write(m, Encode(m), k), Write(next, g, |g|)]
      && |s.frags| == |s.stacks| && HeadsWhole(s.frags) && Right(keeps, s.frags, s.stacks)
      && Decode(Image(keeps, s.frags, s.stacks)) == Decoded([Encode(forged)], []) && forged != m
  {
    hide Decode, Concat, Header, IsRun, Right, HeadsWhole, Image, Chunks, StreamOk, HasFrame;
    var k, f, g := FULL_HDR_LEN + n, Encode(m), Encode(next);
    var forged := m.(payload := m.payload[..n] + g[..|m.payload| - n]);
    var x, rest := Forged(m, next, n);
    actions, s := SenderRun(m, next, k);
    actions, s := ReceiveChunks(actions, s, x, rest, stack);
    HeadsOfChunks(x);
    RightExactlyIfWellFormed(keeps, s.frags, s.stacks);
  }

  /** The bytes of it, which are a frame, and those behind. */
  lemma Forged(m: Message, next: Message, n: nat) returns (x: seq<byte>, rest: seq<byte>)
    requires Buildable(m) && Buildable(next) && n < |m.payload| <= n + FULL_HDR_LEN + |next.payload|
    requires m.payload[n] != START
    ensures var k, f, g := FULL_HDR_LEN + n, Encode(m), Encode(next);
      var forged := m.(payload := m.payload[..n] + g[..|m.payload| - n]);
      && k < |f| && 0 < |g| && f[..k] + g == x + rest
      && x == Encode(forged) && forged != m && StreamOk(x) && Decode(x) == Decoded([x], [])
      && (forall j :: 0 <= j < |x| ==> !HasFrame(x[..j]))
  {
    hide Header, Value, Decode, StreamOk;
    var k, f, g := FULL_HDR_LEN + n, Encode(m), Encode(next);
    var forged := m.(payload := m.payload[..n] + g[..|m.payload| - n]);
    x, rest := Encode(forged), g[|m.payload| - n..];
    StartsWithStart(next);
    CutWithin(m, k, g);
    assert g == g[..|m.payload| - n] + rest;
    Assoc(f[..k], g[..|m.payload| - n], rest);
    OneFrame(forged);
    forall j | 0 <= j < |x|
      ensures !HasFrame(x[..j])
    {
      TornPart(forged, j);
    }
  }

  lemma OneFrame(m: Message)
    requires Buildable(m) && m.payload != []
    ensures StreamOk(Encode(m)) && Decode(Encode(m)) == Decoded([Encode(m)], [])
  {
    hide Decode, StreamOk, Encode;
    SentThen([], Encode(m));
    SentFirst(m, []);
    NothingLeft();
    assert Encode(m) + [] == Encode(m) && [Encode(m)] + [] == [Encode(m)];
  }

  lemma NothingLeft()
    ensures StreamOk([]) && Decode([]) == Decoded([], [])
  {
  }

  lemma StartsWithStart(m: Message)
    ensures Encode(m) != [] && Encode(m)[0] == START
  {
  }

  /** The packet made of both. */
  lemma CutWithin(m: Message, k: nat, g: seq<byte>)
    requires FULL_HDR_LEN <= k < |Encode(m)| <= k + |g| && g != [] && g[0] != m.payload[k - FULL_HDR_LEN]
    ensures var f := Encode(m);
      var forged := m.(payload := m.payload[..k - FULL_HDR_LEN] + g[..|f| - k]);
      Encode(forged) == f[..k] + g[..|f| - k] && Encode(forged) != f && !(f[k..] <= g)
  {
    hide Header;
    var p := m.payload;
    var forged := m.(payload := p[..k - FULL_HDR_LEN] + g[..|Encode(m)| - k]);
    SameHeader(m, forged.payload);
    Rejoined(Header(m), p, k - FULL_HDR_LEN, g[..|p| - (k - FULL_HDR_LEN)]);
    assert g[..|p| - (k - FULL_HDR_LEN)][0] == g[0];
  }

  lemma SameHeader(m: Message, payload: seq<byte>)
    requires |payload| == |m.payload|
    ensures Header(m.(payload := payload)) == Header(m)
  {
  }

  lemma Rejoined(h: seq<byte>, p: seq<byte>, n: nat, q: seq<byte>)
    requires n < |p| && |q| == |p| - n && q[0] != p[n]
    ensures var f := h + p;
      && h + (p[..n] + q) == f[..|h| + n] + q && h + (p[..n] + q) != f && f[|h| + n..] == p[n..] && !(p[n..] == q)
  {
    var f := h + p;
    assert f[..|h| + n] == h + p[..n];
    Assoc(h, p[..n], q);
    assert (h + (p[..n] + q))[|h| + n] == q[0] && f[|h| + n] == p[n];
    assert p[n..][0] == p[n];
  }

  /** The sender's part of the run. */
  lemma SenderRun(m: Message, next: Message, k: nat) returns (actions: seq<Action>, s: State)
    requires Buildable(m) && Buildable(next) && 0 < k < |Encode(m)|
    ensures var f, g := Encode(m), Encode(next);
      s == State([Write(m, f, k), Write(next, g, |g|)], false, f[..k] + g, [], [])
    ensures IsRun(actions, s) && actions == [Send(m), Accept(k), Fail, Send(next), Accept(|Encode(next)|)]
  {
    hide IsRun, Header;
    NoActions();
    SendRun([], INIT, m, k);
    var front, t := [Send(m), Accept(k)], State([Write(m, Encode(m), k)], true, Encode(m)[..k], [], []);
    assert [] + [Send(m), Accept(k)] == front && [] + [Write(m, Encode(m), k)] == [Write(m, Encode(m), k)];
    assert [] + Encode(m)[..k] == Encode(m)[..k];
    RunSnoc(front, t, Fail, t.(sending := false));
    SendRun(front + [Fail], t.(sending := false), next, |Encode(next)|);
    assert Encode(next)[..|Encode(next)|] == Encode(next);
    s := State([Write(m, Encode(m), k), Write(next, Encode(next), |Encode(next)|)], false,
               Encode(m)[..k] + Encode(next), [], []);
    assert t.writes + [Write(next, Encode(next), |Encode(next)|)] == s.writes;
    actions := [Send(m), Accept(k), Fail, Send(next), Accept(|Encode(next)|)];
    assert front + [Fail] + [Send(next), Accept(|Encode(next)|)] == actions;
  }

  /** The fragments in which bytes arrive when every read gets as many as there is room for. */
  function Chunks(b: seq<byte>): seq<seq<byte>>
    decreases |b|
  {
    if b == [] then [] else
    var n := (|b| - 1) / BUFF_SIZE * BUFF_SIZE;
    Chunks(b[..n]) + [b[n..]]
  }

  /** The last of them. */
  lemma LastChunk(b: seq<byte>) returns (n: nat)
    requires b != []
    ensures n < |b| <= n + BUFF_SIZE && (n == 0 || n >= BUFF_SIZE)
    ensures Chunks(b) == Chunks(b[..n]) + [b[n..]]
  {
    n := (|b| - 1) / BUFF_SIZE * BUFF_SIZE;
  }

  lemma {:induction false} ChunksConcat(b: seq<byte>)
    ensures Concat(Chunks(b)) == b
    decreases |b|
  {
    if b != [] {
      hide Chunks, Concat;
      var n := LastChunk(b);
      ChunksConcat(b[..n]);
      ConcatSnoc(Chunks(b[..n]), b[n..]);
      assert b == b[..n] + b[n..];
    }
  }

  /** The first three bytes of a frame are then in one of them. */
  lemma {:induction false} HeadsOfChunks(x: seq<byte>)
    requires forall j :: 0 <= j < |x| ==> !HasFrame(x[..j])
    ensures HeadsWhole(Chunks(x)) && Concat(Chunks(x)) == x
    decreases |x|
  {
    hide Chunks, Concat, HasFrame, Decode;
    ChunksConcat(x);
    if x == [] {
      NoChunks();
    } else {
      var n := LastChunk(x);
      var front := Chunks(x[..n]);
      assert forall j :: 0 <= j < n ==> x[..n][..j] == x[..j];
      HeadsOfChunks(x[..n]);
      NoFrame(x[..n]);
      assert (front + [x[n..]])[..|front|] == front;
    }
  }

  lemma NoChunks()
    ensures Chunks([]) == []
  {
  }

  lemma NoFrame(b: seq<byte>)
    requires !HasFrame(b)
    ensures Decode(b).rest == b
  {
  }

  lemma {:induction false} ReceiveChunks(actions: seq<Action>, s: State, b: seq<byte>, rest: seq<byte>, stack: Stack)
      returns (actions': seq<Action>, s': State)
    requires IsRun(actions, s) && s.wire == b + rest && s.frags == [] && s.stacks == []
    ensures IsRun(actions', s') && s'.writes == s.writes && s'.wire == rest
    ensures s'.frags == Chunks(b) && |s'.stacks| == |s'.frags|
    decreases |b|
  {
    hide IsRun, Chunks;
    if b == [] {
      NoChunks();
      actions', s' := actions, s;
    } else {
      var n := LastChunk(b);
      var last := b[n..];
      assert b + rest == b[..n] + (last + rest);
      actions', s' := ReceiveChunks(actions, s, b[..n], last + rest, stack);
      var next := Step(s', Receive(|last|, stack));
      RunSnoc(actions', s', Receive(|last|, stack), next);
      assert (last + rest)[..|last|] == last && (last + rest)[|last|..] == rest;
      actions', s' := actions' + [Receive(|last|, stack)], next;
    }
  }

  lemma NoActions()
    ensures IsRun([], INIT)
  {
  }

  /** A send of which k bytes get out. */
  lemma SendRun(actions: seq<Action>, s: State, m: Message, k: nat)
    requires IsRun(actions, s) && !s.sending && Buildable(m) && 0 < k <= |Encode(m)|
    ensures IsRun(actions + [Send(m), Accept(k)],
                  s.(writes := s.writes + [Write(m, Encode(m), k)], wire := s.wire + Encode(m)[..k],
                  sending := k < |Encode(m)|))
  {
    hide IsRun, Encode;
    var s1 := Step(s, Send(m));
    RunSnoc(actions, s, Send(m), s1);
    assert Grown(s1.writes, k) == s.writes + [Write(m, Encode(m), k)];
    assert Encode(m)[0..k] == Encode(m)[..k];
    RunSnoc(actions + [Send(m)], s1, Accept(k), Step(s1, Accept(k)));
    assert actions + [Send(m)] + [Accept(k)] == actions + [Send(m), Accept(k)];
  }

  lemma RunSnoc(actions: seq<Action>, s: State, a: Action, next: State)
    requires IsRun(actions, s) && Enabled(s, a) && Step(s, a) == next
    ensures IsRun(actions + [a], next)
  {
    assert (actions + [a])[..|actions|] == actions;
  }
}
