/** What the receiver makes of a stream that arrives cut into fragments.
    The receiver as written keeps the first bytes of a frame in an uninitialised local array until the third one
    is there: a fragment that ends 1 or 2 bytes into a frame loses them. The intended receiver (`keeps`) stores them
    in the packet. Both are described by the image of the stream: the bytes the parser acts on. */
module Reassembly {
  import opened Bytes
  import opened Framing

  /** The size of the receive buffer: no fragment is longer. */
  const BUFF_SIZE := 1500

  /** What the uninitialised local array holds when the parser is entered. */
  type Stack = s: seq<byte> | |s| == 3 witness [0, 0, 0]

  /** The bytes the parser acts on when `frag` arrives after `held` bytes of a frame. */
  function View(keeps: bool, held: seq<byte>, frag: seq<byte>, stack: Stack): (v: seq<byte>)
    ensures |v| == |held| + |frag|
  {
    var n := |held|;
    if !keeps && 1 <= n <= 2 && 3 - n <= |frag| then
      frag[..3 - n] + stack[3 - n..] + frag[3 - n..]
    else
      held + frag
  }

  /** The parser skips the header loop and goes on with a header that was never allocated. */
  predicate Crashes(keeps: bool, held: seq<byte>, frag: seq<byte>) {
    !keeps && 1 <= |held| <= 2 && |frag| >= 3 && frag[0] != START
  }

  /** The image of the stream after one more fragment. */
  function See(keeps: bool, seen: seq<byte>, frag: seq<byte>, stack: Stack): seq<byte> {
    var d := Decode(seen);
    Concat(d.frames) + View(keeps, d.rest, frag, stack)
  }

  /** The part of the undecoded rest that the current packet holds: bytes after the header of a frame with
      an empty payload are dropped. */
  function Clip(rest: seq<byte>): seq<byte> {
    if |rest| >= FULL_HDR_LEN && PayloadLen(rest) == 0 && 0 <= FullHeaderLen(rest) < |rest| then
      rest[..FullHeaderLen(rest)]
    else
      rest
  }

  lemma SeeAppends(keeps: bool, seen: seq<byte>, frag: seq<byte>, stack: Stack)
    requires keeps || |Decode(seen).rest| !in {1, 2} || |frag| < 3 - |Decode(seen).rest|
    ensures See(keeps, seen, frag, stack) == seen + frag
  {
    DecodeConserves(seen);
  }

  lemma {:induction false} DecodeAgain(s: seq<byte>, z: seq<byte>)
    ensures Decode(Concat(Decode(s).frames) + z).frames == Decode(s).frames + Decode(z).frames
    ensures Decode(Concat(Decode(s).frames) + z).rest == Decode(z).rest
    decreases |s|
  {
    hide Decode, Concat;
    DecodeFront(s, z);
    if HasFrame(s) {
      var n := FrameLen(s);
      DecodeAgain(s[n..], z);
      Assoc([s[..n]], Decode(s[n..]).frames, Decode(z).frames);
    }
  }

  /** One step of it: the frame in front is decoded alike. */
  lemma DecodeFront(s: seq<byte>, z: seq<byte>)
    ensures HasFrame(s) ==>
              var n := FrameLen(s);
              var tail := Concat(Decode(s[n..]).frames) + z;
              && Decode(s).frames == [s[..n]] + Decode(s[n..]).frames
              && Decode(Concat(Decode(s).frames) + z) == Decoded([s[..n]] + Decode(tail).frames, Decode(tail).rest)
    ensures !HasFrame(s) ==> Decode(s).frames == [] && Concat([]) + z == z
  {
    if HasFrame(s) {
      var n := FrameLen(s);
      var f, tail := s[..n], Concat(Decode(s[n..]).frames) + z;
      assert s == f + s[n..];
      FrontStable(f, s[n..]);
      Reassociate(f, Decode(s[n..]).frames, z);
      FrameInFront(f, tail);
    } else {
      assert Concat([]) + z == z;
    }
  }

  lemma FrameInFront(f: Frame, tail: seq<byte>)
    requires HasFrame(f) && FrameLen(f) == |f|
    ensures Decode(f + tail) == Decoded([f] + Decode(tail).frames, Decode(tail).rest)
  {
    FrontStable(f, tail);
    assert (f + tail)[|f|..] == tail && (f + tail)[..|f|] == f;
  }

  /** A fragment only adds packets: those completed before stay, in place. */
  lemma SeeDecodes(keeps: bool, seen: seq<byte>, frag: seq<byte>, stack: Stack)
    ensures var v := View(keeps, Decode(seen).rest, frag, stack);
      && Decode(See(keeps, seen, frag, stack)).frames == Decode(seen).frames + Decode(v).frames
      && Decode(See(keeps, seen, frag, stack)).rest == Decode(v).rest
  {
    DecodeAgain(seen, View(keeps, Decode(seen).rest, frag, stack));
  }

  // ----- whole runs -----

  /** The image after a sequence of fragments, for given contents of the local array at each of them. */
  function Image(keeps: bool, frags: seq<seq<byte>>, stacks: seq<Stack>): seq<byte>
    requires |frags| == |stacks|
    decreases |frags|
  {
    if frags == [] then [] else
    var k := |frags| - 1;
    See(keeps, Image(keeps, frags[..k], stacks[..k]), frags[k], stacks[k])
  }

  /** The run never uses a missing header and never acts on malformed bytes. */
  predicate Healthy(keeps: bool, frags: seq<seq<byte>>, stacks: seq<Stack>)
    requires |frags| == |stacks|
    decreases |frags|
  {
    frags == [] ||
    var k := |frags| - 1;
    && Healthy(keeps, frags[..k], stacks[..k])
    && !Crashes(keeps, Decode(Image(keeps, frags[..k], stacks[..k])).rest, frags[k])
    && StreamOk(Image(keeps, frags, stacks))
  }

  /** The first three bytes of each frame arrive in one fragment, if they all arrive. */
  predicate HeadsWhole(frags: seq<seq<byte>>)
    decreases |frags|
  {
    frags == [] ||
    var k := |frags| - 1;
    var held := |Decode(Concat(frags[..k])).rest|;
    HeadsWhole(frags[..k]) && (held in {1, 2} ==> held + |frags[k]| < 3)
  }

  /** No fragment ends 1 or 2 bytes into a frame. */
  predicate GoodSplit(frags: seq<seq<byte>>)
    decreases |frags|
  {
    frags == [] ||
    (GoodSplit(frags[..|frags| - 1]) && |Decode(Concat(frags)).rest| !in {1, 2})
  }

  /** The fragments were understood: the same packets and the same partial packet as decoding at once. */
  predicate Right(keeps: bool, frags: seq<seq<byte>>, stacks: seq<Stack>)
    requires |frags| == |stacks|
  {
    Healthy(keeps, frags, stacks) && Decode(Image(keeps, frags, stacks)) == Decode(Concat(frags))
  }

  lemma ConcatLast(frags: seq<seq<byte>>)
    requires frags != []
    ensures Concat(frags) == Concat(frags[..|frags| - 1]) + frags[|frags| - 1]
  {
    var k := |frags| - 1;
    assert frags == frags[..k] + [frags[k]];
    ConcatSnoc(frags[..k], frags[k]);
  }

  /** The two conditions differ only on a stream that ends within the first two bytes of a frame. */
  lemma {:induction false} GoodSplitKeepsHeads(frags: seq<seq<byte>>)
    ensures GoodSplit(frags) <==> HeadsWhole(frags) && |Decode(Concat(frags)).rest| !in {1, 2}
    decreases |frags|
  {
    if frags != [] {
      var k := |frags| - 1;
      GoodSplitKeepsHeads(frags[..k]);
      ConcatLast(frags);
      DecodeAppend(Concat(frags[..k]), frags[k]);
    }
  }

  /** Refinement: whatever the local array held, the image is the stream: for the intended receiver on every
      split, for the code as written on every one that keeps the first three bytes of a frame together. */
  lemma {:induction false} ReassemblyRefinesDecode(keeps: bool, frags: seq<seq<byte>>, stacks: seq<Stack>)
    requires |frags| == |stacks|
    requires StreamOk(Concat(frags))
    requires keeps || HeadsWhole(frags)
    ensures Image(keeps, frags, stacks) == Concat(frags)
    ensures Right(keeps, frags, stacks)
    decreases |frags|
  {
    if frags != [] {
      var k := |frags| - 1;
      ConcatLast(frags);
      StreamOkAppend(Concat(frags[..k]), frags[k]);
      ReassemblyRefinesDecode(keeps, frags[..k], stacks[..k]);
      if k == 0 {
        assert Concat(frags[..k]) == [];
      }
      SeeAppends(keeps, Concat(frags[..k]), frags[k], stacks[k]);
    }
  }

  /** Also when the stream is not well formed the image is the stream, and then the run is not right. */
  lemma {:induction false} RightExactlyIfWellFormed(keeps: bool, frags: seq<seq<byte>>, stacks: seq<Stack>)
    requires |frags| == |stacks|
    requires keeps || HeadsWhole(frags)
    ensures Image(keeps, frags, stacks) == Concat(frags)
    ensures Right(keeps, frags, stacks) <==> StreamOk(Concat(frags))
    decreases |frags|
  {
    if StreamOk(Concat(frags)) {
      ReassemblyRefinesDecode(keeps, frags, stacks);
    } else if frags != [] {
      var k := |frags| - 1;
      ConcatLast(frags);
      RightExactlyIfWellFormed(keeps, frags[..k], stacks[..k]);
      SeeAppends(keeps, Concat(frags[..k]), frags[k], stacks[k]);
    }
  }

  /** Any two of those splits of one stream agree, on the completed packets and on the partial one. */
  lemma SplitsAgree(keeps: bool, fs: seq<seq<byte>>, fStacks: seq<Stack>, gs: seq<seq<byte>>, gStacks: seq<Stack>)
    requires |fs| == |fStacks| && |gs| == |gStacks|
    requires Concat(fs) == Concat(gs) && StreamOk(Concat(fs))
    requires keeps || (HeadsWhole(fs) && HeadsWhole(gs))
    ensures Image(keeps, fs, fStacks) == Image(keeps, gs, gStacks)
    ensures Decode(Image(keeps, fs, fStacks)) == Decode(Image(keeps, gs, gStacks)) == Decode(Concat(fs))
  {
    ReassemblyRefinesDecode(keeps, fs, fStacks);
    ReassemblyRefinesDecode(keeps, gs, gStacks);
  }

  /** Reading a fragment in two goes is reading it in one, if the first does not end 1 or 2 bytes into a frame or
      those bytes are kept. */
  lemma TwoReadsAsOne(keeps: bool, seen: seq<byte>, a: seq<byte>, b: seq<byte>, stackA: Stack, stackB: Stack,
                      stackAB: Stack)
    requires keeps || (|Decode(seen).rest| !in {1, 2} && |Decode(seen + a).rest| !in {1, 2})
    ensures See(keeps, See(keeps, seen, a, stackA), b, stackB) == See(keeps, seen, a + b, stackAB)
  {
    SeeAppends(keeps, seen, a, stackA);
    SeeAppends(keeps, seen + a, b, stackB);
    SeeAppends(keeps, seen, a + b, stackAB);
    Assoc(seen, a, b);
  }

  /** A run of the receiver takes its image one step on with each read, and stays healthy by what each read requires. */
  lemma OneMoreFragment(keeps: bool, frags: seq<seq<byte>>, stacks: seq<Stack>, frag: seq<byte>, stack: Stack)
    requires |frags| == |stacks|
    ensures Image(keeps, frags + [frag], stacks + [stack]) == See(keeps, Image(keeps, frags, stacks), frag, stack)
    ensures Healthy(keeps, frags + [frag], stacks + [stack]) <==>
              && Healthy(keeps, frags, stacks)
              && !Crashes(keeps, Decode(Image(keeps, frags, stacks)).rest, frag)
              && StreamOk(See(keeps, Image(keeps, frags, stacks), frag, stack))
  {
    assert (frags + [frag])[..|frags|] == frags && (stacks + [stack])[..|stacks|] == stacks;
  }

  // ----- a bad split can always go wrong -----

  /** From position p on, a frame boundary, the image differs from the stream in the third byte. */
  predicate DivergedAt(image: seq<byte>, actual: seq<byte>, p: nat) {
    && p + 3 <= |image| && p + 3 <= |actual|
    && Decode(image[..p]).rest == []
    && image[p + 2] != actual[p + 2]
  }

  lemma DivergenceStays(image: seq<byte>, actual: seq<byte>, p: nat, frag: seq<byte>, stack: Stack)
    requires DivergedAt(image, actual, p)
    ensures DivergedAt(See(false, image, frag, stack), actual + frag, p)
  {
    var kept := Concat(Decode(image).frames);
    var n := |Decode(image).rest|;
    var next := See(false, image, frag, stack);
    DecodeConserves(image);
    KeptCoversDivergence(image, p);
    if n >= 3 || n == 0 {
      SeeAppends(false, image, frag, stack);
      assert next[..p + 3] == image[..p + 3];
    } else {
      assert next[..|kept|] == kept == image[..|kept|];
      assert next[..p + 3] == kept[..p + 3] == image[..p + 3];
    }
    SamePrefix(next, image, p);
  }

  lemma SamePrefix(a: seq<byte>, b: seq<byte>, p: nat)
    requires p + 3 <= |a| && p + 3 <= |b| && a[..p + 3] == b[..p + 3]
    ensures a[..p] == b[..p] && a[p + 2] == b[p + 2]
  {
    assert a[..p] == a[..p + 3][..p] && b[..p] == b[..p + 3][..p];
    assert a[p + 2] == a[..p + 3][p + 2] == b[..p + 3][p + 2] == b[p + 2];
  }

  /** Bytes that can be lost belong to a later frame than one that already has three bytes. */
  lemma KeptCoversDivergence(image: seq<byte>, p: nat)
    requires p + 3 <= |image| && Decode(image[..p]).rest == []
    ensures |Decode(image).rest| < 3 ==> p + 3 <= |image| - |Decode(image).rest|
  {
    var x := image[p..];
    assert image == image[..p] + x;
    DecodeAppend(image[..p], x);
    assert [] + x == x;
    if HasFrame(x) {
      var n := FrameLen(x);
      DecodeConserves(x[n..]);
    }
  }

  /** What a header begins with when its first one or two bytes were lost: the bytes that come next take their place,
      and those at the end of the local array the place of these, the low byte of the header length among them. */
  lemma ResumedHeader(held: seq<byte>, frag: seq<byte>, stack: Stack)
    requires |held| in {1, 2} && 3 - |held| <= |frag|
    ensures var v := View(false, held, frag, stack);
      && |v| == |held| + |frag| && v[0] == frag[0]
      && HeaderLen(v) == (if |held| == 1 then frag[1] else stack[1]) as int * 256 + stack[2]
      && HeaderLen(held + frag) == (if |held| == 1 then frag[0] else held[1]) as int * 256 + frag[2 - |held|]
      && (forall i :: 3 <= i < |v| ==> v[i] == frag[i - |held|])
  {
  }

  lemma ResumedThirdByte(held: seq<byte>, frag: seq<byte>, stack: Stack)
    requires |held| in {1, 2} && 3 - |held| <= |frag|
    ensures View(false, held, frag, stack)[2] == stack[2]
    ensures (held + frag)[2] == frag[2 - |held|]
  {
  }

  lemma ThirdByteDiverges(kept: seq<byte>, v: seq<byte>, w: seq<byte>)
    requires |v| >= 3 && |w| >= 3 && v[2] != w[2] && Decode(kept).rest == []
    ensures DivergedAt(kept + v, kept + w, |kept|)
  {
    assert (kept + v)[..|kept|] == kept;
  }

  /** Three lost bytes come back with a wrong last one, for suitable contents of the local array. */
  lemma ResumptionDiverges(seen: seq<byte>, frag: seq<byte>) returns (stack: Stack)
    requires |Decode(seen).rest| in {1, 2}
    requires 3 - |Decode(seen).rest| <= |frag|
    ensures exists p :: DivergedAt(See(false, seen, frag, stack), seen + frag, p)
  {
    var d := Decode(seen);
    var b: byte := (frag[2 - |d.rest|] as int + 1) % 256;
    stack := [b, b, b];
    var kept := Concat(d.frames);
    ResumedThirdByte(d.rest, frag, stack);
    assert Decode(kept).rest == [] by {
      DecodeAgain(seen, []);
      assert kept + [] == kept;
    }
    ThirdByteDiverges(kept, View(false, d.rest, frag, stack), d.rest + frag);
    assert seen + frag == kept + (d.rest + frag) by {
      DecodeConserves(seen);
    }
    assert DivergedAt(See(false, seen, frag, stack), seen + frag, |kept|);
  }

  /** The run went wrong. */
  ghost predicate Spoiled(frags: seq<seq<byte>>, stacks: seq<Stack>)
    requires |frags| == |stacks|
  {
    || !Healthy(false, frags, stacks)
    || exists p :: DivergedAt(Image(false, frags, stacks), Concat(frags), p)
  }

  lemma SpoiledStays(front: seq<seq<byte>>, before: seq<Stack>, frag: seq<byte>, stack: Stack)
    requires |front| == |before| && Spoiled(front, before)
    ensures Spoiled(front + [frag], before + [stack])
  {
    var image, actual := Image(false, front, before), Concat(front);
    OneMoreFragment(false, front, before, frag, stack);
    ConcatLast(front + [frag]);
    assert (front + [frag])[..|front|] == front;
    if p :| DivergedAt(image, actual, p) {
      DivergenceStays(image, actual, p, frag, stack);
    }
  }

  /** The first fragment that brings the third byte of a frame after the first one or two came alone. */
  lemma FirstBadSplit(front: seq<seq<byte>>, frag: seq<byte>) returns (stacks: seq<Stack>)
    requires HeadsWhole(front) && !HeadsWhole(front + [frag]) && StreamOk(Concat(front))
    ensures |stacks| == |front| + 1 && Spoiled(front + [frag], stacks)
  {
    hide See, Image, Decode, Concat, StreamOk, DivergedAt, Crashes;
    assert (front + [frag])[..|front|] == front;
    var before := seq(|front|, _ => [0, 0, 0]);
    ReassemblyRefinesDecode(false, front, before);
    var stack := ResumptionDiverges(Concat(front), frag);
    OneMoreFragment(false, front, before, frag, stack);
    ConcatLast(front + [frag]);
    stacks := before + [stack];
  }

  lemma {:induction false} BadSplitSpoils(frags: seq<seq<byte>>) returns (stacks: seq<Stack>)
    requires !HeadsWhole(frags) && StreamOk(Concat(frags))
    ensures |stacks| == |frags| && Spoiled(frags, stacks)
    decreases |frags|
  {
    var k := |frags| - 1;
    var front, frag := frags[..k], frags[k];
    assert frags == front + [frag];
    ConcatLast(frags);
    StreamOkAppend(Concat(front), frag);
    if HeadsWhole(front) {
      stacks := FirstBadSplit(front, frag);
    } else {
      var before := BadSplitSpoils(front);
      SpoiledStays(front, before, frag, [0, 0, 0]);
      stacks := before + [[0, 0, 0]];
    }
  }

  /** The exact condition under which the code as written understands a well-formed stream, whatever the local array
      holds: if and only if the first three bytes of each frame come together. */
  lemma AsWrittenExactlyOnWholeHeads(frags: seq<seq<byte>>)
    requires StreamOk(Concat(frags))
    ensures (forall stacks: seq<Stack> :: |stacks| == |frags| ==> Right(false, frags, stacks)) <==> HeadsWhole(frags)
  {
    if HeadsWhole(frags) {
      forall stacks: seq<Stack> | |stacks| == |frags|
        ensures Right(false, frags, stacks)
      {
        ReassemblyRefinesDecode(false, frags, stacks);
      }
    } else {
      var stacks := BadSplitSpoils(frags);
      if Right(false, frags, stacks) {
        DecodeConserves(Image(false, frags, stacks));
        DecodeConserves(Concat(frags));
        assert false;
      }
    }
  }

  /** A concrete failure: a 13-byte frame whose first two bytes arrive alone. */
  lemma SplitStartCrashes(stacks: seq<Stack>)
    requires |stacks| == 2
    ensures var frame := [0xFF, 0, 9, 1, 2, 1, 0, 1, 0, 0, 0, 1, 65];
      IsFrame(frame) && !Healthy(false, [frame[..2], frame[2..]], stacks)
  {
    var m := Message(1, 2, 1, 0, 1, [65]);
    var frame: seq<byte> := [0xFF, 0, 9, 1, 2, 1, 0, 1, 0, 0, 0, 1, 65];
    SmallFrame(m);
    FrameRoundTrip(m);
    assert frame == Encode(m);
    var frags: seq<seq<byte>> := [frame[..2], frame[2..]];
    assert frags[..1] == [frame[..2]];
    var first := Image(false, frags[..1], stacks[..1]);
    assert first == frame[..2] by {
      assert Image(false, frags[..1][..0], stacks[..1][..0]) == [];
      SeeAppends(false, [], frame[..2], stacks[0]);
    }
    assert Crashes(false, Decode(first).rest, frame[2..]);
  }
}
