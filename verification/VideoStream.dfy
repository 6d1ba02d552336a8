/** A list of frames through payloader, packets and assembler: what arrives, and exactly when it is the list. */
module VideoStream {
  import opened Bytes
  import opened RtpPackets
  import opened VideoAssembly
  import opened VideoPayload

  /** Every packet sent for the frames: numbers run on, each frame has its own time. */
  function Sendings(codec: Codec, id: PictureId, mtu: nat, frames: seq<seq<byte>>, seqNo: nat, ts: nat, step: nat): seq<Rtp>
    decreases |frames|
  {
    if frames == [] then []
    else
      var ps := Payloads(codec, id, mtu, frames[0]);
      Rtps(ps, seqNo, ts)
      + Sendings(codec, NextId(codec, id, mtu, frames[0]), mtu, frames[1..],
                 Wrap16(seqNo + |ps|), Wrap32(ts + step), step)
  }

  /** The packet loop of one frame. */
  method SendFrame(payloads: seq<seq<byte>>, seqNo: nat, ts: nat) returns (packets: seq<Rtp>, next: nat)
    requires seqNo < 0x1_0000
    ensures packets == Rtps(payloads, seqNo, ts) && next == Wrap16(seqNo + |payloads|)
  {
    packets, next := [], seqNo;
    for i := 0 to |payloads|
      invariant next == Wrap16(seqNo + i)
      invariant packets + Rtps(payloads[i..], next, ts) == Rtps(payloads, seqNo, ts)
    {
      assert payloads[i..][1..] == payloads[i + 1..];
      Wrap16Onward(seqNo + i, 1);
      var marker := i == |payloads| - 1;
      packets := packets + [Rtp(next, ts, marker, payloads[i])];
      next := Wrap16(next + 1);
    }
  }

  // ---- what arrives ----------------------------------------------------

  function Survivors(codec: Codec, id: PictureId, mtu: nat, frames: seq<seq<byte>>): seq<seq<byte>>
    decreases |frames|
  {
    if frames == [] then []
    else Survives(codec, id, mtu, frames[0])
         + Survivors(codec, NextId(codec, id, mtu, frames[0]), mtu, frames[1..])
  }

  function TimedSurvivors(codec: Codec, id: PictureId, mtu: nat, frames: seq<seq<byte>>, ts: nat, step: nat): seq<Frame>
    decreases |frames|
  {
    if frames == [] then []
    else Timed(Survives(codec, id, mtu, frames[0]), ts)
         + TimedSurvivors(codec, NextId(codec, id, mtu, frames[0]), mtu, frames[1..], Wrap32(ts + step), step)
  }

  lemma AssembleStep(strip: Stripping, a: Assembly, first: seq<Rtp>, more: seq<Rtp>, fs: seq<Frame>, gs: seq<Frame>)
    requires Run(strip, a, first).frames == fs && Run(strip, Run(strip, a, first).state, more).frames == gs
    ensures Run(strip, a, first + more).frames == fs + gs
  {
    RunJoins(strip, a, first, more);
  }

  /** Each frame alone comes out as its survivor, whatever the assembler held. */
  ghost predicate EachSurvives(strip: Stripping, codec: Codec, mtu: nat) {
    forall id, frame, a, seqNo, ts
      {:trigger Run(strip, a, Rtps(Payloads(codec, id, mtu, frame), seqNo, ts))} ::
      Run(strip, a, Rtps(Payloads(codec, id, mtu, frame), seqNo, ts)).frames == Timed(Survives(codec, id, mtu, frame), ts)
  }

  lemma CodecSurvives(codec: Codec, mtu: nat)
    ensures EachSurvives(StripOf(codec), codec, mtu)
  {
    forall id, frame, a, seqNo, ts
      ensures Run(StripOf(codec), a, Rtps(Payloads(codec, id, mtu, frame), seqNo, ts)).frames
           == Timed(Survives(codec, id, mtu, frame), ts)
    {
      FrameSurvives(codec, id, mtu, frame, a, seqNo, ts);
    }
  }

  /** The assembler returns the survivors, in order, at their frames' times, from any state. */
  lemma {:induction false} StreamAssembles(strip: Stripping, codec: Codec, id: PictureId, mtu: nat,
                                           frames: seq<seq<byte>>, a: Assembly, seqNo: nat, ts: nat, step: nat)
    requires EachSurvives(strip, codec, mtu)
    ensures Run(strip, a, Sendings(codec, id, mtu, frames, seqNo, ts, step)).frames
         == TimedSurvivors(codec, id, mtu, frames, ts, step)
    decreases |frames|
  {
    if frames == [] {
      assert Sendings(codec, id, mtu, frames, seqNo, ts, step) == [];
    } else {
      var ps, next := Payloads(codec, id, mtu, frames[0]), NextId(codec, id, mtu, frames[0]);
      var first := Rtps(ps, seqNo, ts);
      var seqNo', ts' := Wrap16(seqNo + |ps|), Wrap32(ts + step);
      var more := Sendings(codec, next, mtu, frames[1..], seqNo', ts', step);
      assert Sendings(codec, id, mtu, frames, seqNo, ts, step) == first + more;
      StreamAssembles(strip, codec, next, mtu, frames[1..], Run(strip, a, first).state, seqNo', ts', step);
      AssembleStep(strip, a, first, more,
                   Timed(Survives(codec, id, mtu, frames[0]), ts),
                   TimedSurvivors(codec, next, mtu, frames[1..], ts', step));
    }
  }

  function Data(frames: seq<Frame>): (r: seq<seq<byte>>)
    ensures |r| == |frames|
  {
    if frames == [] then [] else [frames[0].data] + Data(frames[1..])
  }

  lemma {:induction false} DataJoins(a: seq<Frame>, b: seq<Frame>)
    ensures Data(a + b) == Data(a) + Data(b)
  {
    if a == [] {
      assert a + b == b;
    } else {
      assert (a + b)[1..] == a[1..] + b;
      DataJoins(a[1..], b);
    }
  }

  lemma {:induction false} TimedData(frames: seq<seq<byte>>, ts: nat)
    ensures Data(Timed(frames, ts)) == frames
  {
    if frames != [] {
      TimedData(frames[1..], ts);
    }
  }

  lemma {:induction false} SurvivorsData(codec: Codec, id: PictureId, mtu: nat, frames: seq<seq<byte>>, ts: nat, step: nat)
    ensures Data(TimedSurvivors(codec, id, mtu, frames, ts, step)) == Survivors(codec, id, mtu, frames)
    decreases |frames|
  {
    if frames != [] {
      var next := NextId(codec, id, mtu, frames[0]);
      TimedData(Survives(codec, id, mtu, frames[0]), ts);
      SurvivorsData(codec, next, mtu, frames[1..], Wrap32(ts + step), step);
      DataJoins(Timed(Survives(codec, id, mtu, frames[0]), ts),
                TimedSurvivors(codec, next, mtu, frames[1..], Wrap32(ts + step), step));
    }
  }

  // ---- exactly when it is the list -------------------------------------

  /** The MTU exceeds every descriptor on the way, and no frame is a VP9 inter frame. */
  predicate AllSurvive(codec: Codec, id: PictureId, mtu: nat, frames: seq<seq<byte>>)
    decreases |frames|
  {
    frames == [] ||
    (&& mtu > HeaderSize(codec, id) && !Inter(codec, frames[0])
     && AllSurvive(codec, NextId(codec, id, mtu, frames[0]), mtu, frames[1..]))
  }

  predicate NonEmpty(frames: seq<seq<byte>>) {
    forall i :: 0 <= i < |frames| ==> frames[i] != []
  }

  function Octets(frames: seq<seq<byte>>): nat {
    if frames == [] then 0 else |frames[0]| + Octets(frames[1..])
  }

  lemma {:induction false} OctetsJoin(a: seq<seq<byte>>, b: seq<seq<byte>>)
    ensures Octets(a + b) == Octets(a) + Octets(b)
  {
    if a == [] {
      assert a + b == b;
    } else {
      assert (a + b)[1..] == a[1..] + b;
      OctetsJoin(a[1..], b);
    }
  }

  lemma OneSurvives(codec: Codec, id: PictureId, mtu: nat, frame: seq<byte>)
    requires frame != []
    ensures var good := mtu > HeaderSize(codec, id) && !Inter(codec, frame);
            && (good ==> Survives(codec, id, mtu, frame) == [frame])
            && Octets(Survives(codec, id, mtu, frame)) <= |frame|
            && (!good ==> Octets(Survives(codec, id, mtu, frame)) < |frame|)
  {
    var s := Survives(codec, id, mtu, frame);
    assert s != [] ==> s[1..] == [];
  }

  /** Whatever does not survive whole costs octets. */
  lemma {:induction false} LossCosts(codec: Codec, id: PictureId, mtu: nat, frames: seq<seq<byte>>)
    requires NonEmpty(frames)
    ensures Octets(Survivors(codec, id, mtu, frames)) <= Octets(frames)
    ensures !AllSurvive(codec, id, mtu, frames) ==> Octets(Survivors(codec, id, mtu, frames)) < Octets(frames)
    decreases |frames|
  {
    if frames != [] {
      var next := NextId(codec, id, mtu, frames[0]);
      OneSurvives(codec, id, mtu, frames[0]);
      LossCosts(codec, next, mtu, frames[1..]);
      OctetsJoin(Survives(codec, id, mtu, frames[0]), Survivors(codec, next, mtu, frames[1..]));
    }
  }

  lemma {:induction false} GoodSurvive(codec: Codec, id: PictureId, mtu: nat, frames: seq<seq<byte>>)
    requires NonEmpty(frames) && AllSurvive(codec, id, mtu, frames)
    ensures Survivors(codec, id, mtu, frames) == frames
    decreases |frames|
  {
    if frames != [] {
      OneSurvives(codec, id, mtu, frames[0]);
      GoodSurvive(codec, NextId(codec, id, mtu, frames[0]), mtu, frames[1..]);
      assert [frames[0]] + frames[1..] == frames;
    }
  }

  /** The list arrives as it was sent exactly if every frame in it survives. */
  lemma ListArrivesIff(codec: Codec, id: PictureId, mtu: nat, frames: seq<seq<byte>>,
                       a: Assembly, seqNo: nat, ts: nat, step: nat)
    requires NonEmpty(frames)
    ensures Data(Run(StripOf(codec), a, Sendings(codec, id, mtu, frames, seqNo, ts, step)).frames) == frames
       <==> AllSurvive(codec, id, mtu, frames)
  {
    CodecSurvives(codec, mtu);
    StreamAssembles(StripOf(codec), codec, id, mtu, frames, a, seqNo, ts, step);
    SurvivorsData(codec, id, mtu, frames, ts, step);
    LossCosts(codec, id, mtu, frames);
    if AllSurvive(codec, id, mtu, frames) {
      GoodSurvive(codec, id, mtu, frames);
    }
  }

  /** VP8: any MTU above the widest descriptor will do, whatever the picture ID and whether or not it is sent. */
  lemma {:induction false} Vp8AlwaysSurvives(pictureIds: bool, id: PictureId, mtu: nat, frames: seq<seq<byte>>)
    requires mtu > 4 || (mtu > 1 && !pictureIds)
    ensures AllSurvive(Vp8(pictureIds), id, mtu, frames)
    decreases |frames|
  {
    if frames != [] {
      Vp8AlwaysSurvives(pictureIds, NextId(Vp8(pictureIds), id, mtu, frames[0]), mtu, frames[1..]);
    }
  }

  /** VP9: key frames only. */
  lemma {:induction false} Vp9SurvivesIff(id: PictureId, mtu: nat, frames: seq<seq<byte>>)
    requires mtu > 3
    ensures AllSurvive(Vp9, id, mtu, frames) <==> forall i :: 0 <= i < |frames| ==> Vp9IsKeyframe(frames[i])
    decreases |frames|
  {
    if frames != [] {
      var next := NextId(Vp9, id, mtu, frames[0]);
      Vp9SurvivesIff(next, mtu, frames[1..]);
      assert forall i :: 0 < i < |frames| ==> frames[i] == frames[1..][i - 1];
    }
  }

  /** The clock after k frames. */
  function TimeAt(ts: nat, step: nat, k: nat): nat
    decreases k
  {
    if k == 0 then ts else TimeAt(Wrap32(ts + step), step, k - 1)
  }

  lemma {:induction false} TimeAtIs(ts: nat, step: nat, k: nat)
    requires ts < 0x1_0000_0000
    ensures TimeAt(ts, step, k) == Wrap32(ts + k * step)
    decreases k
  {
    if k > 0 {
      TimeAtIs(Wrap32(ts + step), step, k - 1);
      Wrap32Onward(ts + step, (k - 1) * step);
      assert ts + step + (k - 1) * step == ts + k * step;
    }
  }

  lemma FirstSurvives(codec: Codec, id: PictureId, mtu: nat, frames: seq<seq<byte>>, ts: nat, step: nat)
    requires NonEmpty(frames) && AllSurvive(codec, id, mtu, frames) && frames != []
    ensures TimedSurvivors(codec, id, mtu, frames, ts, step)
         == [Frame(frames[0], ts)]
            + TimedSurvivors(codec, NextId(codec, id, mtu, frames[0]), mtu, frames[1..], Wrap32(ts + step), step)
  {
    OneSurvives(codec, id, mtu, frames[0]);
    TimedOne(frames[0], ts);
  }

  /** Each frame arrives at its own place with its own time. */
  lemma {:induction false} TimeOf(codec: Codec, id: PictureId, mtu: nat, frames: seq<seq<byte>>, ts: nat, step: nat, k: nat)
    requires NonEmpty(frames) && AllSurvive(codec, id, mtu, frames) && k < |frames|
    ensures |TimedSurvivors(codec, id, mtu, frames, ts, step)| == |frames|
    ensures TimedSurvivors(codec, id, mtu, frames, ts, step)[k] == Frame(frames[k], TimeAt(ts, step, k))
    decreases |frames|
  {
    GoodSurvive(codec, id, mtu, frames);
    SurvivorsData(codec, id, mtu, frames, ts, step);
    FirstSurvives(codec, id, mtu, frames, ts, step);
    if k > 0 {
      var rest := frames[1..];
      RestSurvives(codec, id, mtu, frames);
      TimeOf(codec, NextId(codec, id, mtu, frames[0]), mtu, rest, Wrap32(ts + step), step, k - 1);
    }
  }

  lemma RestSurvives(codec: Codec, id: PictureId, mtu: nat, frames: seq<seq<byte>>)
    requires frames != [] && NonEmpty(frames) && AllSurvive(codec, id, mtu, frames)
    ensures NonEmpty(frames[1..]) && AllSurvive(codec, NextId(codec, id, mtu, frames[0]), mtu, frames[1..])
  {
  }
}
