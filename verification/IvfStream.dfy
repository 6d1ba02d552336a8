/** Streaming IVF files: the frame loop, and a frame list sent, recorded and read back. */
module IvfStream {
  import opened Bytes
  import opened Ivf
  import opened RtpPackets
  import opened VideoAssembly
  import opened VideoClock
  import opened VideoPayload
  import opened VideoStream

  const MTU := 1200
  const VP90: seq<byte> := ['V' as byte, 'P' as byte, '9' as byte, '0' as byte]

  // ---- the streamer ----------------------------------------------------

  function CodecOf(fourcc: seq<byte>): Codec {
    if fourcc == VP90 then Vp9 else Vp8(false)
  }

  /** Whatever file opens has a timebase the clock's theorems speak of. */
  lemma OpenedStep(stream: seq<byte>)
    requires Open(stream).Some?
    ensures var o := Open(stream).value;
            && IsTimebase(o.denominator, o.numerator)
            && if NANOS_PER_SECOND * o.numerator < o.denominator then TickStep(o.denominator, o.numerator) == 2999
               else -1.5 < TickStep(o.denominator, o.numerator) as real - TICKS * Duration(o.denominator, o.numerator) < 0.5
  {
    var o := Open(stream).value;
    assert Span(4) == 0x1_0000_0000;
    assert |stream[16..20]| == 4 && |stream[20..24]| == 4;
    if NANOS_PER_SECOND * o.numerator < o.denominator {
      FallbackStep(o.denominator, o.numerator);
    } else {
      StepIsNear(o.denominator, o.numerator);
    }
  }

  method StreamIvf(stream: seq<byte>, seqNo: nat, ts: nat) returns (ok: bool, sent: seq<Rtp>)
    requires seqNo < 0x1_0000 && ts < 0x1_0000_0000
    ensures Open(stream).None? ==> !ok && sent == []
    ensures Open(stream).Some? ==>
              var o := Open(stream).value;
              && sent == Sendings(CodecOf(o.fourcc), 0, MTU, Data(FramesOf(o.rest, o.denominator, o.numerator)), seqNo, ts,
                                  TickStep(o.denominator, o.numerator))
              && (ok <==> WholeFrames(o.rest))
  {
    var reader := new IvfReader(stream);
    var header := reader.ParseFileHeader();
    if header.None? {
      return false, [];
    }
    var o := header.value;
    EndsCleanlyIff(o.rest, o.denominator, o.numerator);
    ok, sent := StreamFrames(reader, CodecOf(o.fourcc), seqNo, ts, TickStep(o.denominator, o.numerator));
  }

  /** The payloader the streamer picked, as far as the other one is untouched. */
  function IdOf(codec: Codec, p8: Vp8Payloader, p9: Vp9Payloader): PictureId
    reads p8, p9
  {
    if codec.Vp9? then p9.pictureID else p8.pictureID
  }

  method PayloadBy(codec: Codec, p8: Vp8Payloader, p9: Vp9Payloader, frame: seq<byte>) returns (payloads: seq<seq<byte>>)
    requires codec.Vp9? || codec == Vp8(p8.enablePictureID)
    modifies p8, p9
    ensures payloads == Payloads(codec, old(IdOf(codec, p8, p9)), MTU, frame)
    ensures IdOf(codec, p8, p9) == NextId(codec, old(IdOf(codec, p8, p9)), MTU, frame)
  {
    if codec.Vp9? {
      payloads := p9.Payload(MTU, frame);
    } else {
      payloads := p8.Payload(MTU, frame);
    }
  }

  /** One turn of the frame loop; rest stands for the frames still to come. */
  method SendNext(codec: Codec, p8: Vp8Payloader, p9: Vp9Payloader, frame: seq<byte>, seqNo: nat, ts: nat, ghost step: nat,
                  ghost rest: seq<seq<byte>>)
    returns (packets: seq<Rtp>, next: nat)
    requires seqNo < 0x1_0000 && (codec.Vp9? || codec == Vp8(p8.enablePictureID))
    modifies p8, p9
    ensures next < 0x1_0000
    ensures Sendings(codec, old(IdOf(codec, p8, p9)), MTU, [frame] + rest, seqNo, ts, step)
         == packets + Sendings(codec, IdOf(codec, p8, p9), MTU, rest, next, Wrap32(ts + step), step)
  {
    assert ([frame] + rest)[1..] == rest;
    var payloads := PayloadBy(codec, p8, p9, frame);
    packets, next := SendFrame(payloads, seqNo, ts);
  }

  /** What has been sent and what is to come make up all of it. */
  predicate OnTrack(all: seq<Rtp>, sent: seq<Rtp>, codec: Codec, id: PictureId, left: seq<seq<byte>>,
                    seqNo: nat, ts: nat, step: nat)
  {
    sent + Sendings(codec, id, MTU, left, seqNo, ts, step) == all
  }

  lemma StaysOnTrack(all: seq<Rtp>, sent: seq<Rtp>, codec: Codec, id: PictureId, frame: seq<byte>, left: seq<seq<byte>>,
                     seqNo: nat, ts: nat, step: nat, packets: seq<Rtp>, id': PictureId, seqNo': nat)
    requires OnTrack(all, sent, codec, id, [frame] + left, seqNo, ts, step)
    requires Sendings(codec, id, MTU, [frame] + left, seqNo, ts, step)
          == packets + Sendings(codec, id', MTU, left, seqNo', Wrap32(ts + step), step)
    ensures OnTrack(all, sent + packets, codec, id', left, seqNo', Wrap32(ts + step), step)
  {
    Regrouped(sent, packets, Sendings(codec, id', MTU, left, seqNo', Wrap32(ts + step), step));
  }

  method SendOnTrack(ghost all: seq<Rtp>, ghost sent: seq<Rtp>, codec: Codec, p8: Vp8Payloader, p9: Vp9Payloader,
                     frame: seq<byte>, seqNo: nat, ts: nat, ghost step: nat, ghost rest: seq<seq<byte>>)
    returns (packets: seq<Rtp>, next: nat)
    requires seqNo < 0x1_0000 && (codec.Vp9? || codec == Vp8(p8.enablePictureID))
    requires OnTrack(all, sent, codec, IdOf(codec, p8, p9), [frame] + rest, seqNo, ts, step)
    modifies p8, p9
    ensures next < 0x1_0000
    ensures OnTrack(all, sent + packets, codec, IdOf(codec, p8, p9), rest, next, Wrap32(ts + step), step)
  {
    ghost var id := IdOf(codec, p8, p9);
    packets, next := SendNext(codec, p8, p9, frame, seqNo, ts, step, rest);
    StaysOnTrack(all, sent, codec, id, frame, rest, seqNo, ts, step, packets, IdOf(codec, p8, p9), next);
  }

  lemma AllSent(all: seq<Rtp>, sent: seq<Rtp>, codec: Codec, id: PictureId, seqNo: nat, ts: nat, step: nat)
    requires OnTrack(all, sent, codec, id, [], seqNo, ts, step)
    ensures sent == all
  {
    assert sent + [] == sent;
  }

  /** What is still to be read: these frames, and then this end. */
  predicate Ahead(stream: seq<byte>, den: nat, num: nat, end: FrameRead, left: seq<seq<byte>>)
    requires num > 0
  {
    EndOf(stream, den, num) == end && Data(FramesOf(stream, den, num)) == left
  }

  lemma OneAhead(stream: seq<byte>, den: nat, num: nat, end: FrameRead, left: seq<seq<byte>>)
    requires num > 0 && Ahead(stream, den, num, end, left)
    ensures var r := ReadFrame(stream, den, num);
            if r.Got? then
              |r.rest| < |stream| && left != [] && left == [r.frame.data] + left[1..] && Ahead(r.rest, den, num, end, left[1..])
            else r == end && left == []
  {
    NextFrame(stream, den, num);
  }

  method StreamFrames(reader: IvfReader, codec: Codec, seqNo: nat, ts: nat, step: nat) returns (ok: bool, sent: seq<Rtp>)
    requires reader.numerator > 0 && seqNo < 0x1_0000 && (codec.Vp9? || codec == Vp8(false))
    modifies reader
    ensures sent == Sendings(codec, 0, MTU,
                             Data(FramesOf(old(reader.stream), old(reader.denominator), old(reader.numerator))), seqNo, ts, step)
    ensures ok <==> EndOf(old(reader.stream), old(reader.denominator), old(reader.numerator)).AtEof?
  {
    var den, num := reader.denominator, reader.numerator;
    var p8 := new Vp8Payloader(false);
    var p9 := new Vp9Payloader();
    ghost var end, left := EndOf(reader.stream, den, num), Data(FramesOf(reader.stream, den, num));
    ghost var all := Sendings(codec, 0, MTU, left, seqNo, ts, step);
    var number: nat, time: nat := seqNo, ts;
    sent := [];
    while true
      invariant reader.denominator == den && reader.numerator == num && number < 0x1_0000
      invariant Ahead(reader.stream, den, num, end, left)
      invariant OnTrack(all, sent, codec, IdOf(codec, p8, p9), left, number, time, step)
      decreases |reader.stream|
    {
      OneAhead(reader.stream, den, num, end, left);
      var r := reader.ParseNextFrame();
      if !r.Got? {
        AllSent(all, sent, codec, IdOf(codec, p8, p9), number, time, step);
        return r.AtEof?, sent;
      }
      left := left[1..];
      var packets;
      packets, number := SendOnTrack(all, sent, codec, p8, p9, r.frame.data, number, time, step, left);
      sent := sent + packets;
      time := Wrap32(time + step);
    }
  }

  // ---- a recording streamed --------------------------------------------

  predicate AllAt(sent: seq<Rtp>, ts: nat) {
    forall i :: 0 <= i < |sent| ==> sent[i].ts == ts
  }

  lemma {:induction false} OneTime(payloads: seq<seq<byte>>, seqNo: nat, ts: nat)
    ensures AllAt(Rtps(payloads, seqNo, ts), ts)
    decreases |payloads|
  {
    if payloads != [] {
      OneTime(payloads[1..], Wrap16(seqNo + 1), ts);
    }
  }

  lemma {:induction false} StandsStill(codec: Codec, id: PictureId, mtu: nat, frames: seq<seq<byte>>, seqNo: nat, ts: nat)
    requires ts < 0x1_0000_0000
    ensures AllAt(Sendings(codec, id, mtu, frames, seqNo, ts, 0), ts)
    decreases |frames|
  {
    if frames != [] {
      var ps, next := Payloads(codec, id, mtu, frames[0]), NextId(codec, id, mtu, frames[0]);
      OneTime(ps, seqNo, ts);
      assert Wrap32(ts + 0) == ts;
      StandsStill(codec, next, mtu, frames[1..], Wrap16(seqNo + |ps|), ts);
      assert Sendings(codec, id, mtu, frames, seqNo, ts, 0)
          == Rtps(ps, seqNo, ts) + Sendings(codec, next, mtu, frames[1..], Wrap16(seqNo + |ps|), ts, 0);
    }
  }

  /** Whatever was recorded, and when: streamed from the recording, every frame has one and the same time. */
  lemma StreamedRecordingStandsStill(fourcc: seq<byte>, body: seq<byte>, seqNo: nat, ts: nat)
    requires |fourcc| == 4 && ts < 0x1_0000_0000
    ensures Open(FileHeader(fourcc) + body).Some?
    ensures var o := Open(FileHeader(fourcc) + body).value;
            AllAt(Sendings(CodecOf(o.fourcc), 0, MTU, Data(FramesOf(o.rest, o.denominator, o.numerator)), seqNo, ts,
                           TickStep(o.denominator, o.numerator)), ts)
  {
    FileOpens(fourcc, body);
    RecordingStepIsZero();
    StandsStill(CodecOf(fourcc), 0, MTU, Data(FramesOf(body, CLOCK, 1)), seqNo, ts);
  }

  // ---- frames in, frames out -------------------------------------------

  lemma {:induction false} DataAt(frames: seq<Frame>, i: nat)
    requires i < |frames|
    ensures Data(frames)[i] == frames[i].data
  {
    if i > 0 {
      DataAt(frames[1..], i - 1);
    }
  }

  lemma {:induction false} DatedData(first: nat, frames: seq<Frame>)
    requires first < 0x1_0000_0000
    ensures Data(Dated(first, frames)) == Data(frames)
  {
    if frames != [] {
      DatedData(first, frames[1..]);
    }
  }

  lemma {:induction false} SurvivorsFit(codec: Codec, id: PictureId, mtu: nat, frames: seq<seq<byte>>)
    requires forall i :: 0 <= i < |frames| ==> SizeFits(frames[i])
    ensures forall i :: 0 <= i < |Survivors(codec, id, mtu, frames)| ==> SizeFits(Survivors(codec, id, mtu, frames)[i])
    decreases |frames|
  {
    if frames != [] {
      SurvivorsFit(codec, NextId(codec, id, mtu, frames[0]), mtu, frames[1..]);
    }
  }

  /** What a recorder fed with the packets of the frames has written. */
  function Recorded(codec: Codec, fourcc: seq<byte>, id: PictureId, mtu: nat, frames: seq<seq<byte>>,
                    seqNo: nat, ts: nat, step: nat): seq<byte>
    requires |fourcc| == 4
  {
    var fed := Sendings(codec, id, mtu, frames, seqNo, ts, step);
    Recording(FileHeader(fourcc), fed, Run(StripOf(codec), Assembly([], false), fed).frames)
  }

  lemma RecordedIs(codec: Codec, fourcc: seq<byte>, id: PictureId, mtu: nat, frames: seq<seq<byte>>,
                   seqNo: nat, ts: nat, step: nat)
    requires |fourcc| == 4 && (forall i :: 0 <= i < |frames| ==> SizeFits(frames[i]))
    ensures var arrived := TimedSurvivors(codec, id, mtu, frames, ts, step);
            ReadsAs(Recorded(codec, fourcc, id, mtu, frames, seqNo, ts, step))
            == if Sendings(codec, id, mtu, frames, seqNo, ts, step) == [] then None
               else Some(Dated(Origin(arrived), arrived))
  {
    var arrived := TimedSurvivors(codec, id, mtu, frames, ts, step);
    CodecSurvives(codec, mtu);
    StreamAssembles(StripOf(codec), codec, id, mtu, frames, Assembly([], false), seqNo, ts, step);
    SurvivorsFit(codec, id, mtu, frames);
    SurvivorsData(codec, id, mtu, frames, ts, step);
    forall i | 0 <= i < |arrived| ensures SizeFits(arrived[i].data) {
      DataAt(arrived, i);
    }
    RecordingReadsBack(fourcc, Sendings(codec, id, mtu, frames, seqNo, ts, step), arrived);
  }

  lemma FirstIsSent(codec: Codec, id: PictureId, mtu: nat, frames: seq<seq<byte>>, seqNo: nat, ts: nat, step: nat)
    requires frames != [] && NonEmpty(frames) && AllSurvive(codec, id, mtu, frames)
    ensures Sendings(codec, id, mtu, frames, seqNo, ts, step) != []
  {
    assert Payloads(codec, id, mtu, frames[0]) != [];
  }

  /** Frames through payloader, packets, recorder and reader are the same frames exactly if all survive. */
  lemma RecordingKeepsFramesIff(codec: Codec, fourcc: seq<byte>, id: PictureId, mtu: nat, frames: seq<seq<byte>>,
                                seqNo: nat, ts: nat, step: nat)
    requires |fourcc| == 4 && frames != [] && NonEmpty(frames)
    requires forall i :: 0 <= i < |frames| ==> SizeFits(frames[i])
    ensures var r := ReadsAs(Recorded(codec, fourcc, id, mtu, frames, seqNo, ts, step));
            r.Some? && Data(r.value) == frames <==> AllSurvive(codec, id, mtu, frames)
  {
    var arrived := TimedSurvivors(codec, id, mtu, frames, ts, step);
    RecordedIs(codec, fourcc, id, mtu, frames, seqNo, ts, step);
    DatedData(Origin(arrived), arrived);
    SurvivorsData(codec, id, mtu, frames, ts, step);
    if AllSurvive(codec, id, mtu, frames) {
      FirstIsSent(codec, id, mtu, frames, seqNo, ts, step);
      GoodSurvive(codec, id, mtu, frames);
    } else {
      LossCosts(codec, id, mtu, frames);
    }
  }

  lemma WrapsOnce(n: nat)
    ensures Wrap32(n + 0x1_0000_0000) == Wrap32(n)
  {
    ModIs(0x1_0000_0000, n / 0x1_0000_0000 + 1, n % 0x1_0000_0000);
  }

  /** k frames of step ticks each. */
  function Elapsed(k: nat, step: nat): nat {
    k * step
  }

  lemma {:induction false} PtsOfFrame(ts: nat, step: nat, k: nat)
    requires ts < 0x1_0000_0000
    ensures Pts(ts, TimeAt(ts, step, k)) == Wrap32(Elapsed(k, step))
  {
    TimeAtIs(ts, step, k);
    Wrap32Onward(ts + k * step, 0x1_0000_0000 - ts);
    WrapsOnce(k * step);
  }

  predicate HoldsAt(r: Option<seq<Frame>>, n: nat, k: nat, f: Frame) {
    r.Some? && |r.value| == n && k < n && r.value[k] == f
  }

  /** And frame k is dated k steps from the first, wherever the sender's clock started. */
  lemma FramesAreDated(codec: Codec, fourcc: seq<byte>, id: PictureId, mtu: nat, frames: seq<seq<byte>>,
                       seqNo: nat, ts: nat, step: nat, k: nat)
    requires |fourcc| == 4 && k < |frames| && NonEmpty(frames) && AllSurvive(codec, id, mtu, frames)
    requires (forall i :: 0 <= i < |frames| ==> SizeFits(frames[i])) && ts < 0x1_0000_0000
    ensures HoldsAt(ReadsAs(Recorded(codec, fourcc, id, mtu, frames, seqNo, ts, step)), |frames|, k,
                    Frame(frames[k], CLOCK * Wrap32(Elapsed(k, step))))
  {
    RecordedIs(codec, fourcc, id, mtu, frames, seqNo, ts, step);
    FirstIsSent(codec, id, mtu, frames, seqNo, ts, step);
    TimeOf(codec, id, mtu, frames, ts, step, 0);
    TimeOf(codec, id, mtu, frames, ts, step, k);
    PtsOfFrame(ts, step, k);
  }
}
