/** Descriptors stripped and frames put together again, and what that returns of each frame sent. */
module VideoAssembly {
  import opened Bytes
  import opened RtpPackets
  import opened VideoPayload

  datatype Stripped = Stripped(data: seq<byte>, start: bool)

  // ---- VP8 descriptors -------------------------------------------------

  function PictureIdSize8(p: seq<byte>): nat
    requires |p| >= 2
  {
    if !HasBit(p[1], 128) then 0
    else if |p| >= 3 && HasBit(p[2], 128) then 2 else 1
  }

  /** How long the descriptor says it is, so far as the payload reaches. */
  function Size8(p: seq<byte>): (n: nat)
    requires p != []
    ensures n >= 1
  {
    if !HasBit(p[0], 128) then 1
    else if |p| < 2 then 2
    else
      2 + PictureIdSize8(p)
      + (if HasBit(p[1], 64) then 1 else 0)
      + (if HasBit(p[1], 32) || HasBit(p[1], 16) then 1 else 0)
  }

  /** A truncated descriptor is an error; an empty payload after a whole one is not. */
  function Strip8(p: seq<byte>): Option<Stripped> {
    if p == [] || |p| < Size8(p) then None else Some(Stripped(p[Size8(p)..], HasBit(p[0], 16)))
  }

  method StripVp8Descriptor(payload: seq<byte>) returns (r: Option<seq<byte>>)
    ensures r.Some? == Strip8(payload).Some? && (r.Some? ==> r.value == Strip8(payload).value.data)
  {
    if |payload| < 1 {
      return None;
    }
    var idx := 1;
    if HasBit(payload[0], 128) {
      if |payload| < idx + 1 {
        return None;
      }
      var ext := payload[idx];
      idx := idx + 1;
      if HasBit(ext, 128) {
        if |payload| < idx + 1 {
          return None;
        }
        var m := HasBit(payload[idx], 128);
        idx := idx + 1;
        if m {
          if |payload| < idx + 1 {
            return None;
          }
          idx := idx + 1;
        }
      }
      if HasBit(ext, 64) {
        if |payload| < idx + 1 {
          return None;
        }
        idx := idx + 1;
      }
      if HasBit(ext, 32) || HasBit(ext, 16) {
        if |payload| < idx + 1 {
          return None;
        }
        idx := idx + 1;
      }
    }
    if |payload| < idx {
      return None;
    }
    return Some(payload[idx..]);
  }

  // ---- VP9 descriptors -------------------------------------------------

  function PictureIdSize9(p: seq<byte>): nat
    requires p != []
  {
    if !HasBit(p[0], 128) then 0 else if |p| >= 2 && HasBit(p[1], 128) then 2 else 1
  }

  function LayerSize9(p: seq<byte>): nat
    requires p != []
  {
    if !HasBit(p[0], 64) then 0 else if HasBit(p[0], 32) then 1 else 2
  }

  /** Reference octets go on while their low bit is set, for at most n, and stop silently at the end. */
  function RefsEnd(p: seq<byte>, idx: nat, n: nat): (e: nat)
    requires idx <= |p|
    ensures idx <= e <= |p|
    decreases n
  {
    if n == 0 || idx == |p| then idx
    else if !HasBit(p[idx], 1) then idx + 1
    else RefsEnd(p, idx + 1, n - 1)
  }

  /** Each picture of the group has an octet announcing up to three more. */
  function GroupEnd(p: seq<byte>, idx: nat, n: nat): (e: Option<nat>)
    requires idx <= |p|
    ensures e.Some? ==> idx <= e.value <= |p|
    decreases n
  {
    if n == 0 then Some(idx)
    else if idx == |p| then None
    else
      var r := p[idx] as int / 4 % 4;
      if |p| < idx + 1 + r then None else GroupEnd(p, idx + 1 + r, n - 1)
  }

  function StructureEnd(p: seq<byte>, idx: nat): (e: Option<nat>)
    requires idx <= |p|
    ensures e.Some? ==> idx <= e.value <= |p|
  {
    if idx == |p| then None
    else
      var sizes := if HasBit(p[idx], 16) then (p[idx] as int / 32 % 8 + 1) * 4 else 0;
      var at := idx + 1 + sizes;
      if |p| < at then None
      else if !HasBit(p[idx], 8) then Some(at)
      else if |p| == at then None
      else GroupEnd(p, at + 1, p[at])
  }

  function End9(p: seq<byte>): (e: Option<nat>)
    requires p != []
    ensures e.Some? ==> 1 <= e.value <= |p|
  {
    var fixed := 1 + PictureIdSize9(p) + LayerSize9(p);
    if |p| < fixed then None
    else
      var at := if HasBit(p[0], 32) && HasBit(p[0], 128) then RefsEnd(p, fixed, 3) else fixed;
      if HasBit(p[0], 2) then StructureEnd(p, at) else Some(at)
  }

  function Strip9(p: seq<byte>): Option<Stripped> {
    if p == [] || End9(p).None? then None else Some(Stripped(p[End9(p).value..], HasBit(p[0], 8)))
  }

  method StripVp9Descriptor(payload: seq<byte>) returns (r: Option<Stripped>)
    ensures r == Strip9(payload)
  {
    if |payload| < 1 {
      return None;
    }
    var d := payload[0];
    var idx := 1;
    if HasBit(d, 128) {
      if |payload| < idx + 1 {
        return None;
      }
      if HasBit(payload[idx], 128) {
        if |payload| < idx + 2 {
          return None;
        }
        idx := idx + 2;
      } else {
        idx := idx + 1;
      }
    }
    if HasBit(d, 64) {
      if |payload| < idx + 1 {
        return None;
      }
      idx := idx + 1;
      if !HasBit(d, 32) {
        if |payload| < idx + 1 {
          return None;
        }
        idx := idx + 1;
      }
    }
    if HasBit(d, 32) && HasBit(d, 128) {
      idx := SkipRefs(payload, idx);
    }
    if HasBit(d, 2) {
      var end := SkipStructure(payload, idx);
      if end.None? {
        return None;
      }
      idx := end.value;
    }
    return Some(Stripped(payload[idx..], HasBit(d, 8)));
  }

  method SkipRefs(payload: seq<byte>, from: nat) returns (idx: nat)
    requires from <= |payload|
    ensures idx == RefsEnd(payload, from, 3)
  {
    idx := from;
    for j := 0 to 3
      invariant idx <= |payload| && RefsEnd(payload, idx, 3 - j) == RefsEnd(payload, from, 3)
    {
      if |payload| < idx + 1 {
        return;
      }
      var ref := payload[idx];
      idx := idx + 1;
      if !HasBit(ref, 1) {
        return;
      }
    }
  }

  method SkipStructure(payload: seq<byte>, from: nat) returns (end: Option<nat>)
    requires from <= |payload|
    ensures end == StructureEnd(payload, from)
  {
    if |payload| < from + 1 {
      return None;
    }
    var ss := payload[from];
    var idx := from + 1;
    var ns := ss as int / 32 % 8 + 1;
    if HasBit(ss, 16) {
      if |payload| < idx + ns * 4 {
        return None;
      }
      idx := idx + ns * 4;
    }
    if HasBit(ss, 8) {
      if |payload| < idx + 1 {
        return None;
      }
      var ng: nat := payload[idx];
      idx := idx + 1;
      ghost var start := idx;
      for j := 0 to ng
        invariant start <= idx <= |payload| && GroupEnd(payload, idx, ng - j) == GroupEnd(payload, start, ng)
      {
        if |payload| < idx + 1 {
          return None;
        }
        var pg := payload[idx];
        idx := idx + 1;
        var r := pg as int / 4 % 4;
        if |payload| < idx + r {
          return None;
        }
        idx := idx + r;
      }
    }
    return Some(idx);
  }

  // ---- assembling ------------------------------------------------------

  /** What a codec's parser makes of a payload. */
  type Stripping = seq<byte> -> Option<Stripped>

  function StripOf(codec: Codec): Stripping {
    if codec.Vp9? then Strip9 else Strip8
  }

  datatype Assembly = Assembly(buf: seq<byte>, open: bool)

  datatype Pushed = Pushed(state: Assembly, frame: Option<seq<byte>>, ok: bool)

  /** A start empties the buffer, data joins an open frame, the marker closes it; an error changes nothing. */
  function Pushes(strip: Stripping, a: Assembly, p: Rtp): Pushed {
    if p.payload == [] then Pushed(a, None, true)
    else
      match strip(p.payload)
      case None => Pushed(a, None, false)
      case Some(s) =>
        if !s.start && !a.open then Pushed(a, None, true)
        else
          var buf := (if s.start then [] else a.buf) + s.data;
          if p.marker then Pushed(Assembly([], false), Some(buf), true)
          else Pushed(Assembly(buf, true), None, true)
  }

  /** The two assemblers, which differ in the parser they call. */
  class FrameAssembler {
    const codec: Codec
    var buf: seq<byte>
    var open: bool

    function State(): Assembly
      reads this
    {
      Assembly(buf, open)
    }

    constructor (codec: Codec)
      ensures this.codec == codec && State() == Assembly([], false)
    {
      this.codec, buf, open := codec, [], false;
    }

    method Strip(payload: seq<byte>) returns (r: Option<Stripped>)
      ensures r == StripOf(codec)(payload)
    {
      if codec.Vp9? {
        r := StripVp9Descriptor(payload);
      } else {
        var data := StripVp8Descriptor(payload);
        if data.None? {
          return None;
        }
        r := Some(Stripped(data.value, HasBit(payload[0], 16)));
      }
    }

    method Push(p: Rtp) returns (frame: Option<seq<byte>>, ok: bool)
      modifies this
      ensures Pushes(StripOf(codec), old(State()), p) == Pushed(State(), frame, ok)
    {
      if |p.payload| < 1 {
        return None, true;
      }
      var s := Strip(p.payload);
      if s.None? {
        return None, false;
      }
      if s.value.start {
        buf := [];
        open := true;
      }
      if !open {
        return None, true;
      }
      buf := buf + s.value.data;
      if p.marker {
        var out := buf;
        buf := [];
        open := false;
        return Some(out), true;
      }
      return None, true;
    }
  }

  // ---- a run of packets ------------------------------------------------

  datatype Frame = Frame(data: seq<byte>, ts: nat)

  datatype Assembled = Assembled(state: Assembly, frames: seq<Frame>)

  function Finished(r: Pushed, ts: nat): seq<Frame> {
    if r.frame.Some? then [Frame(r.frame.value, ts)] else []
  }

  /** The frames a run of packets completes, each with the time of the packet that completed it. */
  function Run(strip: Stripping, a: Assembly, ps: seq<Rtp>): Assembled {
    if ps == [] then Assembled(a, [])
    else
      var before := Run(strip, a, ps[..|ps| - 1]);
      var p := ps[|ps| - 1];
      var r := Pushes(strip, before.state, p);
      Assembled(r.state, before.frames + Finished(r, p.ts))
  }

  lemma SnocJoins(ps: seq<Rtp>, qs: seq<Rtp>)
    requires qs != []
    ensures var n := |ps + qs| - 1;
            (ps + qs)[..n] == ps + qs[..|qs| - 1] && (ps + qs)[n] == qs[|qs| - 1]
  {
  }

  lemma {:induction false} RunJoins(strip: Stripping, a: Assembly, ps: seq<Rtp>, qs: seq<Rtp>)
    ensures var first := Run(strip, a, ps);
            var second := Run(strip, first.state, qs);
            Run(strip, a, ps + qs) == Assembled(second.state, first.frames + second.frames)
  {
    if qs == [] {
      assert ps + qs == ps;
    } else {
      var n := |qs| - 1;
      RunJoins(strip, a, ps, qs[..n]);
      SnocJoins(ps, qs);
    }
  }

  lemma RunOne(strip: Stripping, a: Assembly, p: Rtp)
    ensures Run(strip, a, [p]) == Assembled(Pushes(strip, a, p).state, Finished(Pushes(strip, a, p), p.ts))
  {
    assert [p][..0] == [];
  }

  lemma RunFirst(strip: Stripping, a: Assembly, p: Rtp, ps: seq<Rtp>)
    ensures var r := Pushes(strip, a, p);
            Run(strip, a, [p] + ps)
            == Assembled(Run(strip, r.state, ps).state, Finished(r, p.ts) + Run(strip, r.state, ps).frames)
  {
    RunOne(strip, a, p);
    RunJoins(strip, a, [p], ps);
  }

  // ---- one frame through the payloader and back ------------------------

  /** The packets of one frame: consecutive numbers, one time, the marker on the last. */
  function Rtps(payloads: seq<seq<byte>>, seqNo: nat, ts: nat): seq<Rtp> {
    if payloads == [] then []
    else [Rtp(seqNo, ts, |payloads| == 1, payloads[0])] + Rtps(payloads[1..], Wrap16(seqNo + 1), ts)
  }

  lemma RtpsOfPieces(head: Heading, max: nat, frame: seq<byte>, first: bool, seqNo: nat, ts: nat)
    requires max > 0
    ensures Rtps(Pieces(head, max, frame, first), seqNo, ts)
         == if |frame| <= max then [Rtp(seqNo, ts, true, head(first, true) + frame)]
            else [Rtp(seqNo, ts, false, head(first, false) + frame[..max])]
                 + Rtps(Pieces(head, max, frame[max..], false), Wrap16(seqNo + 1), ts)
  {
    var ps := Pieces(head, max, frame, first);
    if |frame| <= max {
      assert ps[1..] == [];
    } else {
      assert ps[1..] == Pieces(head, max, frame[max..], false);
    }
  }

  /** What a parser should make of data behind a descriptor, or makes of it if it takes two octets too many. */
  function Taken(greedy: bool, first: bool, data: seq<byte>): Option<Stripped> {
    if !greedy then Some(Stripped(data, first))
    else if |data| < 2 then None else Some(Stripped(data[2..], first))
  }

  /** The parser takes off what the payloader put on, and, if greedy, two octets more. */
  ghost predicate Takes(strip: Stripping, head: Heading, greedy: bool) {
    && (forall first, last :: head(first, last) != [])
    && forall first, last, data: seq<byte> {:trigger head(first, last) + data} ::
         strip(head(first, last) + data) == Taken(greedy, first, data)
  }

  lemma {:induction false} FrameComesBack(strip: Stripping, head: Heading, max: nat, frame: seq<byte>,
                                          first: bool, a: Assembly, seqNo: nat, ts: nat)
    requires Takes(strip, head, false) && max > 0 && (first || a.open)
    ensures Run(strip, a, Rtps(Pieces(head, max, frame, first), seqNo, ts))
         == Assembled(Assembly([], false), [Frame((if first then [] else a.buf) + frame, ts)])
    decreases |frame|
  {
    if |frame| <= max {
      TakeLast(strip, head, max, frame, first, a, seqNo, ts);
    } else {
      var buf := if first then [] else a.buf;
      Glued(buf, frame, max);
      TakeOne(strip, head, max, frame, first, a, seqNo, ts);
      FrameComesBack(strip, head, max, frame[max..], false, Assembly(buf + frame[..max], true), Wrap16(seqNo + 1), ts);
    }
  }

  lemma Glued(buf: seq<byte>, frame: seq<byte>, n: nat)
    requires n <= |frame|
    ensures buf + frame[..n] + frame[n..] == buf + frame
  {
  }

  lemma TakeLast(strip: Stripping, head: Heading, max: nat, frame: seq<byte>,
                 first: bool, a: Assembly, seqNo: nat, ts: nat)
    requires Takes(strip, head, false) && max > 0 && (first || a.open) && |frame| <= max
    ensures Run(strip, a, Rtps(Pieces(head, max, frame, first), seqNo, ts))
         == Assembled(Assembly([], false), [Frame((if first then [] else a.buf) + frame, ts)])
  {
    RtpsOfPieces(head, max, frame, first, seqNo, ts);
    RunOne(strip, a, Rtp(seqNo, ts, true, head(first, true) + frame));
  }

  lemma TakeOne(strip: Stripping, head: Heading, max: nat, frame: seq<byte>,
                first: bool, a: Assembly, seqNo: nat, ts: nat)
    requires Takes(strip, head, false) && max > 0 && (first || a.open) && |frame| > max
    ensures var next := Assembly((if first then [] else a.buf) + frame[..max], true);
            Run(strip, a, Rtps(Pieces(head, max, frame, first), seqNo, ts))
            == Run(strip, next, Rtps(Pieces(head, max, frame[max..], false), Wrap16(seqNo + 1), ts))
  {
    RtpsOfPieces(head, max, frame, first, seqNo, ts);
    RunFirst(strip, a, Rtp(seqNo, ts, false, head(first, false) + frame[..max]),
             Rtps(Pieces(head, max, frame[max..], false), Wrap16(seqNo + 1), ts));
  }

  function LastPiece(max: nat, frame: seq<byte>): (n: nat)
    requires max > 0
    ensures frame != [] ==> 0 < n <= max
    decreases |frame|
  {
    if |frame| <= max then |frame| else LastPiece(max, frame[max..])
  }

  /** A frame whose every piece has lost its first two octets. */
  function Bitten(max: nat, frame: seq<byte>): (r: seq<byte>)
    requires max > 1 && LastPiece(max, frame) >= 2
    ensures |r| < |frame|
    decreases |frame|
  {
    if |frame| <= max then frame[2..] else frame[..max][2..] + Bitten(max, frame[max..])
  }

  lemma {:induction false} FrameIsBitten(strip: Stripping, head: Heading, max: nat, frame: seq<byte>,
                                         first: bool, a: Assembly, seqNo: nat, ts: nat)
    requires Takes(strip, head, true) && max > 1 && (first || a.open)
    ensures Run(strip, a, Rtps(Pieces(head, max, frame, first), seqNo, ts)).frames
         == if LastPiece(max, frame) < 2 then []
            else [Frame((if first then [] else a.buf) + Bitten(max, frame), ts)]
    decreases |frame|
  {
    RtpsOfPieces(head, max, frame, first, seqNo, ts);
    if |frame| <= max {
      RunOne(strip, a, Rtp(seqNo, ts, true, head(first, true) + frame));
    } else {
      BiteOne(strip, head, max, frame, first, a, seqNo, ts);
      var next := Assembly((if first then [] else a.buf) + frame[..max][2..], true);
      FrameIsBitten(strip, head, max, frame[max..], false, next, Wrap16(seqNo + 1), ts);
      if LastPiece(max, frame) >= 2 {
        BittenOnto(max, frame, if first then [] else a.buf);
      }
    }
  }

  lemma BittenOnto(max: nat, frame: seq<byte>, buf: seq<byte>)
    requires max > 1 && |frame| > max && LastPiece(max, frame) >= 2
    ensures buf + frame[..max][2..] + Bitten(max, frame[max..]) == buf + Bitten(max, frame)
  {
  }

  lemma BiteOne(strip: Stripping, head: Heading, max: nat, frame: seq<byte>,
                first: bool, a: Assembly, seqNo: nat, ts: nat)
    requires Takes(strip, head, true) && max > 1 && (first || a.open) && |frame| > max
    ensures var next := Assembly((if first then [] else a.buf) + frame[..max][2..], true);
            Run(strip, a, Rtps(Pieces(head, max, frame, first), seqNo, ts)).frames
            == Run(strip, next, Rtps(Pieces(head, max, frame[max..], false), Wrap16(seqNo + 1), ts)).frames
  {
    RtpsOfPieces(head, max, frame, first, seqNo, ts);
    RunFirst(strip, a, Rtp(seqNo, ts, false, head(first, false) + frame[..max]),
             Rtps(Pieces(head, max, frame[max..], false), Wrap16(seqNo + 1), ts));
  }

  lemma {:induction false} SingleOctetsFail(strip: Stripping, head: Heading, frame: seq<byte>,
                                            first: bool, a: Assembly, seqNo: nat, ts: nat)
    requires Takes(strip, head, true)
    ensures Run(strip, a, Rtps(Pieces(head, 1, frame, first), seqNo, ts)) == Assembled(a, [])
    decreases |frame|
  {
    RtpsOfPieces(head, 1, frame, first, seqNo, ts);
    if |frame| <= 1 {
      RunOne(strip, a, Rtp(seqNo, ts, true, head(first, true) + frame));
    } else {
      SingleOctetsFail(strip, head, frame[1..], false, a, Wrap16(seqNo + 1), ts);
      RunFirst(strip, a, Rtp(seqNo, ts, false, head(first, false) + frame[..1]),
               Rtps(Pieces(head, 1, frame[1..], false), Wrap16(seqNo + 1), ts));
    }
  }

  lemma Vp8Strips(pictureIds: bool, id: PictureId, first: bool, last: bool, data: seq<byte>)
    ensures Strip8(Header(Vp8(pictureIds), id, false, first, last) + data) == Taken(false, first, data)
  {
    var h := Header(Vp8(pictureIds), id, false, first, last);
    var p := h + data;
    assert Size8(p) == |h|;
    assert p[|h|..] == data;
  }

  /** On key frames the VP9 parser is right; on others it reads the inter flag as the layer flag. */
  lemma Vp9Strips(id: PictureId, inter: bool, first: bool, last: bool, data: seq<byte>)
    ensures Strip9(Header(Vp9, id, inter, first, last) + data)
         == Taken(inter, first, data)
  {
    var h := Header(Vp9, id, inter, first, last);
    var p := h + data;
    assert p[3..] == data;
    assert HasBit(p[0], 64) == inter && !HasBit(p[0], 32) && HasBit(p[0], 8) == first && !HasBit(p[0], 2);
    if inter && |data| >= 2 {
      assert p[5..] == data[2..];
    }
  }

  lemma Vp8Takes(pictureIds: bool, id: PictureId)
    ensures Takes(Strip8, HeadingOf(Vp8(pictureIds), id, false), false)
  {
    var head := HeadingOf(Vp8(pictureIds), id, false);
    forall first, last ensures head(first, last) != [] {
      assert |Header(Vp8(pictureIds), id, false, first, last)| >= 1;
    }
    forall first, last, data: seq<byte>
      ensures Strip8(head(first, last) + data) == Taken(false, first, data)
    {
      Vp8Strips(pictureIds, id, first, last, data);
    }
  }

  lemma Vp9Takes(id: PictureId, inter: bool)
    ensures Takes(Strip9, HeadingOf(Vp9, id, inter), inter)
  {
    var head := HeadingOf(Vp9, id, inter);
    forall first, last ensures head(first, last) != [] {
      assert |Header(Vp9, id, inter, first, last)| >= 1;
    }
    forall first, last, data: seq<byte>
      ensures Strip9(head(first, last) + data) == Taken(inter, first, data)
    {
      Vp9Strips(id, inter, first, last, data);
    }
  }

  lemma CodecTakes(codec: Codec, id: PictureId, frame: seq<byte>)
    ensures var inter := Inter(codec, frame); Takes(StripOf(codec), HeadingOf(codec, id, inter), inter)
  {
    if codec.Vp9? {
      Vp9Takes(id, Inter(codec, frame));
    } else {
      Vp8Takes(codec.pictureIds, id);
    }
  }

  /** What is left of one frame after the payloader and the assembler. */
  function Survives(codec: Codec, id: PictureId, mtu: nat, frame: seq<byte>): seq<seq<byte>> {
    if mtu <= HeaderSize(codec, id) || frame == [] then []
    else Left(Inter(codec, frame), mtu - HeaderSize(codec, id), frame)
  }

  function Timed(frames: seq<seq<byte>>, ts: nat): seq<Frame> {
    if frames == [] then [] else [Frame(frames[0], ts)] + Timed(frames[1..], ts)
  }

  lemma TimedOne(frame: seq<byte>, ts: nat)
    ensures Timed([frame], ts) == [Frame(frame, ts)]
  {
    assert [frame][1..] == [];
  }

  lemma InterSurvives(strip: Stripping, head: Heading, max: nat, frame: seq<byte>, a: Assembly, seqNo: nat, ts: nat)
    requires Takes(strip, head, true) && max > 0 && frame != []
    ensures Run(strip, a, Rtps(Pieces(head, max, frame, true), seqNo, ts)).frames
         == Timed(if max < 2 || LastPiece(max, frame) < 2 then [] else [Bitten(max, frame)], ts)
  {
    if max < 2 {
      SingleOctetsFail(strip, head, frame, true, a, seqNo, ts);
    } else {
      FrameIsBitten(strip, head, max, frame, true, a, seqNo, ts);
      if LastPiece(max, frame) >= 2 {
        assert [] + Bitten(max, frame) == Bitten(max, frame);
        TimedOne(Bitten(max, frame), ts);
      }
    }
  }

  lemma NothingToRun(strip: Stripping, a: Assembly, seqNo: nat, ts: nat)
    ensures Run(strip, a, Rtps([], seqNo, ts)) == Assembled(a, [])
  {
  }

  lemma KeySurvives(strip: Stripping, head: Heading, max: nat, frame: seq<byte>, a: Assembly, seqNo: nat, ts: nat)
    requires Takes(strip, head, false) && max > 0
    ensures Run(strip, a, Rtps(Pieces(head, max, frame, true), seqNo, ts)).frames == Timed([frame], ts)
  {
    FrameComesBack(strip, head, max, frame, true, a, seqNo, ts);
    assert [] + frame == frame;
    TimedOne(frame, ts);
  }

  /** What is left of a frame cut behind these headings. */
  function Left(inter: bool, max: nat, frame: seq<byte>): seq<seq<byte>>
    requires max > 0
  {
    if !inter then [frame] else if max < 2 || LastPiece(max, frame) < 2 then [] else [Bitten(max, frame)]
  }

  lemma PiecesSurvive(strip: Stripping, head: Heading, inter: bool, max: nat, frame: seq<byte>, a: Assembly, seqNo: nat, ts: nat)
    requires Takes(strip, head, inter) && max > 0 && frame != []
    ensures Run(strip, a, Rtps(Pieces(head, max, frame, true), seqNo, ts)).frames == Timed(Left(inter, max, frame), ts)
  {
    if inter {
      InterSurvives(strip, head, max, frame, a, seqNo, ts);
    } else {
      KeySurvives(strip, head, max, frame, a, seqNo, ts);
    }
  }

  lemma CodecPiecesSurvive(codec: Codec, id: PictureId, max: nat, frame: seq<byte>, pieces: seq<seq<byte>>,
                           a: Assembly, seqNo: nat, ts: nat)
    requires max > 0 && frame != [] && pieces == Pieces(HeadingOf(codec, id, Inter(codec, frame)), max, frame, true)
    ensures Run(StripOf(codec), a, Rtps(pieces, seqNo, ts)).frames == Timed(Left(Inter(codec, frame), max, frame), ts)
  {
    CodecTakes(codec, id, frame);
    PiecesSurvive(StripOf(codec), HeadingOf(codec, id, Inter(codec, frame)), Inter(codec, frame), max, frame, a, seqNo, ts);
  }

  lemma PayloadsAre(codec: Codec, id: PictureId, mtu: nat, frame: seq<byte>)
    ensures if mtu > HeaderSize(codec, id) && frame != [] then
              var max := mtu - HeaderSize(codec, id);
              && Payloads(codec, id, mtu, frame) == Pieces(HeadingOf(codec, id, Inter(codec, frame)), max, frame, true)
              && Survives(codec, id, mtu, frame) == Left(Inter(codec, frame), max, frame)
            else Payloads(codec, id, mtu, frame) == [] && Survives(codec, id, mtu, frame) == []
  {
  }

  /** Whatever the assembler held before, it hands out exactly the survivor of each frame. */
  lemma FrameSurvives(codec: Codec, id: PictureId, mtu: nat, frame: seq<byte>, a: Assembly, seqNo: nat, ts: nat)
    ensures Run(StripOf(codec), a, Rtps(Payloads(codec, id, mtu, frame), seqNo, ts)).frames
         == Timed(Survives(codec, id, mtu, frame), ts)
  {
    PayloadsAre(codec, id, mtu, frame);
    if mtu > HeaderSize(codec, id) && frame != [] {
      CodecPiecesSurvive(codec, id, mtu - HeaderSize(codec, id), frame, Payloads(codec, id, mtu, frame), a, seqNo, ts);
    } else {
      NothingToRun(StripOf(codec), a, seqNo, ts);
    }
  }
}
