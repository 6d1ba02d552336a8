/** IVF files: the recorder, the reader, how a file can end, and what was written read back. */
module Ivf {
  import opened Bytes
  import opened RtpPackets
  import opened Streams
  import opened VideoAssembly
  import opened VideoPayload
  import opened VideoStream

  const FILE_HEADER := 32
  const FRAME_HEADER := 12
  const CLOCK := 90000
  const SIGNATURE: seq<byte> := ['D' as byte, 'K' as byte, 'I' as byte, 'F' as byte]

  // ---- the file's octets -----------------------------------------------

  function Identification(fourcc: seq<byte>): (h: seq<byte>)
    requires |fourcc| == 4
    ensures |h| == 12 && h[..4] == SIGNATURE && h[4..6] == Le(0, 2) && h[8..12] == fourcc
  {
    SIGNATURE + (Le(0, 2) + Le(FILE_HEADER, 2)) + fourcc
  }

  function Timebase(): (h: seq<byte>)
    ensures |h| == 8 && h[..4] == Le(CLOCK, 4) && h[4..] == Le(1, 4)
  {
    Le(CLOCK, 4) + Le(1, 4)
  }

  function Geometry(): (h: seq<byte>)
    ensures |h| == 20 && h[4..12] == Timebase()
  {
    (Le(640, 2) + Le(480, 2)) + Timebase() + (Le(0, 4) + Le(0, 4))
  }

  /** Version 0, 640 by 480, a 90 kHz timebase, no frame count. */
  function FileHeader(fourcc: seq<byte>): (h: seq<byte>)
    requires |fourcc| == 4
    ensures |h| == FILE_HEADER
  {
    Identification(fourcc) + Geometry()
  }

  /** Timestamps count from the first frame's, modulo 2 to the 32. */
  function Pts(first: nat, ts: nat): (pts: nat)
    requires first < 0x1_0000_0000
    ensures pts < 0x1_0000_0000
  {
    Wrap32(ts + (0x1_0000_0000 - first))
  }

  function EntryHeader(first: nat, f: Frame): (h: seq<byte>)
    requires first < 0x1_0000_0000
    ensures |h| == FRAME_HEADER
  {
    Le(Wrap32(|f.data|), 4) + Le(Pts(first, f.ts), 8)
  }

  function Entries(first: nat, frames: seq<Frame>): seq<byte>
    requires first < 0x1_0000_0000
  {
    if frames == [] then []
    else (EntryHeader(first, frames[0]) + frames[0].data) + Entries(first, frames[1..])
  }

  lemma {:induction false} EntriesGrow(first: nat, frames: seq<Frame>, f: Frame)
    requires first < 0x1_0000_0000
    ensures Entries(first, frames + [f]) == Entries(first, frames) + (EntryHeader(first, f) + f.data)
  {
    if frames == [] {
      assert [f][1..] == [] && frames + [f] == [f];
    } else {
      assert (frames + [f])[1..] == frames[1..] + [f];
      EntriesGrow(first, frames[1..], f);
    }
  }

  /** The time all others are counted from. */
  function Origin(frames: seq<Frame>): (first: nat)
    ensures first < 0x1_0000_0000
  {
    if frames == [] || frames[0].ts >= 0x1_0000_0000 then 0 else frames[0].ts
  }

  /** A recording: nothing until the first packet, then the header and a frame entry per completed frame. */
  function Recording(header: seq<byte>, fed: seq<Rtp>, frames: seq<Frame>): seq<byte> {
    if fed == [] then [] else header + Entries(Origin(frames), frames)
  }

  /** Spelled out only where the header is. */
  ghost predicate IsHeaderOf(header: seq<byte>, fourcc: seq<byte>) {
    forall cc {:trigger FileHeader(cc)} :: |cc| == 4 && cc == fourcc ==> header == FileHeader(cc)
  }

  // ---- the recorder ----------------------------------------------------

  class IvfWriter {
    var out: seq<byte>
    const fourcc: seq<byte>
    const assembler: FrameAssembler
    var wroteHeader: bool
    var firstTimestamp: Option<nat>
    var frameCount: nat
    var closed: bool
    ghost const strip: Stripping
    ghost const header: seq<byte>
    ghost var fed: seq<Rtp>
    ghost var frames: seq<Frame>

    ghost predicate Valid()
      reads this, assembler
    {
      && |fourcc| == 4 && IsHeaderOf(header, fourcc) && strip == StripOf(assembler.codec)
      && Run(strip, Assembly([], false), fed) == Assembled(assembler.State(), frames)
      && wroteHeader == (fed != [])
      && firstTimestamp == (if frames == [] then None else Some(Origin(frames)))
      && frameCount == |frames|
      && out == Recording(header, fed, frames)
    }

    constructor (fourcc: seq<byte>, codec: Codec)
      requires |fourcc| == 4
      ensures Valid() && fresh(assembler) && !closed && fed == [] && out == []
      ensures header == FileHeader(fourcc) && strip == StripOf(codec)
    {
      var a := new FrameAssembler(codec);
      assembler := a;
      this.fourcc, out, wroteHeader, firstTimestamp, frameCount, closed := fourcc, [], false, None, 0, false;
      header, strip, fed, frames := FileHeader(fourcc), StripOf(codec), [], [];
    }

    /** The header goes out with the first packet even if its payload is refused. */
    method WritePacket(p: Rtp) returns (ok: bool)
      requires Valid() && p.ts < 0x1_0000_0000
      modifies this, assembler
      ensures Valid() && closed == old(closed)
      ensures fed == old(fed) + if closed then [] else [p]
      ensures ok == (!closed && Pushes(strip, Run(strip, Assembly([], false), old(fed)).state, p).ok)
    {
      if closed {
        return false;
      }
      WriteHeader();
      var frame;
      frame, ok := Feed(p);
      if !ok || frame.None? {
        return;
      }
      WriteFrame(frame.value, p.ts);
    }

    /** The assembler, ahead of the file by the frame it returns. */
    method Feed(p: Rtp) returns (frame: Option<seq<byte>>, ok: bool)
      requires strip == StripOf(assembler.codec)
      requires Run(strip, Assembly([], false), fed) == Assembled(assembler.State(), frames)
      modifies this`fed, assembler
      ensures fed == old(fed) + [p] && (frame.Some? ==> ok)
      ensures ok == Pushes(strip, Run(strip, Assembly([], false), old(fed)).state, p).ok
      ensures Run(strip, Assembly([], false), fed)
           == Assembled(assembler.State(), frames + if frame.Some? then [Frame(frame.value, p.ts)] else [])
    {
      frame, ok := assembler.Push(p);
      RunSnoc(strip, Assembly([], false), fed, p);
      fed := fed + [p];
    }

    method WriteHeader()
      requires |fourcc| == 4 && IsHeaderOf(header, fourcc) && wroteHeader == (fed != []) && out == Recording(header, fed, frames)
      requires fed == [] ==> frames == []
      modifies this`out, this`wroteHeader
      ensures wroteHeader && out == header + Entries(Origin(frames), frames)
    {
      if !wroteHeader {
        out := out + FileHeader(fourcc);
        wroteHeader := true;
      }
    }

    method WriteFrame(frame: seq<byte>, timestamp: nat)
      requires timestamp < 0x1_0000_0000 && frameCount == |frames|
      requires firstTimestamp == (if frames == [] then None else Some(Origin(frames)))
      requires out == header + Entries(Origin(frames), frames)
      modifies this`out, this`firstTimestamp, this`frameCount, this`frames
      ensures frames == old(frames) + [Frame(frame, timestamp)] && frameCount == |frames|
      ensures firstTimestamp == Some(Origin(frames))
      ensures out == header + Entries(Origin(frames), frames)
    {
      if firstTimestamp.None? {
        firstTimestamp := Some(timestamp);
      }
      var entry := EntryHeader(firstTimestamp.value, Frame(frame, timestamp));
      RecordingGrows(header, frames, Frame(frame, timestamp));
      out := out + entry;
      out := out + frame;
      frameCount := frameCount + 1;
      frames := frames + [Frame(frame, timestamp)];
    }
  }

  lemma RunSnoc(strip: Stripping, a: Assembly, fed: seq<Rtp>, p: Rtp)
    ensures var r := Pushes(strip, Run(strip, a, fed).state, p);
            Run(strip, a, fed + [p]) == Assembled(r.state, Run(strip, a, fed).frames + Finished(r, p.ts))
  {
    assert (fed + [p])[..|fed|] == fed;
  }

  lemma RecordingGrows(header: seq<byte>, frames: seq<Frame>, f: Frame)
    requires f.ts < 0x1_0000_0000
    ensures var first := if frames == [] then f.ts else Origin(frames);
            && Origin(frames + [f]) == first
            && header + Entries(first, frames + [f]) == header + Entries(Origin(frames), frames) + EntryHeader(first, f) + f.data
  {
    var first := if frames == [] then f.ts else Origin(frames);
    EntriesGrow(first, frames, f);
    OriginGrows(frames, f);
    Appended(header, Entries(first, frames), EntryHeader(first, f), f.data);
    assert frames == [] ==> Entries(first, frames) == Entries(Origin(frames), frames);
  }

  lemma OriginGrows(frames: seq<Frame>, f: Frame)
    requires f.ts < 0x1_0000_0000
    ensures Origin(frames + [f]) == if frames == [] then f.ts else Origin(frames)
  {
    assert (frames + [f])[0] == if frames == [] then f else frames[0];
  }

  lemma Appended(a: seq<byte>, b: seq<byte>, c: seq<byte>, d: seq<byte>)
    ensures a + (b + (c + d)) == a + b + c + d
  {
  }

  // ---- the reader ------------------------------------------------------

  datatype Opened = Opened(fourcc: seq<byte>, denominator: nat, numerator: nat, rest: seq<byte>)

  function Open(stream: seq<byte>): Option<Opened> {
    if |stream| < FILE_HEADER || stream[..4] != SIGNATURE || FromLe(stream[4..6]) != 0
       || FromLe(stream[16..20]) == 0 || FromLe(stream[20..24]) == 0
    then None
    else Some(Opened(stream[8..12], FromLe(stream[16..20]), FromLe(stream[20..24]), stream[FILE_HEADER..]))
  }

  datatype FrameRead =
    | Got(frame: Frame, rest: seq<byte>)
    | AtEof
    | IncompleteHeader
    | IncompleteData

  /** 64-bit arithmetic, as the reader does it. */
  function PtsToTimestamp(pts: nat, denominator: nat, numerator: nat): nat
    requires numerator > 0
  {
    Wrap64(pts * denominator) / numerator
  }

  /** A stream that ends right after a frame header counts as ended, not as cut short. */
  function ReadFrame(stream: seq<byte>, denominator: nat, numerator: nat): FrameRead
    requires numerator > 0
  {
    var h := ReadFull(stream, FRAME_HEADER);
    if h.AtEnd? then AtEof
    else if h.Short? then IncompleteHeader
    else
      var p := ReadFull(h.rest, FromLe(h.data[..4]));
      if p.AtEnd? then AtEof
      else if p.Short? then IncompleteData
      else Got(Frame(p.data, PtsToTimestamp(FromLe(h.data[4..]), denominator, numerator)), p.rest)
  }

  class IvfReader {
    var stream: seq<byte>
    var bytesRead: nat
    var denominator: nat
    var numerator: nat

    constructor (stream: seq<byte>)
      ensures this.stream == stream && bytesRead == 0 && denominator == 0 && numerator == 0
    {
      this.stream, bytesRead, denominator, numerator := stream, 0, 0, 0;
    }

    method ParseFileHeader() returns (header: Option<Opened>)
      modifies this
      ensures header == Open(old(stream))
      ensures header.Some? ==> stream == header.value.rest && bytesRead == old(bytesRead) + FILE_HEADER
                               && denominator == header.value.denominator && numerator == header.value.numerator
    {
      var b := ReadFull(stream, FILE_HEADER);
      if !b.Full? {
        return None;
      }
      SlicesOfPrefix(stream);
      if b.data[..4] != SIGNATURE {
        return None;
      }
      if FromLe(b.data[4..6]) != 0 {
        return None;
      }
      stream := b.rest;
      bytesRead := bytesRead + FILE_HEADER;
      if FromLe(b.data[16..20]) == 0 || FromLe(b.data[20..24]) == 0 {
        return None;
      }
      denominator, numerator := FromLe(b.data[16..20]), FromLe(b.data[20..24]);
      return Some(Opened(b.data[8..12], denominator, numerator, b.rest));
    }

    method ParseNextFrame() returns (r: FrameRead)
      requires numerator > 0
      modifies this`stream, this`bytesRead
      ensures r == ReadFrame(old(stream), denominator, numerator)
      ensures r.Got? ==> stream == r.rest && bytesRead == old(bytesRead) + |old(stream)| - |r.rest|
      ensures !r.Got? ==> bytesRead == old(bytesRead)
      ensures r.AtEof? <==> old(stream) == [] || BareHeader(old(stream))
      ensures r.IncompleteHeader? <==> 0 < |old(stream)| < FRAME_HEADER
      ensures r.IncompleteData? <==> FRAME_HEADER < |old(stream)| < FRAME_HEADER + FromLe(old(stream)[..4])
    {
      ReadFrameIff(stream, denominator, numerator);
      var h := ReadFull(stream, FRAME_HEADER);
      if h.AtEnd? {
        return AtEof;
      }
      if h.Short? {
        return IncompleteHeader;
      }
      stream := h.rest;
      var timestamp := PtsToTimestamp(FromLe(h.data[4..]), denominator, numerator);
      var p := ReadFull(stream, FromLe(h.data[..4]));
      if p.AtEnd? {
        return AtEof;
      }
      if p.Short? {
        return IncompleteData;
      }
      stream := p.rest;
      bytesRead := bytesRead + |h.data| + |p.data|;
      return Got(Frame(p.data, timestamp), p.rest);
    }
  }

  lemma SlicesOfPrefix(stream: seq<byte>)
    requires |stream| >= FILE_HEADER
    ensures var b := stream[..FILE_HEADER];
            && b[..4] == stream[..4] && b[4..6] == stream[4..6] && b[8..12] == stream[8..12]
            && b[16..20] == stream[16..20] && b[20..24] == stream[20..24]
  {
  }

  lemma ReadShrinks(stream: seq<byte>, denominator: nat, numerator: nat)
    requires numerator > 0
    ensures var r := ReadFrame(stream, denominator, numerator); r.Got? ==> |r.rest| < |stream|
  {
  }

  /** Every frame read before the stream ends or fails. */
  function FramesOf(stream: seq<byte>, denominator: nat, numerator: nat): seq<Frame>
    requires numerator > 0
    decreases |stream|
  {
    ReadShrinks(stream, denominator, numerator);
    var r := ReadFrame(stream, denominator, numerator);
    if r.Got? then [r.frame] + FramesOf(r.rest, denominator, numerator) else []
  }

  function EndOf(stream: seq<byte>, denominator: nat, numerator: nat): FrameRead
    requires numerator > 0
    decreases |stream|
  {
    ReadShrinks(stream, denominator, numerator);
    var r := ReadFrame(stream, denominator, numerator);
    if r.Got? then EndOf(r.rest, denominator, numerator) else r
  }

  lemma NextFrame(stream: seq<byte>, den: nat, num: nat)
    requires num > 0
    ensures var r := ReadFrame(stream, den, num);
            && (r.Got? ==> |r.rest| < |stream| && EndOf(stream, den, num) == EndOf(r.rest, den, num))
            && (!r.Got? ==> EndOf(stream, den, num) == r)
            && Data(FramesOf(stream, den, num)) == if r.Got? then [r.frame.data] + Data(FramesOf(r.rest, den, num)) else []
  {
    ReadShrinks(stream, den, num);
    var r := ReadFrame(stream, den, num);
    if r.Got? {
      assert ([r.frame] + FramesOf(r.rest, den, num))[1..] == FramesOf(r.rest, den, num);
    }
  }

  // ---- how a file can end ----------------------------------------------

  /** A frame header announcing octets of which not one is there. */
  predicate BareHeader(s: seq<byte>) {
    |s| == FRAME_HEADER && FromLe(s[..4]) > 0
  }

  /** One whole frame: a header and as many octets as it announces. */
  predicate IsEntry(e: seq<byte>) {
    |e| >= FRAME_HEADER && |e| == FRAME_HEADER + FromLe(e[..4])
  }

  predicate AreEntries(es: seq<seq<byte>>) {
    forall i :: 0 <= i < |es| ==> IsEntry(es[i])
  }

  /** Which outcome a read has shows in the stream's length and the size it starts with. */
  lemma ReadFrameIff(stream: seq<byte>, den: nat, num: nat)
    requires num > 0
    ensures var r := ReadFrame(stream, den, num);
            && (r.AtEof? <==> stream == [] || BareHeader(stream))
            && (r.IncompleteHeader? <==> 0 < |stream| < FRAME_HEADER)
            && (r.IncompleteData? <==> FRAME_HEADER < |stream| < FRAME_HEADER + FromLe(stream[..4]))
            && (r.Got? <==> |stream| >= FRAME_HEADER && |stream| >= FRAME_HEADER + FromLe(stream[..4]))
            && (r.Got? ==> IsEntry(stream[..|stream| - |r.rest|]) && r.rest == stream[|stream| - |r.rest|..])
  {
    if |stream| >= FRAME_HEADER {
      var h := stream[..FRAME_HEADER];
      assert h[..4] == stream[..4];
      var n := FRAME_HEADER + FromLe(stream[..4]);
      if |stream| >= n {
        assert stream[..n][..4] == stream[..4] && stream[FRAME_HEADER..][n - FRAME_HEADER..] == stream[n..];
      }
    }
  }

  lemma EntryIsRead(e: seq<byte>, rest: seq<byte>, den: nat, num: nat)
    requires num > 0 && IsEntry(e)
    ensures var r := ReadFrame(e + rest, den, num);
            && r.Got? && r.rest == rest && r.frame.data == e[FRAME_HEADER..]
            && r.frame.ts == PtsToTimestamp(FromLe(e[4..FRAME_HEADER]), den, num)
  {
    var h, data := e[..FRAME_HEADER], e[FRAME_HEADER..];
    assert e + rest == h + (data + rest);
    ReadExact(h, data + rest);
    ReadExact(data, rest);
    assert h[..4] == e[..4] && h[4..] == e[4..FRAME_HEADER];
  }

  function DataOf(es: seq<seq<byte>>): seq<seq<byte>>
    requires AreEntries(es)
  {
    if es == [] then [] else [es[0][FRAME_HEADER..]] + DataOf(es[1..])
  }

  /** Whole frames are read one by one, and then the stream ends as what is left of it does. */
  lemma {:induction false} EndsAsItsTail(es: seq<seq<byte>>, tail: seq<byte>, den: nat, num: nat)
    requires num > 0 && AreEntries(es) && !ReadFrame(tail, den, num).Got?
    ensures EndOf(Concat(es) + tail, den, num) == ReadFrame(tail, den, num)
    ensures Data(FramesOf(Concat(es) + tail, den, num)) == DataOf(es)
    decreases |es|
  {
    if es == [] {
      assert [] + tail == tail;
    } else {
      var rest := Concat(es[1..]) + tail;
      assert Concat(es) + tail == es[0] + rest;
      EntryIsRead(es[0], rest, den, num);
      EndsAsItsTail(es[1..], tail, den, num);
      NextFrame(es[0] + rest, den, num);
    }
  }

  lemma TakesOneEntry(stream: seq<byte>, den: nat, num: nat)
    requires num > 0 && ReadFrame(stream, den, num).Got?
    ensures var rest := ReadFrame(stream, den, num).rest;
            && |rest| < |stream| && IsEntry(stream[..|stream| - |rest|])
            && stream == stream[..|stream| - |rest|] + rest
  {
    ReadFrameIff(stream, den, num);
    ReadShrinks(stream, den, num);
  }

  /** Every stream is whole frames and a tail that is none. */
  lemma {:induction false} Split(stream: seq<byte>, den: nat, num: nat) returns (es: seq<seq<byte>>, tail: seq<byte>)
    requires num > 0
    ensures AreEntries(es) && stream == Concat(es) + tail && !ReadFrame(tail, den, num).Got?
    decreases |stream|
  {
    var r := ReadFrame(stream, den, num);
    if r.Got? {
      TakesOneEntry(stream, den, num);
      var e := stream[..|stream| - |r.rest|];
      var more;
      more, tail := Split(r.rest, den, num);
      es := [e] + more;
      ConcatFront(e, more, tail);
    } else {
      es, tail := [], stream;
    }
  }

  /** Whole frames and nothing else, but for one bare header. */
  ghost predicate WholeFrames(stream: seq<byte>) {
    exists es, tail :: AreEntries(es) && EndsWell(tail) && stream == Concat(es) + tail
  }

  predicate EndsWell(tail: seq<byte>) {
    tail == [] || BareHeader(tail)
  }

  /** Reading ends without an error exactly on whole frames, a bare header after them going unnoticed. */
  lemma EndsCleanlyIff(stream: seq<byte>, den: nat, num: nat)
    requires num > 0
    ensures EndOf(stream, den, num).AtEof? <==> WholeFrames(stream)
  {
    if EndOf(stream, den, num).AtEof? {
      CleanEndIsWhole(stream, den, num);
    }
    if WholeFrames(stream) {
      var es, tail :| AreEntries(es) && EndsWell(tail) && stream == Concat(es) + tail;
      ReadFrameIff(tail, den, num);
      EndsAsItsTail(es, tail, den, num);
    }
  }

  lemma CleanEndIsWhole(stream: seq<byte>, den: nat, num: nat)
    requires num > 0 && EndOf(stream, den, num).AtEof?
    ensures WholeFrames(stream)
  {
    var es, tail := Split(stream, den, num);
    EndsAsItsTail(es, tail, den, num);
    ReadFrameIff(tail, den, num);
    assert AreEntries(es) && EndsWell(tail) && stream == Concat(es) + tail;
  }

  // ---- write, then read ------------------------------------------------

  predicate SizeFits(data: seq<byte>) {
    |data| < 0x1_0000_0000
  }

  lemma Halves(a: seq<byte>, b: seq<byte>)
    ensures (a + b)[..|a|] == a && (a + b)[|a|..] == b
  {
  }

  lemma HeaderFields(first: nat, f: Frame)
    requires first < 0x1_0000_0000 && SizeFits(f.data)
    ensures FromLe(EntryHeader(first, f)[..4]) == |f.data| && FromLe(EntryHeader(first, f)[4..]) == Pts(first, f.ts)
  {
    Spans();
    Halves(Le(Wrap32(|f.data|), 4), Le(Pts(first, f.ts), 8));
    LeRoundTrip(Wrap32(|f.data|), 4);
    LeRoundTrip(Pts(first, f.ts), 8);
  }

  lemma EntryReadsBack(first: nat, f: Frame, rest: seq<byte>)
    requires first < 0x1_0000_0000 && SizeFits(f.data)
    ensures ReadFrame((EntryHeader(first, f) + f.data) + rest, CLOCK, 1)
         == Got(Frame(f.data, CLOCK * Pts(first, f.ts)), rest)
  {
    var h, e := EntryHeader(first, f), EntryHeader(first, f) + f.data;
    HeaderFields(first, f);
    EntrySlices(h, f.data);
    EntryIsRead(e, rest, CLOCK, 1);
    DateIs(Pts(first, f.ts));
  }

  lemma EntrySlices(h: seq<byte>, data: seq<byte>)
    requires |h| == FRAME_HEADER
    ensures var e := h + data; e[..4] == h[..4] && e[4..FRAME_HEADER] == h[4..] && e[FRAME_HEADER..] == data
  {
  }

  lemma DateIs(pts: nat)
    requires pts < 0x1_0000_0000
    ensures PtsToTimestamp(pts, CLOCK, 1) == CLOCK * pts
  {
  }

  /** The frames as the reader dates them: 90000 per tick since the first. */
  function Dated(first: nat, frames: seq<Frame>): (r: seq<Frame>)
    requires first < 0x1_0000_0000
    ensures |r| == |frames|
    ensures forall k :: 0 <= k < |frames| ==> r[k] == Frame(frames[k].data, CLOCK * Pts(first, frames[k].ts))
  {
    if frames == [] then []
    else [Frame(frames[0].data, CLOCK * Pts(first, frames[0].ts))] + Dated(first, frames[1..])
  }

  lemma {:induction false} EntriesThenTail(first: nat, frames: seq<Frame>, tail: seq<byte>)
    requires first < 0x1_0000_0000 && (forall i :: 0 <= i < |frames| ==> SizeFits(frames[i].data))
    requires !ReadFrame(tail, CLOCK, 1).Got?
    ensures FramesOf(Entries(first, frames) + tail, CLOCK, 1) == Dated(first, frames)
    ensures EndOf(Entries(first, frames) + tail, CLOCK, 1) == ReadFrame(tail, CLOCK, 1)
    decreases |frames|
  {
    if frames == [] {
      assert [] + tail == tail;
    } else {
      var e, rest := EntryHeader(first, frames[0]) + frames[0].data, Entries(first, frames[1..]) + tail;
      assert Entries(first, frames) + tail == e + rest;
      EntryReadsBack(first, frames[0], rest);
      EntriesThenTail(first, frames[1..], tail);
    }
  }

  lemma EntriesReadBack(first: nat, frames: seq<Frame>)
    requires first < 0x1_0000_0000 && (forall i :: 0 <= i < |frames| ==> SizeFits(frames[i].data))
    ensures FramesOf(Entries(first, frames), CLOCK, 1) == Dated(first, frames)
    ensures EndOf(Entries(first, frames), CLOCK, 1) == AtEof
  {
    EntriesThenTail(first, frames, []);
    assert Entries(first, frames) + [] == Entries(first, frames);
  }

  lemma HeaderSlices(fourcc: seq<byte>)
    requires |fourcc| == 4
    ensures var h := FileHeader(fourcc);
            && h[..4] == SIGNATURE && h[4..6] == Le(0, 2) && h[8..12] == fourcc
            && h[16..20] == Le(CLOCK, 4) && h[20..24] == Le(1, 4)
  {
    var a, b := Identification(fourcc), Geometry();
    JoinedSlices(a, b);
  }

  lemma JoinedSlices(a: seq<byte>, b: seq<byte>)
    requires |a| == 12 && |b| == 20
    ensures var h := a + b;
            && h[..4] == a[..4] && h[4..6] == a[4..6] && h[8..12] == a[8..12]
            && h[16..20] == b[4..12][..4] && h[20..24] == b[4..12][4..]
  {
  }

  lemma FieldsDecode()
    ensures FromLe(Le(0, 2)) == 0 && FromLe(Le(CLOCK, 4)) == CLOCK && FromLe(Le(1, 4)) == 1
  {
    Spans();
    LeRoundTrip(0, 2);
    LeRoundTrip(CLOCK, 4);
    LeRoundTrip(1, 4);
  }

  lemma OpensByFields(h: seq<byte>, rest: seq<byte>, fourcc: seq<byte>)
    requires |h| == FILE_HEADER && h[..4] == SIGNATURE && h[8..12] == fourcc
    requires FromLe(h[4..6]) == 0 && FromLe(h[16..20]) == CLOCK && FromLe(h[20..24]) == 1
    ensures Open(h + rest) == Some(Opened(fourcc, CLOCK, 1, rest))
  {
    var s := h + rest;
    assert s[..FILE_HEADER] == h && s[FILE_HEADER..] == rest;
    SlicesOfPrefix(s);
  }

  lemma FileOpens(fourcc: seq<byte>, rest: seq<byte>)
    requires |fourcc| == 4
    ensures Open(FileHeader(fourcc) + rest) == Some(Opened(fourcc, CLOCK, 1, rest))
  {
    HeaderSlices(fourcc);
    FieldsDecode();
    OpensByFields(FileHeader(fourcc), rest, fourcc);
  }

  /** The frames of a file that opens and ends cleanly. */
  function ReadsAs(file: seq<byte>): Option<seq<Frame>> {
    match Open(file)
    case None => None
    case Some(o) =>
      if EndOf(o.rest, o.denominator, o.numerator).AtEof? then Some(FramesOf(o.rest, o.denominator, o.numerator))
      else None
  }

  /** Any recording with a packet in it reads back as the frames completed, dated from the first. */
  lemma {:induction false} RecordingReadsBack(fourcc: seq<byte>, fed: seq<Rtp>, frames: seq<Frame>)
    requires |fourcc| == 4 && (forall i :: 0 <= i < |frames| ==> SizeFits(frames[i].data))
    ensures ReadsAs(Recording(FileHeader(fourcc), fed, frames)) == if fed == [] then None else Some(Dated(Origin(frames), frames))
  {
    if fed != [] {
      ReadsAsItsBody(fourcc, Entries(Origin(frames), frames));
      EntriesReadBack(Origin(frames), frames);
    }
  }

  lemma ReadsAsItsBody(fourcc: seq<byte>, body: seq<byte>)
    requires |fourcc| == 4
    ensures ReadsAs(FileHeader(fourcc) + body)
         == if EndOf(body, CLOCK, 1).AtEof? then Some(FramesOf(body, CLOCK, 1)) else None
  {
    FileOpens(fourcc, body);
  }

  lemma CutIsBare(first: nat, f: Frame)
    requires first < 0x1_0000_0000 && SizeFits(f.data) && f.data != []
    ensures ReadFrame(EntryHeader(first, f), CLOCK, 1) == AtEof
  {
    HeaderFields(first, f);
    ReadFrameIff(EntryHeader(first, f), CLOCK, 1);
  }

  /** A recording cut right after the header of a frame reads as one that ended before that frame. */
  lemma CutAfterHeaderReadsAs(fourcc: seq<byte>, frames: seq<Frame>, f: Frame)
    requires |fourcc| == 4 && frames != [] && (forall i :: 0 <= i < |frames| ==> SizeFits(frames[i].data))
    requires f.data != [] && SizeFits(f.data)
    ensures var first := Origin(frames);
            ReadsAs(FileHeader(fourcc) + (Entries(first, frames) + EntryHeader(first, f))) == Some(Dated(first, frames))
  {
    var first := Origin(frames);
    CutIsBare(first, f);
    EntriesThenTail(first, frames, EntryHeader(first, f));
    ReadsAsItsBody(fourcc, Entries(first, frames) + EntryHeader(first, f));
  }
}
