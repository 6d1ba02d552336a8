/** Frames cut into RTP payloads, each behind a VP8 or VP9 descriptor. */
module VideoPayload {
  import opened Bytes

  datatype Codec = Vp8(pictureIds: bool) | Vp9

  /** Picture IDs never use the sixteenth bit. */
  type PictureId = n: nat | n < 0x8000

  predicate HasBit(b: byte, weight: nat)
    requires weight > 0
  {
    b as int / weight % 2 == 1
  }

  function Flag(on: bool, weight: byte): byte {
    if on then weight else 0
  }

  // ---- descriptors -----------------------------------------------------

  function HeaderSize(codec: Codec, id: PictureId): nat {
    match codec
    case Vp9 => 3
    case Vp8(pictureIds) => if !pictureIds || id == 0 then 1 else if id < 128 then 3 else 4
  }

  /** inter marks a VP9 frame that is not a key frame; the flags are disjoint bits. */
  function Header(codec: Codec, id: PictureId, inter: bool, first: bool, last: bool): (h: seq<byte>)
    ensures |h| == HeaderSize(codec, id)
  {
    match codec
    case Vp9 => [128 + Flag(inter, 64) + Flag(first, 8) + Flag(last, 4), 128 + id / 256, id % 256]
    case Vp8(_) =>
      var s: byte := Flag(first, 16);
      match HeaderSize(codec, id)
      case 1 => [s]
      case 3 => [s + 128, 128, id]
      case _ => [s + 128, 128, 128 + id / 256, id % 256]
  }

  /** Only VP9 looks into the frame: a key frame's first octets say so. */
  predicate Vp9IsKeyframe(frame: seq<byte>) {
    && frame != []
    && frame[0] as int / 64 == 2
    && !HasBit(frame[0], 8)
    && (if frame[0] as int / 16 % 4 <= 2 then !HasBit(frame[0], 4) else |frame| >= 2 && !HasBit(frame[1], 128))
  }

  predicate Inter(codec: Codec, frame: seq<byte>) {
    codec.Vp9? && !Vp9IsKeyframe(frame)
  }

  // ---- cutting ---------------------------------------------------------

  /** How one piece of a frame is headed, from whether it is the first and the last. */
  type Heading = (bool, bool) -> seq<byte>

  function HeadingOf(codec: Codec, id: PictureId, inter: bool): Heading {
    (first, last) => Header(codec, id, inter, first, last)
  }

  /** Stated on demand, wherever a descriptor is spelled out. */
  ghost predicate Heads(head: Heading, codec: Codec, id: PictureId, inter: bool) {
    forall first, last {:trigger Header(codec, id, inter, first, last)} ::
      head(first, last) == Header(codec, id, inter, first, last)
  }

  function Pieces(head: Heading, max: nat, frame: seq<byte>, first: bool): (r: seq<seq<byte>>)
    requires max > 0
    ensures r != []
    decreases |frame|
  {
    if |frame| <= max then [head(first, true) + frame]
    else [head(first, false) + frame[..max]] + Pieces(head, max, frame[max..], false)
  }

  function Payloads(codec: Codec, id: PictureId, mtu: nat, frame: seq<byte>): seq<seq<byte>> {
    if mtu <= HeaderSize(codec, id) || frame == [] then []
    else Pieces(HeadingOf(codec, id, Inter(codec, frame)), mtu - HeaderSize(codec, id), frame, true)
  }

  /** VP8 wraps to 0, VP9 to 1; a frame that yields no payload leaves the ID alone. */
  function NextId(codec: Codec, id: PictureId, mtu: nat, frame: seq<byte>): PictureId {
    if Payloads(codec, id, mtu, frame) == [] then id
    else if id + 1 < 0x8000 then id + 1
    else if codec.Vp9? then 1 else 0
  }

  lemma {:induction false} PiecesFit(head: Heading, size: nat, max: nat, frame: seq<byte>, first: bool)
    requires max > 0 && (forall f, l :: |head(f, l)| == size)
    ensures forall i :: 0 <= i < |Pieces(head, max, frame, first)| ==>
              size <= |Pieces(head, max, frame, first)[i]| <= size + max
    decreases |frame|
  {
    if |frame| > max {
      PiecesFit(head, size, max, frame[max..], false);
    }
  }

  /** No payload is longer than the MTU. */
  lemma PayloadsFit(codec: Codec, id: PictureId, mtu: nat, frame: seq<byte>)
    ensures forall i :: 0 <= i < |Payloads(codec, id, mtu, frame)| ==> |Payloads(codec, id, mtu, frame)[i]| <= mtu
  {
    if mtu > HeaderSize(codec, id) && frame != [] {
      PiecesFit(HeadingOf(codec, id, Inter(codec, frame)), HeaderSize(codec, id), mtu - HeaderSize(codec, id), frame, true);
    }
  }

  /** The part of a frame not yet cut, as pieces. */
  function Remaining(head: Heading, max: nat, frame: seq<byte>, idx: nat): seq<seq<byte>>
    requires max > 0 && idx <= |frame|
  {
    if idx == |frame| then [] else Pieces(head, max, frame[idx..], idx == 0)
  }

  lemma RemainingStep(head: Heading, max: nat, frame: seq<byte>, idx: nat, done: seq<seq<byte>>, size: nat)
    requires max > 0 && idx < |frame| && size == if max < |frame| - idx then max else |frame| - idx
    ensures done + Remaining(head, max, frame, idx)
         == done + [head(idx == 0, idx + size == |frame|) + frame[idx..idx + size]]
            + Remaining(head, max, frame, idx + size)
  {
    if |frame| - idx > max {
      assert frame[idx..][max..] == frame[idx + max..] && frame[idx..][..max] == frame[idx..idx + max];
    } else {
      assert frame[idx..] == frame[idx..|frame|];
    }
  }

  lemma RemainingAll(head: Heading, max: nat, frame: seq<byte>)
    requires max > 0 && frame != []
    ensures Remaining(head, max, frame, 0) == Pieces(head, max, frame, true)
    ensures Remaining(head, max, frame, |frame|) == []
  {
    assert frame[0..] == frame;
  }

  // ---- the payloaders --------------------------------------------------

  class Vp8Payloader {
    const enablePictureID: bool
    var pictureID: PictureId

    constructor (enablePictureID: bool)
      ensures this.enablePictureID == enablePictureID && pictureID == 0
    {
      this.enablePictureID, pictureID := enablePictureID, 0;
    }

    method Payload(mtu: nat, payload: seq<byte>) returns (payloads: seq<seq<byte>>)
      modifies this
      ensures payloads == Payloads(Vp8(enablePictureID), old(pictureID), mtu, payload)
      ensures pictureID == NextId(Vp8(enablePictureID), old(pictureID), mtu, payload)
    {
      var usingHeaderSize := 1;
      if enablePictureID {
        if pictureID == 0 {
        } else if pictureID < 128 {
          usingHeaderSize := 3;
        } else {
          usingHeaderSize := 4;
        }
      }
      if mtu - usingHeaderSize <= 0 || |payload| <= 0 {
        return [];
      }
      ghost var head := HeadingOf(Vp8(enablePictureID), pictureID, false);
      payloads := Cut(usingHeaderSize, mtu - usingHeaderSize, payload, head);
      pictureID := if pictureID == 0x7FFF then 0 else pictureID + 1;
    }

    method Cut(usingHeaderSize: nat, maxFragmentSize: nat, payload: seq<byte>, ghost head: Heading)
      returns (payloads: seq<seq<byte>>)
      requires usingHeaderSize == HeaderSize(Vp8(enablePictureID), pictureID) && maxFragmentSize > 0 && payload != []
      requires Heads(head, Vp8(enablePictureID), pictureID, false)
      ensures payloads == Pieces(head, maxFragmentSize, payload, true)
    {
      var remaining, index := |payload|, 0;
      var first := true;
      payloads := [];
      RemainingAll(head, maxFragmentSize, payload);
      while remaining > 0
        invariant index + remaining == |payload| && remaining >= 0 && (first <==> index == 0)
        invariant payloads + Remaining(head, maxFragmentSize, payload, index)
               == Remaining(head, maxFragmentSize, payload, 0)
      {
        var size := if maxFragmentSize < remaining then maxFragmentSize else remaining;
        var out := Fragment(usingHeaderSize, first, payload[index..index + size], size == remaining, head);
        RemainingStep(head, maxFragmentSize, payload, index, payloads, size);
        first := false;
        payloads := payloads + [out];
        remaining := remaining - size;
        index := index + size;
      }
    }

    /** Descriptor bits are or-ed into zeroed octets before the data is copied behind them. */
    method Fragment(usingHeaderSize: nat, first: bool, data: seq<byte>, ghost last: bool, ghost head: Heading)
      returns (fragment: seq<byte>)
      requires usingHeaderSize == HeaderSize(Vp8(enablePictureID), pictureID)
      requires Heads(head, Vp8(enablePictureID), pictureID, false)
      ensures fragment == head(first, last) + data
    {
      var out := new byte[usingHeaderSize + |data|](_ => 0);
      if first {
        out[0] := 16;
      }
      if enablePictureID {
        if usingHeaderSize == 3 {
          out[0] := out[0] + 128;
          out[1] := 128;
          out[2] := pictureID % 128;
        } else if usingHeaderSize == 4 {
          out[0] := out[0] + 128;
          out[1] := 128;
          out[2] := 128 + pictureID / 256 % 128;
          out[3] := pictureID % 256;
        }
      }
      assert out[..usingHeaderSize] == Header(Vp8(enablePictureID), pictureID, false, first, last);
      fragment := out[..usingHeaderSize] + data;
    }
  }

  class Vp9Payloader {
    var pictureID: PictureId

    constructor ()
      ensures pictureID == 0
    {
      pictureID := 0;
    }

    method Payload(mtu: nat, payload: seq<byte>) returns (out: seq<seq<byte>>)
      modifies this
      ensures out == Payloads(Vp9, old(pictureID), mtu, payload)
      ensures pictureID == NextId(Vp9, old(pictureID), mtu, payload)
    {
      if mtu - 3 <= 0 || |payload| == 0 {
        return [];
      }
      out := Cut(mtu - 3, payload, HeadingOf(Vp9, pictureID, Inter(Vp9, payload)));
      pictureID := if pictureID + 1 > 0x7FFF then 1 else pictureID + 1;
    }

    method Cut(maxFragment: nat, payload: seq<byte>, ghost head: Heading) returns (out: seq<seq<byte>>)
      requires maxFragment > 0 && payload != []
      requires Heads(head, Vp9, pictureID, Inter(Vp9, payload))
      ensures out == Pieces(head, maxFragment, payload, true)
    {
      var isKeyframe := Vp9IsKeyframe(payload);
      var idx := 0;
      out := [];
      RemainingAll(head, maxFragment, payload);
      while idx < |payload|
        invariant idx <= |payload|
        invariant out + Remaining(head, maxFragment, payload, idx) == Remaining(head, maxFragment, payload, 0)
      {
        var size := if maxFragment < |payload| - idx then maxFragment else |payload| - idx;
        var buf := Fragment(!isKeyframe, idx == 0, idx + size == |payload|, payload[idx..idx + size], head);
        RemainingStep(head, maxFragment, payload, idx, out, size);
        out := out + [buf];
        idx := idx + size;
      }
    }

    method Fragment(inter: bool, first: bool, last: bool, data: seq<byte>, ghost head: Heading)
      returns (fragment: seq<byte>)
      requires Heads(head, Vp9, pictureID, inter)
      ensures fragment == head(first, last) + data
    {
      var buf := new byte[3 + |data|](_ => 0);
      buf[0] := 128;
      if inter {
        buf[0] := buf[0] + 64;
      }
      if first {
        buf[0] := buf[0] + 8;
      }
      if last {
        buf[0] := buf[0] + 4;
      }
      buf[1] := 128 + pictureID / 256 % 128;
      buf[2] := pictureID % 256;
      assert buf[..3] == Header(Vp9, pictureID, inter, first, last);
      fragment := buf[..3] + data;
    }
  }
}
