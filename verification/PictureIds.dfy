/** What a receiver reads out of the descriptors: picture IDs, frame bounds, key frames. */
module PictureIds {
  import opened Bytes
  import opened VideoPayload

  // ---- reading a descriptor --------------------------------------------

  /** Fifteen bits behind a set first bit, else seven. */
  function IdAt(p: seq<byte>, i: nat): Option<nat> {
    if |p| <= i then None
    else if p[i] < 128 then Some(p[i])
    else if |p| <= i + 1 then None
    else Some((p[i] as nat - 128) * 256 + p[i + 1] as nat)
  }

  /** The picture ID in section 4.2 of RFC 7741 for VP8 and of RFC 9628 for VP9. */
  function ReadId(codec: Codec, p: seq<byte>): Option<nat> {
    match codec
    case Vp8(_) => if |p| < 2 || !HasBit(p[0], 128) || !HasBit(p[1], 128) then None else IdAt(p, 2)
    case Vp9 => if |p| < 1 || !HasBit(p[0], 128) then None else IdAt(p, 1)
  }

  /** The start bit: S of the first partition for VP8, B for VP9. */
  predicate Begins(codec: Codec, p: seq<byte>) {
    p != [] && HasBit(p[0], if codec.Vp9? then 8 else 16)
  }

  /** VP9 marks the end of a frame, too. */
  predicate Ends(p: seq<byte>) {
    p != [] && HasBit(p[0], 4)
  }

  predicate ToldId(codec: Codec, id: PictureId, p: seq<byte>) {
    ReadId(codec, p) == if codec == Vp8(false) || (codec == Vp8(true) && id == 0) then None else Some(id)
  }

  lemma HeadTells(codec: Codec, id: PictureId, inter: bool, first: bool, last: bool, data: seq<byte>)
    ensures var p := Header(codec, id, inter, first, last) + data;
            ToldId(codec, id, p) && (Begins(codec, p) <==> first) && (codec.Vp9? ==> (Ends(p) <==> last))
  {
    var h := Header(codec, id, inter, first, last);
    var p := h + data;
    assert forall i :: 0 <= i < |h| ==> p[i] == h[i];
  }

  lemma {:induction false} PiecesTell(codec: Codec, id: PictureId, inter: bool, max: nat, frame: seq<byte>, first: bool, i: nat)
    requires max > 0 && i < |Pieces(HeadingOf(codec, id, inter), max, frame, first)|
    ensures var ps := Pieces(HeadingOf(codec, id, inter), max, frame, first);
            && ToldId(codec, id, ps[i]) && (Begins(codec, ps[i]) <==> first && i == 0)
            && (codec.Vp9? ==> (Ends(ps[i]) <==> i == |ps| - 1))
    decreases |frame|
  {
    var head := HeadingOf(codec, id, inter);
    if |frame| <= max {
      HeadTells(codec, id, inter, first, true, frame);
    } else {
      HeadTells(codec, id, inter, first, false, frame[..max]);
      if i > 0 {
        PiecesTell(codec, id, inter, max, frame[max..], false, i - 1);
      }
    }
  }

  /** Every payload of a frame tells the frame's ID, only the first begins it, and with VP9 only the last ends it. */
  lemma PayloadsTell(codec: Codec, id: PictureId, mtu: nat, frame: seq<byte>, i: nat)
    requires i < |Payloads(codec, id, mtu, frame)|
    ensures var ps := Payloads(codec, id, mtu, frame);
            && ToldId(codec, id, ps[i]) && (Begins(codec, ps[i]) <==> i == 0)
            && (codec.Vp9? ==> (Ends(ps[i]) <==> i == |ps| - 1))
  {
    PiecesTell(codec, id, Inter(codec, frame), mtu - HeaderSize(codec, id), frame, true, i);
  }

  // ---- successive frames -----------------------------------------------

  /** The ID after k frames that each yielded a payload. */
  function IdAfter(codec: Codec, id: PictureId, mtu: nat, frames: seq<seq<byte>>): PictureId {
    if frames == [] then id else NextId(codec, IdAfter(codec, id, mtu, frames[..|frames| - 1]), mtu, frames[|frames| - 1])
  }

  /** Each frame yields a payload: none is empty, and the MTU leaves room behind the widest descriptor. */
  predicate AllSent(mtu: nat, frames: seq<seq<byte>>) {
    mtu > 4 && forall i :: 0 <= i < |frames| ==> frames[i] != []
  }

  function CycleOf(codec: Codec): nat {
    if codec.Vp9? then 0x7fff else 0x8000
  }

  /** The ID m steps after zero: VP8 counts modulo 2^15, VP9 leaves out zero once it has left it. */
  function IdNumber(codec: Codec, m: nat): PictureId {
    if m < 0x8000 then m else if codec.Vp9? then 1 + (m - 1) % 0x7fff else m % 0x8000
  }

  lemma ModStep(x: nat, w: nat)
    requires w > 1
    ensures (x + 1) % w == if x % w + 1 == w then 0 else x % w + 1
  {
    WrapOnward(w, x, 1);
    if x % w + 1 == w {
      ModIs(w, 1, 0);
    } else {
      ModIs(w, 0, x % w + 1);
    }
  }

  lemma NextNumber(codec: Codec, m: nat, mtu: nat, frame: seq<byte>)
    requires mtu > 4 && frame != []
    ensures NextId(codec, IdNumber(codec, m), mtu, frame) == IdNumber(codec, m + 1)
  {
    assert Payloads(codec, IdNumber(codec, m), mtu, frame) != [];
    ModStep(m, 0x8000);
    if m > 0 {
      ModStep(m - 1, 0x7fff);
    }
  }

  lemma {:induction false} IdAfterIs(codec: Codec, id: PictureId, mtu: nat, frames: seq<seq<byte>>)
    requires AllSent(mtu, frames)
    ensures IdAfter(codec, id, mtu, frames) == IdNumber(codec, id + |frames|)
    decreases |frames|
  {
    if frames != [] {
      IdAfterIs(codec, id, mtu, frames[..|frames| - 1]);
      NextNumber(codec, id + |frames| - 1, mtu, frames[|frames| - 1]);
    }
  }

  /** So frames less than a cycle apart never share an ID. */
  lemma IdsDiffer(codec: Codec, id: PictureId, mtu: nat, frames: seq<seq<byte>>)
    requires AllSent(mtu, frames) && 0 < |frames| < CycleOf(codec)
    ensures IdAfter(codec, id, mtu, frames) != id
  {
    IdAfterIs(codec, id, mtu, frames);
  }

  /** And a frame that yields no payload does not use one up. */
  lemma UnsentKeepsId(codec: Codec, id: PictureId, mtu: nat)
    ensures NextId(codec, id, mtu, []) == id
  {
  }

  // ---- key frames ------------------------------------------------------

  /** Bit i of a frame, most significant first. */
  predicate BitAt(frame: seq<byte>, i: nat)
    requires i < 8 * |frame|
  {
    frame[i / 8] as nat / [128, 64, 32, 16, 8, 4, 2, 1][i % 8] % 2 == 1
  }

  /**
    The uncompressed header of a VP9 frame (section 6.2 of the bitstream specification): marker, two profile
    bits, a reserved bit in profile 3 only, then show_existing_frame and frame_type, both zero in a key frame.
   */
  predicate IsKeyframe(frame: seq<byte>) {
    && frame != [] && BitAt(frame, 0) && !BitAt(frame, 1)
    && (if BitAt(frame, 2) && BitAt(frame, 3) then !BitAt(frame, 4) && !BitAt(frame, 5) && !BitAt(frame, 6)
        else !BitAt(frame, 4) && !BitAt(frame, 5))
  }

  predicate IsProfile3(frame: seq<byte>) {
    frame != [] && BitAt(frame, 0) && !BitAt(frame, 1) && BitAt(frame, 2) && BitAt(frame, 3)
  }

  /** The payloader knows key frames of profiles 0 to 2; of profile 3 it looks at the first bit of the second octet instead. */
  lemma KeyframeIff(frame: seq<byte>)
    ensures !IsProfile3(frame) ==> (Vp9IsKeyframe(frame) <==> IsKeyframe(frame))
    ensures IsProfile3(frame) ==> (Vp9IsKeyframe(frame) <==> !BitAt(frame, 4) && |frame| >= 2 && !BitAt(frame, 8))
    ensures (Vp9IsKeyframe(frame) <==> IsKeyframe(frame)) <==>
            !IsProfile3(frame) || BitAt(frame, 4)
            || ((|frame| >= 2 && !BitAt(frame, 8)) <==> !BitAt(frame, 5) && !BitAt(frame, 6))
  {
  }

  /** A key frame of profile 3 taken for another, and another taken for a key frame. */
  lemma Profile3IsMisread()
    ensures IsKeyframe([0xb0, 0x80]) && !Vp9IsKeyframe([0xb0, 0x80])
    ensures !IsKeyframe([0xb2, 0x00]) && Vp9IsKeyframe([0xb2, 0x00])
  {
    KeyframeIff([0xb0, 0x80]);
    KeyframeIff([0xb2, 0x00]);
  }
}
