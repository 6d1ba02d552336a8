/** The formats octet by octet, as their standards draw them. */
module WireFormats {
  import opened Bytes
  import D = DtlsHeaders
  import G = OggPage
  import I = Ivf
  import C = OggChecksum
  import V = VideoAssembly

  // ---- DTLS ------------------------------------------------------------

  /** n in w octets from i on, the highest first. */
  predicate BigAt(s: seq<byte>, i: nat, w: nat, n: nat) {
    i + w <= |s| && IsBig(s[i..i + w], n)
  }

  /** n in w octets from i on, the lowest first. */
  predicate LittleAt(s: seq<byte>, i: nat, w: nat, n: nat) {
    i + w <= |s| && IsLittle(s[i..i + w], n)
  }

  lemma BigIs(s: seq<byte>, i: nat, w: nat, n: nat)
    requires i + w <= |s| && s[i..i + w] == Be(n, w)
    ensures BigAt(s, i, w, n)
  {
    BeIsBig(n, w);
  }

  lemma LittleIs(s: seq<byte>, i: nat, w: nat, n: nat)
    requires i + w <= |s| && s[i..i + w] == Le(n, w)
    ensures LittleAt(s, i, w, n)
  {
    LeIsLittle(n, w);
  }

  lemma HandshakeParts(t: byte, a: seq<byte>, b: seq<byte>, c: seq<byte>, d: seq<byte>)
    requires |a| == 3 && |b| == 2 && |c| == 3 && |d| == 3
    ensures var s := [t] + a + b + c + d; s[1..4] == a && s[4..6] == b && s[6..9] == c && s[9..12] == d
  {
  }

  lemma RecordParts(t: seq<byte>, a: seq<byte>, b: seq<byte>, c: seq<byte>)
    requires |t| == 3 && |a| == 2 && |b| == 6 && |c| == 2
    ensures var s := t + a + b + c; s[3..5] == a && s[5..11] == b && s[11..13] == c
  {
  }

  /** Section 4.2.2 of RFC 6347: type, length, message number, fragment offset, fragment length. */
  lemma HandshakeHeaderLayout(h: D.HandshakeHeader)
    ensures var s := D.Marshal(h);
            && |s| == 12 && s[0] == h.typ && BigAt(s, 1, 3, h.length) && BigAt(s, 4, 2, h.messageSeq)
            && BigAt(s, 6, 3, h.offset) && BigAt(s, 9, 3, h.fragLength)
  {
    var s := D.Marshal(h);
    HandshakeParts(h.typ, Be(h.length, 3), Be(h.messageSeq, 2), Be(h.offset, 3), Be(h.fragLength, 3));
    BigIs(s, 1, 3, h.length);
    BigIs(s, 4, 2, h.messageSeq);
    BigIs(s, 6, 3, h.offset);
    BigIs(s, 9, 3, h.fragLength);
  }

  /** Section 4.1 of RFC 6347: content type, version, epoch, sequence number, length. */
  lemma RecordHeaderLayout(h: D.RecordHeader)
    ensures var s := D.MarshalRecord(h);
            && |s| == 13 && s[0] == h.contentType && s[1] == h.major && s[2] == h.minor
            && BigAt(s, 3, 2, h.epoch) && BigAt(s, 5, 6, h.sequence) && BigAt(s, 11, 2, h.length)
  {
    var s := D.MarshalRecord(h);
    RecordParts([h.contentType, h.major, h.minor], Be(h.epoch, 2), Be(h.sequence, 6), Be(h.length, 2));
    BigIs(s, 3, 2, h.epoch);
    BigIs(s, 5, 6, h.sequence);
    BigIs(s, 11, 2, h.length);
  }

  // ---- Ogg -------------------------------------------------------------

  /** The page as its checksum is taken: with nought for the checksum. */
  function Unsummed(s: seq<byte>): seq<byte>
    requires |s| >= 26
  {
    s[..22] + [0, 0, 0, 0] + s[26..]
  }

  lemma PrefixParts(t: seq<byte>, a: seq<byte>, b: seq<byte>, c: seq<byte>, rest: seq<byte>)
    requires |t| == 6 && |a| == 8 && |b| == 4 && |c| == 4
    ensures var s := (t + a + b + c) + rest; s[..6] == t && s[6..14] == a && s[14..18] == b && s[18..22] == c
  {
  }

  lemma PrefixLayout(m: G.Meta, rest: seq<byte>)
    ensures var s := G.Prefix(m) + rest;
            && s[..6] == [0x4f, 0x67, 0x67, 0x53, 0, m.headerType]
            && LittleAt(s, 6, 8, m.granule) && LittleAt(s, 14, 4, m.serial) && LittleAt(s, 18, 4, m.index)
  {
    var s := G.Prefix(m) + rest;
    PrefixParts([0x4f, 0x67, 0x67, 0x53, 0, m.headerType], Le(m.granule, 8), Le(m.serial, 4), Le(m.index, 4), rest);
    LittleIs(s, 6, 8, m.granule);
    LittleIs(s, 14, 4, m.serial);
    LittleIs(s, 18, 4, m.index);
  }

  /** Section 6 of RFC 3533: capture pattern, version, flags, granule, serial, number, checksum, segments. */
  lemma PageLayout(m: G.Meta, payload: seq<byte>)
    requires |payload| <= 255 * 255
    ensures var s, n := G.PageBytes(G.OggSum, m, payload), G.Segments(|payload|);
            && |s| == 27 + n + |payload| && s[..6] == [0x4f, 0x67, 0x67, 0x53, 0, m.headerType]
            && LittleAt(s, 6, 8, m.granule) && LittleAt(s, 14, 4, m.serial) && LittleAt(s, 18, 4, m.index)
            && s[22..26] == C.Stored(G.OggSum(Unsummed(s)))
            && s[26] == n && s[27..27 + n] == G.Lacing(|payload|) && s[27 + n..] == payload
  {
    var n := |payload|;
    var crc := C.Stored(G.PageChecksum(G.OggSum, m, payload));
    G.CountFits(n);
    PrefixLayout(m, crc + [G.CountOctet(n)] + (G.Lacing(n) + payload));
    PageParts(G.Prefix(m), crc, G.CountOctet(n), G.Lacing(n), payload);
  }

  lemma PageParts(p: seq<byte>, crc: seq<byte>, n: byte, lacing: seq<byte>, payload: seq<byte>)
    requires |p| == 22 && |crc| == 4
    ensures var s := (p + crc + [n]) + (lacing + payload);
            && s == p + (crc + [n] + (lacing + payload))
            && s[22..26] == crc && s[26] == n && s[27..27 + |lacing|] == lacing && s[27 + |lacing|..] == payload
            && Unsummed(s) == (p + [0, 0, 0, 0] + [n]) + lacing + payload
  {
  }

  /** Section 5.1 of RFC 7845: magic, version, channels, pre-skip, rate, gain, mapping family. */
  lemma OpusHeadLayout(channels: byte, preSkip: nat, rate: nat)
    ensures var s := G.HeadPayload(channels, preSkip, rate);
            && |s| == 19 && s[..8] == [0x4f, 0x70, 0x75, 0x73, 0x48, 0x65, 0x61, 0x64] && s[8] == 1 && s[9] == channels
            && LittleAt(s, 10, 2, preSkip) && LittleAt(s, 12, 4, rate) && LittleAt(s, 16, 2, 0) && s[18] == 0
  {
    var s := G.HeadPayload(channels, preSkip, rate);
    LittleIs(s, 10, 2, preSkip);
    LittleIs(s, 12, 4, rate);
    LittleIs(s, 16, 2, 0);
  }

  /** Section 5.2 of RFC 7845: magic, the vendor string behind its length, and no comments. */
  lemma OpusTagsLayout()
    ensures var s := G.TagsPayload();
            && |s| == 21 && s[..8] == [0x4f, 0x70, 0x75, 0x73, 0x54, 0x61, 0x67, 0x73]
            && LittleAt(s, 8, 4, 5) && s[12..17] == G.VENDOR && LittleAt(s, 17, 4, 0)
  {
    var s := G.TagsPayload();
    LittleIs(s, 8, 4, 5);
    LittleIs(s, 17, 4, 0);
  }

  // ---- IVF -------------------------------------------------------------

  lemma IdentificationLayout(fourcc: seq<byte>)
    requires |fourcc| == 4
    ensures var s := I.Identification(fourcc);
            && s[..4] == [0x44, 0x4b, 0x49, 0x46] && LittleAt(s, 4, 2, 0) && LittleAt(s, 6, 2, 32) && s[8..12] == fourcc
  {
    var s := I.Identification(fourcc);
    assert s[4..6] == Le(0, 2) && s[6..8] == Le(32, 2);
    LittleIs(s, 4, 2, 0);
    LittleIs(s, 6, 2, 32);
  }

  lemma GeometryLayout()
    ensures var s := I.Geometry();
            && LittleAt(s, 0, 2, 640) && LittleAt(s, 2, 2, 480) && LittleAt(s, 4, 4, 90000) && LittleAt(s, 8, 4, 1)
            && LittleAt(s, 12, 4, 0)
  {
    var s := I.Geometry();
    assert s[0..2] == Le(640, 2) && s[2..4] == Le(480, 2);
    assert s[4..8] == s[4..12][..4] && s[8..12] == s[4..12][4..] && s[12..16] == Le(0, 4);
    LittleIs(s, 0, 2, 640);
    LittleIs(s, 2, 2, 480);
    LittleIs(s, 4, 4, 90000);
    LittleIs(s, 8, 4, 1);
    LittleIs(s, 12, 4, 0);
  }

  lemma Behind(a: seq<byte>, s: seq<byte>, i: nat, w: nat, n: nat)
    requires LittleAt(s, i, w, n)
    ensures LittleAt(a + s, |a| + i, w, n)
  {
    assert (a + s)[|a| + i..|a| + i + w] == s[i..i + w];
  }

  lemma Before(s: seq<byte>, b: seq<byte>, i: nat, w: nat, n: nat)
    requires LittleAt(s, i, w, n)
    ensures LittleAt(s + b, i, w, n)
  {
    assert (s + b)[i..i + w] == s[i..i + w];
  }

  /** Signature, version, header length, codec, size, timebase, frame count. */
  lemma IvfHeaderLayout(fourcc: seq<byte>)
    requires |fourcc| == 4
    ensures var s := I.FileHeader(fourcc);
            && |s| == 32 && s[..4] == [0x44, 0x4b, 0x49, 0x46] && LittleAt(s, 4, 2, 0) && LittleAt(s, 6, 2, 32)
            && s[8..12] == fourcc && LittleAt(s, 12, 2, 640) && LittleAt(s, 14, 2, 480)
            && LittleAt(s, 16, 4, 90000) && LittleAt(s, 20, 4, 1) && LittleAt(s, 24, 4, 0)
  {
    var a, g := I.Identification(fourcc), I.Geometry();
    IdentificationLayout(fourcc);
    GeometryLayout();
    Before(a, g, 4, 2, 0);
    Before(a, g, 6, 2, 32);
    Behind(a, g, 0, 2, 640);
    Behind(a, g, 2, 2, 480);
    Behind(a, g, 4, 4, 90000);
    Behind(a, g, 8, 4, 1);
    Behind(a, g, 12, 4, 0);
    assert (a + g)[..4] == a[..4] && (a + g)[8..12] == a[8..12];
  }

  /** Each frame behind its size and its time since the first, modulo 2 to the 32. */
  lemma IvfEntryLayout(first: nat, f: V.Frame)
    requires first < 0x1_0000_0000 && f.ts < 0x1_0000_0000
    ensures var s := I.EntryHeader(first, f);
            && |s| == 12 && LittleAt(s, 0, 4, Wrap32(|f.data|))
            && LittleAt(s, 4, 8, if f.ts >= first then f.ts - first else f.ts + 0x1_0000_0000 - first)
  {
    var s := I.EntryHeader(first, f);
    LittleIs(s, 0, 4, Wrap32(|f.data|));
    LittleIs(s, 4, 8, I.Pts(first, f.ts));
  }
}
