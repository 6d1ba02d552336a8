/** The record-layer and handshake headers of DTLS 1.2 (section 4.1 and 4.2.2 of RFC 6347). */
module DtlsHeaders {
  import opened Bytes

  const HANDSHAKE_HEADER := 12
  const RECORD_HEADER := 13
  const CONTENT_CHANGE_CIPHER_SPEC := 20
  const CONTENT_HANDSHAKE := 22

  datatype HandshakeHeader = HandshakeHeader(typ: byte, length: nat, messageSeq: nat, offset: nat, fragLength: nat)

  /** The header's fields fit their 24- and 16-bit slots. */
  predicate Fits(h: HandshakeHeader) {
    h.length < 0x100_0000 && h.messageSeq < 0x1_0000 && h.offset < 0x100_0000 && h.fragLength < 0x100_0000
  }

  function Marshal(h: HandshakeHeader): (s: seq<byte>)
    ensures |s| == HANDSHAKE_HEADER
  {
    [h.typ] + Be(h.length, 3) + Be(h.messageSeq, 2) + Be(h.offset, 3) + Be(h.fragLength, 3)
  }

  function Unmarshal(d: seq<byte>): (r: Option<HandshakeHeader>)
    ensures r.Some? <==> |d| >= HANDSHAKE_HEADER
    ensures r.Some? ==> Fits(r.value)
  {
    if |d| < HANDSHAKE_HEADER then None
    else
      Spans();
      Some(HandshakeHeader(d[0], FromBe(d[1..4]), FromBe(d[4..6]), FromBe(d[6..9]), FromBe(d[9..12])))
  }

  lemma HeaderRoundTrip(h: HandshakeHeader, rest: seq<byte>)
    requires Fits(h)
    ensures Unmarshal(Marshal(h) + rest) == Some(h)
  {
    Spans();
    var d := Marshal(h) + rest;
    assert d[1..4] == Be(h.length, 3);
    assert d[4..6] == Be(h.messageSeq, 2);
    assert d[6..9] == Be(h.offset, 3);
    assert d[9..12] == Be(h.fragLength, 3);
    BeRoundTrip(h.length, 3);
    BeRoundTrip(h.messageSeq, 2);
    BeRoundTrip(h.offset, 3);
    BeRoundTrip(h.fragLength, 3);
  }

  /** Without a connection ID the header is thirteen octets. */
  datatype RecordHeader = RecordHeader(contentType: byte, major: byte, minor: byte, epoch: nat, sequence: nat, length: nat)

  predicate RecordFits(h: RecordHeader) {
    h.epoch < 0x1_0000 && h.sequence < 0x1_0000_0000_0000 && h.length < 0x1_0000
  }

  function MarshalRecord(h: RecordHeader): (s: seq<byte>)
    ensures |s| == RECORD_HEADER
  {
    [h.contentType, h.major, h.minor] + Be(h.epoch, 2) + Be(h.sequence, 6) + Be(h.length, 2)
  }

  predicate KnownVersion(major: byte, minor: byte) {
    major == 0xfe && (minor == 0xff || minor == 0xfd)
  }

  /** Unmarshal leaves the length field alone; everything else is read, then the version is checked. */
  function UnmarshalRecord(d: seq<byte>): (r: Option<RecordHeader>)
    ensures r.Some? <==> |d| >= RECORD_HEADER && KnownVersion(d[1], d[2])
    ensures r.Some? ==> r.value.contentType == d[0]
  {
    if |d| < RECORD_HEADER || !KnownVersion(d[1], d[2]) then None
    else Some(RecordHeader(d[0], d[1], d[2], FromBe(d[3..5]), FromBe(d[5..11]), 0))
  }

  lemma RecordRoundTrip(h: RecordHeader, rest: seq<byte>)
    requires RecordFits(h) && KnownVersion(h.major, h.minor)
    ensures UnmarshalRecord(MarshalRecord(h) + rest) == Some(h.(length := 0))
  {
    Spans();
    var d := MarshalRecord(h) + rest;
    assert d[3..5] == Be(h.epoch, 2);
    assert d[5..11] == Be(h.sequence, 6);
    BeRoundTrip(h.epoch, 2);
    BeRoundTrip(h.sequence, 6);
  }
}
