/** One Ogg page: the bytes writePage produces, and what ParseNextPage makes of them. */
module OggPage {
  import opened Bits
  import opened Bytes
  import opened OggChecksum
  import opened OpusPackets
  import opened Streams

  const PAGE_HEADER := 27

  datatype Meta = Meta(headerType: byte, granule: nat, serial: nat, index: nat)

  predicate MetaFits(m: Meta) {
    Spans();
    m.granule < Span(8) && m.serial < Span(4) && m.index < Span(4)
  }

  datatype Page = Page(meta: Meta, sizes: seq<byte>, payload: seq<byte>)

  // ---- lacing ----------------------------------------------------------

  function Segments(n: nat): (s: nat)
    ensures s >= 1
  {
    if n == 0 then 1 else (n + 254) / 255
  }

  /** The header's one-octet segment count. */
  function CountOctet(n: nat): byte {
    Segments(n) % 256
  }

  lemma CountFits(n: nat)
    requires n <= 255 * 255
    ensures CountOctet(n) == Segments(n)
  {
  }

  function LacingAt(n: nat, i: nat): byte
    requires i < Segments(n)
  {
    if n - 255 * i >= 255 then 255 else n - 255 * i
  }

  /** The writer's segment table: no zero is added after an exact multiple of 255. */
  function Lacing(n: nat): (s: seq<byte>)
    ensures |s| == Segments(n) && forall i :: 0 <= i < |s| ==> s[i] == LacingAt(n, i)
  {
    seq(Segments(n), i requires 0 <= i < Segments(n) => LacingAt(n, i))
  }

  function Sum(s: seq<byte>): nat {
    if s == [] then 0 else s[0] as nat + Sum(s[1..])
  }

  lemma {:induction false} LacingSums(n: nat, i: nat)
    requires i <= Segments(n)
    ensures Sum(Lacing(n)[i..]) == if n >= 255 * i then n - 255 * i else 0
    decreases Segments(n) - i
  {
    if i < Segments(n) {
      assert Lacing(n)[i..][1..] == Lacing(n)[i + 1..];
      LacingSums(n, i + 1);
    }
  }

  lemma {:induction false} SumBound(s: seq<byte>)
    ensures Sum(s) <= 255 * |s|
  {
    if s != [] {
      SumBound(s[1..]);
    }
  }

  // ---- the writer ------------------------------------------------------

  /** Everything before the checksum field. */
  function Prefix(m: Meta): (p: seq<byte>)
    ensures |p| == 22
  {
    ['O' as byte, 'g' as byte, 'g' as byte, 'S' as byte, 0, m.headerType]
    + Le(m.granule, 8) + Le(m.serial, 4) + Le(m.index, 4)
  }

  /** The fixed part of the header, whose last octet holds what it can of the segment count. */
  function Fixed(m: Meta, checksum: seq<byte>, n: nat): (h: seq<byte>)
    requires |checksum| == 4
    ensures |h| == PAGE_HEADER && h[..22] == Prefix(m) && h[22..26] == checksum && h[26] == CountOctet(n)
  {
    Prefix(m) + checksum + [CountOctet(n)]
  }

  /** A page checksum as a function of the octets summed; the code's is OggSum. */
  type Summing = seq<byte> -> Register

  function OggSum(bs: seq<byte>): Register {
    Crc(Zero(32), bs)
  }

  const NO_CHECKSUM: seq<byte> := [0, 0, 0, 0]

  function PageChecksum(sum: Summing, m: Meta, payload: seq<byte>): Register {
    sum(Fixed(m, NO_CHECKSUM, |payload|) + Lacing(|payload|) + payload)
  }

  function PageBytes(sum: Summing, m: Meta, payload: seq<byte>): seq<byte> {
    Fixed(m, Stored(PageChecksum(sum, m, payload)), |payload|) + (Lacing(|payload|) + payload)
  }

  /** How a page's fields and payload become octets. */
  type Paging = (Meta, seq<byte>) -> seq<byte>

  function PagesBy(sum: Summing): Paging {
    (m, payload) => PageBytes(sum, m, payload)
  }

  ghost predicate PagesAreOggs(page: Paging) {
    forall m, payload {:trigger PageBytes(OggSum, m, payload)} :: page(m, payload) == PageBytes(OggSum, m, payload)
  }

  lemma PagesAre()
    ensures PagesAreOggs(PagesBy(OggSum))
  {
  }

  const OPUS_HEAD: seq<byte> :=
    ['O' as byte, 'p' as byte, 'u' as byte, 's' as byte, 'H' as byte, 'e' as byte, 'a' as byte, 'd' as byte]
  const OPUS_TAGS: seq<byte> :=
    ['O' as byte, 'p' as byte, 'u' as byte, 's' as byte, 'T' as byte, 'a' as byte, 'g' as byte, 's' as byte]
  const VENDOR: seq<byte> := ['g' as byte, 'o' as byte, 'r' as byte, 't' as byte, 'c' as byte]

  /** The identification header: version 1, no output gain, mapping family 0. */
  function HeadPayload(channels: byte, preSkip: nat, rate: nat): (p: seq<byte>)
    ensures |p| == 19 && OPUS_HEAD <= p && p[18] == 0
  {
    OPUS_HEAD + [1, channels] + Le(preSkip, 2) + Le(rate, 4) + Le(0, 2) + [0]
  }

  /** The comment header: a vendor string and no comments. */
  function TagsPayload(): (p: seq<byte>)
    ensures |p| == 21 && OPUS_TAGS <= p
  {
    OPUS_TAGS + Le(5, 4) + VENDOR + Le(0, 4)
  }

  /** The two header pages a new stream begins with. */
  function HeaderPages(page: Paging, serial: nat, head: seq<byte>): seq<byte> {
    page(Meta(2, 0, serial, 0), head) + page(Meta(0, 0, serial, Wrap32(1)), TagsPayload())
  }

  class OggWriter {
    var out: seq<byte>
    const serial: nat
    var pageIndex: nat
    var granule: nat
    var closed: bool
    const table: Table
    ghost const page: Paging

    ghost predicate Valid()
      reads this
    {
      PagesAreOggs(page) && serial < 0x1_0000_0000 && pageIndex < 0x1_0000_0000 && granule < 0x1_0000_0000_0000_0000
    }

    constructor (serial: nat, rate: nat, channels: byte, preSkip: nat)
      requires serial < 0x1_0000_0000 && rate < 0x1_0000_0000 && preSkip < 0x1_0000
      ensures Valid() && !closed && granule == 0 && pageIndex == Wrap32(Wrap32(1) + 1) && this.serial == serial
      ensures page == PagesBy(OggSum) && out == HeaderPages(page, serial, HeadPayload(channels, preSkip, rate))
    {
      this.serial, out, pageIndex, granule, closed := serial, [], 0, 0, false;
      var entries := WriterTable();
      table := entries;
      page := PagesBy(OggSum);
      new;
      var head := HeadPayload(channels, preSkip, rate);
      PagesAre();
      WriteHeaders(head);
    }

    method WriteHeaders(head: seq<byte>)
      requires Valid() && pageIndex == 0 && out == []
      modifies this`out, this`pageIndex
      ensures Valid() && pageIndex == Wrap32(Wrap32(1) + 1)
      ensures out == HeaderPages(page, serial, head)
    {
      WritePage(head, 0, 2);
      assert [] + page(Meta(2, 0, serial, 0), head) == page(Meta(2, 0, serial, 0), head);
      WritePage(TagsPayload(), 0, 0);
    }

    /** Fills the header in place, sums it with a zero checksum field, then patches the checksum in. */
    method WritePage(payload: seq<byte>, pageGranule: nat, headerType: byte)
      requires Valid()
      modifies this`out, this`pageIndex
      ensures Valid()
      ensures pageIndex == Wrap32(old(pageIndex) + 1)
      ensures out == old(out) + page(Meta(headerType, pageGranule, serial, old(pageIndex)), payload)
    {
      var header := BuildHeader(Meta(headerType, pageGranule, serial, pageIndex), payload);
      Emit(header, payload);
      pageIndex := Wrap32(pageIndex + 1);
    }

    method Emit(header: seq<byte>, payload: seq<byte>)
      modifies this`out
      ensures out == old(out) + (header + payload)
    {
      out := out + header;
      out := out + payload;
    }

    method BuildHeader(m: Meta, payload: seq<byte>) returns (built: seq<byte>)
      requires Valid()
      ensures built + payload == page(m, payload)
    {
      var header := FillHeader(m, |payload|);
      var crc := SumHeaderAndPayload(header, payload);
      Patch(header, Stored(crc), m, |payload|);
      PageOf(m, payload, header[..], crc);
      built := header[..];
    }

    method SumHeaderAndPayload(header: array<byte>, payload: seq<byte>) returns (crc: Register)
      requires Valid()
      ensures crc == OggSum(header[..] + payload)
    {
      crc := OggCrc(table, Zero(32), header[..]);
      CrcJoins(Zero(32), header[..], payload);
      crc := OggCrc(table, crc, payload);
    }

    method WritePacket(payload: seq<byte>) returns (ok: bool)
      requires Valid()
      modifies this`out, this`pageIndex, this`granule
      ensures Valid() && ok == !closed
      ensures !ok || payload == [] ==> out == old(out) && granule == old(granule) && pageIndex == old(pageIndex)
      ensures ok && payload != [] ==>
                && granule == Wrap64(old(granule) + Samples(payload))
                && pageIndex == Wrap32(old(pageIndex) + 1)
                && out == old(out) + page(Meta(0, granule, serial, old(pageIndex)), payload)
    {
      ok := WritePacketWithSamples(payload, Samples(payload));
    }

    /** For a caller that knows the packet's duration. */
    method WritePacketWithSamples(payload: seq<byte>, samples: nat) returns (ok: bool)
      requires Valid()
      modifies this`out, this`pageIndex, this`granule
      ensures Valid() && ok == !closed
      ensures !ok || payload == [] ==> out == old(out) && granule == old(granule) && pageIndex == old(pageIndex)
      ensures ok && payload != [] ==>
                && granule == Wrap64(old(granule) + samples)
                && pageIndex == Wrap32(old(pageIndex) + 1)
                && out == old(out) + page(Meta(0, granule, serial, old(pageIndex)), payload)
    {
      if closed {
        return false;
      }
      if |payload| == 0 {
        return true;
      }
      granule := Wrap64(granule + samples);
      WritePage(payload, granule, 0);
      return true;
    }

    /** The end-of-stream page is empty: one zero segment. */
    method Close()
      requires Valid()
      modifies this`out, this`pageIndex, this`closed
      ensures Valid() && closed
      ensures old(closed) ==> out == old(out)
      ensures !old(closed) ==> out == old(out) + page(Meta(4, granule, serial, old(pageIndex)), [])
    {
      if closed {
        return;
      }
      closed := true;
      WritePage([], granule, 4);
    }
  }

  lemma PageOf(m: Meta, payload: seq<byte>, header: seq<byte>, crc: Register)
    requires crc == PageChecksum(OggSum, m, payload) && header == Fixed(m, Stored(crc), |payload|) + Lacing(|payload|)
    ensures header + payload == PageBytes(OggSum, m, payload)
  {
  }

  method Patch(header: array<byte>, checksum: seq<byte>, ghost m: Meta, ghost n: nat)
    requires |checksum| == 4 && header[..] == Fixed(m, NO_CHECKSUM, n) + Lacing(n)
    modifies header
    ensures header[..] == Fixed(m, checksum, n) + Lacing(n)
  {
    ghost var blank := header[..];
    forall i | 0 <= i < 4 {
      header[22 + i] := checksum[i];
    }
    assert header[..] == blank[..22] + checksum + [blank[26]] + blank[PAGE_HEADER..];
    assert blank[..22] == Prefix(m) && blank[PAGE_HEADER..] == Lacing(n);
  }

  method FillHeader(m: Meta, n: nat) returns (header: array<byte>)
    ensures fresh(header) && header[..] == Fixed(m, NO_CHECKSUM, n) + Lacing(n)
  {
    var segments := (n + 254) / 255;
    if segments == 0 {
      segments := 1;
    }
    header := new byte[PAGE_HEADER + segments](_ => 0);
    var fixed := Prefix(m);
    forall i | 0 <= i < 22 {
      header[i] := fixed[i];
    }
    header[26] := segments % 256;
    assert header[..PAGE_HEADER] == Fixed(m, NO_CHECKSUM, n);
    var remaining := n;
    for i := 0 to segments
      invariant header[..PAGE_HEADER] == Fixed(m, NO_CHECKSUM, n)
      invariant forall k :: 0 <= k < i ==> header[PAGE_HEADER + k] == LacingAt(n, k)
      invariant remaining == if n >= 255 * i then n - 255 * i else 0
    {
      if remaining >= 255 {
        header[PAGE_HEADER + i] := 255;
        remaining := remaining - 255;
      } else {
        header[PAGE_HEADER + i] := remaining;
        remaining := 0;
      }
    }
    assert header[PAGE_HEADER..] == Lacing(n);
    assert header[..] == header[..PAGE_HEADER] + header[PAGE_HEADER..];
  }

  // ---- the reader ------------------------------------------------------

  datatype Parsed = Ok(page: Page, rest: seq<byte>) | Eof | UnexpectedEof | ChecksumMismatch

  function Failure(c: Chunk): Parsed
    requires !c.Full?
  {
    if c.AtEnd? then Eof else UnexpectedEof
  }

  function Blanked(header: seq<byte>): seq<byte>
    requires |header| == PAGE_HEADER
  {
    header[..22] + NO_CHECKSUM + header[26..]
  }

  function MetaOf(header: seq<byte>): Meta
    requires |header| == PAGE_HEADER
  {
    Meta(header[5], FromLe(header[6..14]), FromLe(header[14..18]), FromLe(header[18..22]))
  }

  function Parse(sum: Summing, stream: seq<byte>): Parsed {
    var h := ReadFull(stream, PAGE_HEADER);
    if !h.Full? then Failure(h) else ParseTable(sum, h.data, h.rest)
  }

  function ParseTable(sum: Summing, header: seq<byte>, stream: seq<byte>): Parsed
    requires |header| == PAGE_HEADER
  {
    var s := ReadFull(stream, header[26]);
    if !s.Full? then Failure(s) else ParseBody(sum, header, s.data, s.rest)
  }

  function ParseBody(sum: Summing, header: seq<byte>, sizes: seq<byte>, stream: seq<byte>): Parsed
    requires |header| == PAGE_HEADER
  {
    var p := ReadFull(stream, Sum(sizes));
    if !p.Full? then Failure(p)
    else if Loaded(header[22..26]) != sum(Blanked(header) + sizes + p.data) then ChecksumMismatch
    else Ok(Page(MetaOf(header), sizes, p.data), p.rest)
  }

  method Total(sizes: seq<byte>) returns (n: nat)
    ensures n == Sum(sizes)
  {
    n := 0;
    for i := 0 to |sizes|
      invariant n + Sum(sizes[i..]) == Sum(sizes)
    {
      assert sizes[i..][1..] == sizes[i + 1..];
      n := n + sizes[i] as nat;
    }
  }

  class OggReader {
    var stream: seq<byte>
    var bytesRead: nat
    var lastSegSizes: seq<byte>
    const table: Table

    constructor (stream: seq<byte>)
      ensures this.stream == stream && lastSegSizes == [] && bytesRead == 0
    {
      this.stream, bytesRead, lastSegSizes := stream, 0, [];
      var generated := ReaderTable();
      table := generated;
    }

    method Sums(bytes: seq<byte>, from: Register) returns (checksum: Register)
      ensures checksum == Crc(from, bytes)
    {
      checksum := from;
      for i := 0 to |bytes|
        invariant Crc(from, bytes) == Crc(checksum, bytes[i..])
      {
        assert bytes[i..][1..] == bytes[i + 1..];
        checksum := Bits.Xor(Shl(checksum, 8), table[FromOctet(Bits.Xor(checksum[24..], Octet(bytes[i])))]);
      }
    }

    method SumPage(header: seq<byte>, sizes: seq<byte>, payload: seq<byte>) returns (checksum: Register)
      ensures checksum == OggSum(header + sizes + payload)
    {
      checksum := Sums(header, Zero(32));
      CrcJoins(Zero(32), header, sizes);
      checksum := Sums(sizes, checksum);
      CrcJoins(Zero(32), header + sizes, payload);
      checksum := Sums(payload, checksum);
    }

    method ParseNextPage() returns (r: Parsed)
      modifies this`stream, this`bytesRead, this`lastSegSizes
      ensures r == Parse(OggSum, old(stream))
      ensures r.Ok? ==> stream == r.rest && lastSegSizes == r.page.sizes
                        && bytesRead == old(bytesRead) + |old(stream)| - |r.rest|
      ensures !r.Ok? ==> lastSegSizes == old(lastSegSizes) && bytesRead == old(bytesRead)
    {
      var h := ReadFull(stream, PAGE_HEADER);
      if !h.Full? {
        return Failure(h);
      }
      stream := h.rest;
      var s := ReadFull(stream, h.data[26]);
      if !s.Full? {
        return Failure(s);
      }
      stream := s.rest;
      var payloadSize := Total(s.data);
      var p := ReadFull(stream, payloadSize);
      if !p.Full? {
        return Failure(p);
      }
      stream := p.rest;
      var checksum := SumPage(Blanked(h.data), s.data, p.data);
      if Loaded(h.data[22..26]) != checksum {
        return ChecksumMismatch;
      }
      bytesRead := bytesRead + |h.data| + |s.data| + |p.data|;
      lastSegSizes := s.data;
      return Ok(Page(MetaOf(h.data), s.data, p.data), p.rest);
    }
  }

  // ---- write, then read ------------------------------------------------

  lemma MetaReadsBack(m: Meta, checksum: seq<byte>, n: nat)
    requires MetaFits(m) && |checksum| == 4
    ensures MetaOf(Fixed(m, checksum, n)) == m
    ensures Blanked(Fixed(m, checksum, n)) == Fixed(m, NO_CHECKSUM, n)
  {
    var h, p := Fixed(m, checksum, n), Prefix(m);
    assert p[6..14] == Le(m.granule, 8) && p[14..18] == Le(m.serial, 4) && p[18..22] == Le(m.index, 4);
    assert h[6..14] == p[6..14] && h[14..18] == p[14..18] && h[18..22] == p[18..22] && h[5] == p[5];
    LeRoundTrip(m.granule, 8);
    LeRoundTrip(m.serial, 4);
    LeRoundTrip(m.index, 4);
    assert h[26..] == [CountOctet(n)];
  }

  /** The fixed header reads off the front, leaving the full segment table, the payload and the rest. */
  lemma HeaderReadsBack(sum: Summing, m: Meta, payload: seq<byte>, rest: seq<byte>)
    ensures var n := |payload|;
            ReadFull(PageBytes(sum, m, payload) + rest, PAGE_HEADER)
            == Full(Fixed(m, Stored(PageChecksum(sum, m, payload)), n), Lacing(n) + (payload + rest))
  {
    var n := |payload|;
    var fixed := Fixed(m, Stored(PageChecksum(sum, m, payload)), n);
    assert PageBytes(sum, m, payload) + rest == fixed + (Lacing(n) + (payload + rest));
    ReadExact(fixed, Lacing(n) + (payload + rest));
  }

  /** Up to 255 segments the page reads back whole: same fields, same segment table, same payload. */
  lemma PageRoundTrip(sum: Summing, m: Meta, payload: seq<byte>, rest: seq<byte>)
    requires MetaFits(m) && |payload| <= 255 * 255
    ensures Parse(sum, PageBytes(sum, m, payload) + rest) == Ok(Page(m, Lacing(|payload|), payload), rest)
  {
    var n := |payload|;
    HeaderReadsBack(sum, m, payload, rest);
    CountFits(n);
    ReadExact(Lacing(n), payload + rest);
    BodyReadsBack(sum, m, payload, rest);
  }

  lemma BodyReadsBack(sum: Summing, m: Meta, payload: seq<byte>, rest: seq<byte>)
    requires MetaFits(m)
    ensures ParseBody(sum, Fixed(m, Stored(PageChecksum(sum, m, payload)), |payload|), Lacing(|payload|), payload + rest)
         == Ok(Page(m, Lacing(|payload|), payload), rest)
  {
    var n := |payload|;
    ReadExact(payload, rest);
    LacingSums(n, 0);
    assert Lacing(n)[0..] == Lacing(n);
    var crc := PageChecksum(sum, m, payload);
    MetaReadsBack(m, Stored(crc), n);
    StoredLoads(crc);
  }

  /** A one-octet segment count cannot announce more than 65025 octets of payload. */
  lemma ParsedIsSmall(sum: Summing, stream: seq<byte>)
    ensures Parse(sum, stream).Ok? ==> |Parse(sum, stream).page.payload| <= 255 * 255
  {
    var h := ReadFull(stream, PAGE_HEADER);
    if h.Full? {
      var s := ReadFull(h.rest, h.data[26]);
      if s.Full? {
        SumBound(s.data);
      }
    }
  }
}
