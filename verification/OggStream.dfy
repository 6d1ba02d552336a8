/** A whole Ogg file: what the recorder writes, and what the streamer sends from it. */
module OggStream {
  import opened Bytes
  import opened OggEndings
  import opened OggPage
  import opened OggPackets
  import opened OpusPackets
  import opened RtpPackets

  /** A packet's duration as a function of its octets; the code's is Samples. */
  type Timing = seq<byte> -> nat

  /** The duration of all the packets together. */
  function Ticks(dur: Timing, ps: seq<seq<byte>>): nat {
    if ps == [] then 0 else Ticks(dur, ps[..|ps| - 1]) + dur(ps[|ps| - 1])
  }

  // ---- sending ---------------------------------------------------------

  predicate Skipped(p: seq<byte>) {
    p == [] || OPUS_HEAD <= p || OPUS_TAGS <= p
  }

  function Kept(ps: seq<seq<byte>>): seq<seq<byte>> {
    if ps == [] then [] else (if Skipped(ps[0]) then [] else [ps[0]]) + Kept(ps[1..])
  }

  /** Consecutive sequence numbers, timestamps advancing by duration, the marker on the first. */
  function Sent(dur: Timing, ps: seq<seq<byte>>, seqNo: nat, ts: nat): (r: seq<Rtp>)
    ensures |r| == |ps|
  {
    if ps == [] then []
    else
      var before := ps[..|ps| - 1];
      Sent(dur, before, seqNo, ts)
      + [Rtp(Wrap16(seqNo + |before|), Wrap32(ts + Ticks(dur, before)), before == [], ps[|ps| - 1])]
  }

  /** Packet i alone fixes its number and marker; its time is that of everything before it. */
  lemma {:induction false} SentAt(dur: Timing, ps: seq<seq<byte>>, seqNo: nat, ts: nat, i: nat)
    requires i < |ps|
    ensures Sent(dur, ps, seqNo, ts)[i]
         == Rtp(Wrap16(seqNo + i), Wrap32(ts + Ticks(dur, ps[..i])), i == 0, ps[i])
  {
    if i < |ps| - 1 {
      SentAt(dur, ps[..|ps| - 1], seqNo, ts, i);
      assert ps[..|ps| - 1][..i] == ps[..i];
    }
  }

  lemma SentGrows(dur: Timing, ps: seq<seq<byte>>, p: seq<byte>, seqNo: nat, ts: nat)
    ensures Ticks(dur, ps + [p]) == Ticks(dur, ps) + dur(p)
    ensures Sent(dur, ps + [p], seqNo, ts) == Sent(dur, ps, seqNo, ts)
            + [Rtp(Wrap16(seqNo + |ps|), Wrap32(ts + Ticks(dur, ps)), ps == [], p)]
  {
    assert (ps + [p])[..|ps|] == ps;
  }

  lemma OneMoreSent(dur: Timing, ps: seq<seq<byte>>, p: seq<byte>, seqNo: nat, ts: nat)
    ensures var number, time := Wrap16(seqNo + |ps|), Wrap32(ts + Ticks(dur, ps));
            && Sent(dur, ps + [p], seqNo, ts) == Sent(dur, ps, seqNo, ts) + [Rtp(number, time, ps == [], p)]
            && Wrap16(number + 1) == Wrap16(seqNo + |ps + [p]|)
            && Wrap32(time + dur(p)) == Wrap32(ts + Ticks(dur, ps + [p]))
  {
    SentGrows(dur, ps, p, seqNo, ts);
    Wrap16Onward(seqNo + |ps|, 1);
    Wrap32Onward(ts + Ticks(dur, ps), dur(p));
  }

  lemma {:induction false} KeptJoins(a: seq<seq<byte>>, b: seq<seq<byte>>)
    ensures Kept(a + b) == Kept(a) + Kept(b)
  {
    if a == [] {
      assert a + b == b;
    } else {
      assert (a + b)[1..] == a[1..] + b;
      KeptJoins(a[1..], b);
    }
  }

  lemma KeptStep(ps: seq<seq<byte>>, i: nat)
    requires i < |ps|
    ensures Kept(ps[i..]) == (if Skipped(ps[i]) then [] else [ps[i]]) + Kept(ps[i + 1..])
  {
    assert ps[i..][1..] == ps[i + 1..];
  }

  // ---- reading a stream ------------------------------------------------

  /** Every packet completed before the stream ends or fails. */
  function Streamed(sum: Summing, stream: seq<byte>, held: seq<byte>): seq<seq<byte>>
    decreases |stream|
  {
    ParsedAgrees(sum, stream);
    var r := Parse(sum, stream);
    if !r.Ok? then []
    else Packets(r.page.sizes, r.page.payload, held)
         + Streamed(sum, r.rest, Left(r.page.sizes, r.page.payload, held))
  }

  /** The identification page's payload length, per channel mapping family. */
  predicate IdPayloadFits(p: seq<byte>) {
    && |p| >= 19 && OPUS_HEAD <= p
    && (p[18] == 0 ==> |p| == 19)
    && (p[18] != 0 ==> p[18] in {1, 2, 255} && |p| == 21 + p[9] as int)
  }

  predicate OpensWith(sum: Summing, stream: seq<byte>) {
    var r := Parse(sum, stream);
    r.Ok? && stream[..4] == ['O' as byte, 'g' as byte, 'g' as byte, 'S' as byte]
    && r.page.meta.headerType == 2 && IdPayloadFits(r.page.payload)
  }

  /** The position of the sending loop: what went out, and the next number and time. */
  class Sender {
    var sent: seq<Rtp>
    var seqNo: nat
    var ts: nat
    var firstPacket: bool
    const dur: Timing
    ghost var packets: seq<seq<byte>>
    ghost const seqNo0: nat
    ghost const ts0: nat

    ghost predicate Valid()
      reads this
    {
      && sent == Sent(dur, packets, seqNo0, ts0)
      && seqNo == Wrap16(seqNo0 + |packets|)
      && ts == Wrap32(ts0 + Ticks(dur, packets))
      && firstPacket == (packets == [])
    }

    constructor (dur: Timing, seqNo: nat, ts: nat)
      requires seqNo < 0x1_0000 && ts < 0x1_0000_0000
      ensures Valid() && packets == [] && seqNo0 == seqNo && ts0 == ts && this.dur == dur
    {
      this.dur := dur;
      this.seqNo, this.ts, sent, firstPacket, packets, seqNo0, ts0 := seqNo, ts, [], true, [], seqNo, ts;
    }

    method SendOne(pkt: seq<byte>)
      requires Valid() && pkt != []
      modifies this
      ensures Valid() && packets == old(packets) + [pkt]
    {
      var samples := dur(pkt);
      OneMoreSent(dur, packets, pkt, seqNo0, ts0);
      sent := sent + [Rtp(seqNo, ts, firstPacket, pkt)];
      firstPacket := false;
      seqNo := Wrap16(seqNo + 1);
      ts := Wrap32(ts + samples);
      packets := packets + [pkt];
    }

    /** The inner loop: empty packets and Opus headers are passed over. */
    method SendAll(ps: seq<seq<byte>>)
      requires Valid()
      modifies this
      ensures Valid() && packets == old(packets) + Kept(ps)
    {
      assert ps[0..] == ps;
      for i := 0 to |ps|
        invariant Valid() && packets + Kept(ps[i..]) == old(packets) + Kept(ps)
      {
        KeptStep(ps, i);
        var pkt := ps[i];
        if |pkt| == 0 {
          continue;
        }
        if OPUS_HEAD <= pkt || OPUS_TAGS <= pkt {
          continue;
        }
        SendOne(pkt);
      }
    }
  }

  /** Returns without error exactly if the stream is whole pages, perhaps with one cut after its header or table. */
  method StreamOggOpus(stream: seq<byte>, seqNo: nat, ts: nat) returns (ok: bool, sender: Sender)
    requires seqNo < 0x1_0000 && ts < 0x1_0000_0000
    ensures fresh(sender) && sender.Valid() && sender.seqNo0 == seqNo && sender.ts0 == ts && sender.dur == Samples
    ensures !OpensWith(OggSum, stream) ==> !ok && sender.packets == []
    ensures OpensWith(OggSum, stream) ==>
              var rest := Parse(OggSum, stream).rest;
              sender.packets == Kept(Streamed(OggSum, rest, [])) && (ok <==> WholePages(OggSum, rest))
  {
    sender := new Sender(Samples, seqNo, ts);
    var reader := new OggReader(stream);
    var first := reader.ParseNextPage();
    if !(first.Ok? && stream[..4] == ['O' as byte, 'g' as byte, 'g' as byte, 'S' as byte]
         && first.page.meta.headerType == 2 && IdPayloadFits(first.page.payload)) {
      return false, sender;
    }
    EndsQuietlyIff(OggSum, first.rest);
    ok := StreamPages(reader, sender);
    assert [] + Kept(Streamed(OggSum, first.rest, [])) == Kept(Streamed(OggSum, first.rest, []));
  }

  method StreamPages(reader: OggReader, sender: Sender) returns (ok: bool)
    requires sender.Valid()
    modifies reader, sender
    ensures sender.Valid()
    ensures sender.packets == old(sender.packets) + Kept(Streamed(OggSum, old(reader.stream), []))
    ensures ok <==> Ending(OggSum, old(reader.stream)).Eof?
  {
    var pending: seq<byte> := [];
    while true
      invariant sender.Valid()
      invariant sender.packets + Kept(Streamed(OggSum, reader.stream, pending))
             == old(sender.packets) + Kept(Streamed(OggSum, old(reader.stream), []))
      invariant Ending(OggSum, reader.stream) == Ending(OggSum, old(reader.stream))
      decreases |reader.stream|
    {
      ghost var before := reader.stream;
      ParsedAgrees(OggSum, before);
      var r := reader.ParseNextPage();
      if r.Eof? {
        return true;
      }
      if !r.Ok? {
        return false;
      }
      pending := OnePage(r.page, sender, pending,
                         Streamed(OggSum, reader.stream, Left(r.page.sizes, r.page.payload, pending)));
    }
  }

  lemma NothingCompleted(sizes: seq<byte>, payload: seq<byte>, held: seq<byte>)
    requires Agree(sizes, payload) && Pieces(sizes, payload) == []
    ensures Packets(sizes, payload, held) == [] && Left(sizes, payload, held) == held
  {
    LeftIffContinued(sizes, payload, []);
  }

  /** after stands for the packets of the pages that follow. */
  method OnePage(page: Page, sender: Sender, pending: seq<byte>, ghost after: seq<seq<byte>>) returns (held: seq<byte>)
    requires sender.Valid() && Agree(page.sizes, page.payload)
    modifies sender
    ensures sender.Valid() && held == Left(page.sizes, page.payload, pending)
    ensures sender.packets + Kept(after)
         == old(sender.packets) + Kept(Packets(page.sizes, page.payload, pending) + after)
  {
    var segs := ParseSegments(page.sizes, page.payload);
    if |segs| == 0 {
      NothingCompleted(page.sizes, page.payload, pending);
      assert [] + after == after;
      return pending;
    }
    var packets: seq<seq<byte>>;
    packets, held := Stitch(segs, pending, page.sizes, page.payload, EndsContinued(page.sizes));
    KeptJoins(packets, after);
    sender.SendAll(packets);
  }

  // ---- recording -------------------------------------------------------

  datatype Place = Place(serial: nat, index: nat, granule: nat)

  function Next(at: Place, samples: nat): Place {
    Place(at.serial, Wrap32(at.index + 1), Wrap64(at.granule + samples))
  }

  /** Where the writer stands after the packets; empty ones leave no trace. */
  function PlaceAfter(dur: Timing, at: Place, ps: seq<seq<byte>>): Place {
    if ps == [] then at
    else
      var before := PlaceAfter(dur, at, ps[..|ps| - 1]);
      var p := ps[|ps| - 1];
      if p == [] then before else Next(before, dur(p))
  }

  function MetaAt(dur: Timing, at: Place, p: seq<byte>): Meta {
    Meta(0, Wrap64(at.granule + dur(p)), at.serial, at.index)
  }

  function PacketPage(page: Paging, dur: Timing, at: Place, p: seq<byte>): seq<byte> {
    if p == [] then [] else page(MetaAt(dur, at, p), p)
  }

  function PacketPages(page: Paging, dur: Timing, at: Place, ps: seq<seq<byte>>): seq<byte> {
    if ps == [] then []
    else
      var before := ps[..|ps| - 1];
      PacketPages(page, dur, at, before) + PacketPage(page, dur, PlaceAfter(dur, at, before), ps[|ps| - 1])
  }

  /** The end-of-stream page. */
  function LastPage(page: Paging, at: Place): seq<byte> {
    page(Meta(4, at.granule, at.serial, at.index), [])
  }

  /** Where a stream's packets begin: after its two header pages. */
  function Begin(serial: nat): Place {
    Place(serial, Wrap32(Wrap32(1) + 1), 0)
  }

  function File(page: Paging, dur: Timing, serial: nat, head: seq<byte>, ps: seq<seq<byte>>): seq<byte> {
    HeaderPages(page, serial, head)
    + PacketPages(page, dur, Begin(serial), ps)
    + LastPage(page, PlaceAfter(dur, Begin(serial), ps))
  }

  /** A recorder that is given every packet and then closed. */
  method Record(serial: nat, rate: nat, channels: byte, preSkip: nat, ps: seq<seq<byte>>) returns (file: seq<byte>)
    requires serial < 0x1_0000_0000 && rate < 0x1_0000_0000 && preSkip < 0x1_0000
    ensures file == File(PagesBy(OggSum), Samples, serial, HeadPayload(channels, preSkip, rate), ps)
  {
    var w := new OggWriter(serial, rate, channels, preSkip);
    ghost var header := w.out;
    WriteAll(w, Samples, ps);
    w.Close();
    file := w.out;
  }

  function PlaceOf(w: OggWriter): Place
    reads w
  {
    Place(w.serial, w.pageIndex, w.granule)
  }

  lemma PagesStep(page: Paging, dur: Timing, at: Place, ps: seq<seq<byte>>, i: nat)
    requires i < |ps|
    ensures var before := PlaceAfter(dur, at, ps[..i]);
            && PacketPages(page, dur, at, ps[..i + 1]) == PacketPages(page, dur, at, ps[..i]) + PacketPage(page, dur, before, ps[i])
            && PlaceAfter(dur, at, ps[..i + 1]) == if ps[i] == [] then before else Next(before, dur(ps[i]))
  {
    assert ps[..i + 1][..i] == ps[..i];
  }

  method WriteAll(w: OggWriter, ghost dur: Timing, ps: seq<seq<byte>>)
    requires w.Valid() && !w.closed && dur == Samples
    modifies w
    ensures w.Valid() && !w.closed
    ensures w.out == old(w.out) + PacketPages(w.page, dur, old(PlaceOf(w)), ps)
    ensures PlaceOf(w) == PlaceAfter(dur, old(PlaceOf(w)), ps)
  {
    ghost var out, page, at := w.out, w.page, PlaceOf(w);
    for i := 0 to |ps|
      invariant w.Valid() && !w.closed
      invariant w.out == out + PacketPages(page, dur, at, ps[..i])
      invariant PlaceOf(w) == PlaceAfter(dur, at, ps[..i])
    {
      ghost var here := PlaceOf(w);
      PagesStep(page, dur, at, ps, i);
      Regrouped(out, PacketPages(page, dur, at, ps[..i]), PacketPage(page, dur, here, ps[i]));
      WriteOne(w, dur, ps[i]);
    }
    assert ps[..|ps|] == ps;
  }

  method WriteOne(w: OggWriter, ghost dur: Timing, p: seq<byte>)
    requires w.Valid() && !w.closed && dur == Samples
    modifies w
    ensures w.Valid() && !w.closed
    ensures w.out == old(w.out) + PacketPage(w.page, dur, old(PlaceOf(w)), p)
    ensures PlaceOf(w) == if p == [] then old(PlaceOf(w)) else Next(old(PlaceOf(w)), dur(p))
  {
    var ok := w.WritePacket(p);
  }

  // ---- record, then stream ---------------------------------------------

  /** A payload whose last segment is full gets no empty segment to end it. */
  predicate Unterminated(n: nat) {
    n > 0 && n % 255 == 0
  }

  /** The packets a reader sees: an unterminated one runs on into the next, and the last page ends the last. */
  function Merged(ps: seq<seq<byte>>, held: seq<byte>): seq<seq<byte>> {
    if ps == [] then [held]
    else if Unterminated(|ps[0]|) then Merged(ps[1..], held + ps[0])
    else [held + ps[0]] + Merged(ps[1..], [])
  }

  lemma PageScans(p: seq<byte>, held: seq<byte>)
    ensures var s := Lacing(|p|);
            && Agree(s, p)
            && Packets(s, p, held) == (if Unterminated(|p|) then [] else [held + p])
            && Left(s, p, held) == (if Unterminated(|p|) then held + p else [])
  {
    if Unterminated(|p|) {
      assert Lacing(|p|) == FullSegments(|p| / 255);
      FullScans(|p| / 255, p, held);
    } else {
      assert Lacing(|p|) == Lace(|p|);
      LaceScans(p, held);
    }
  }

  /** The reader makes one packet of the page, the payload, and holds nothing over. */
  predicate ReadsAsOnePacket(sum: Summing, m: Meta, payload: seq<byte>, rest: seq<byte>) {
    var r := Parse(sum, PageBytes(sum, m, payload) + rest);
    && r.Ok? && r.rest == rest && Agree(r.page.sizes, r.page.payload)
    && Packets(r.page.sizes, r.page.payload, []) == [payload] && Left(r.page.sizes, r.page.payload, []) == []
  }

  lemma OnlyPacketIsAll(sizes: seq<byte>, payload: seq<byte>, packet: seq<byte>)
    requires Agree(sizes, payload) && Packets(sizes, payload, []) == [packet] && Left(sizes, payload, []) == []
    ensures payload == packet
  {
    OctetsKept(sizes, payload, []);
    assert [packet][1..] == [] && packet + [] == packet;
  }

  /** Exactly the payloads of at most 65024 octets that are not a positive multiple of 255. */
  lemma OnePacketIff(sum: Summing, m: Meta, payload: seq<byte>, rest: seq<byte>)
    requires MetaFits(m)
    ensures ReadsAsOnePacket(sum, m, payload, rest) <==>
            |payload| <= 65024 && (|payload| == 0 || |payload| % 255 != 0)
  {
    if |payload| <= 255 * 255 {
      PageRoundTrip(sum, m, payload, rest);
      PageScans(payload, []);
      assert [] + payload == payload;
    } else {
      var r := Parse(sum, PageBytes(sum, m, payload) + rest);
      ParsedIsSmall(sum, PageBytes(sum, m, payload) + rest);
      if ReadsAsOnePacket(sum, m, payload, rest) {
        OnlyPacketIsAll(r.page.sizes, r.page.payload, payload);
      }
    }
  }

  predicate Fits(ps: seq<seq<byte>>) {
    forall i :: 0 <= i < |ps| ==> |ps[i]| <= 255 * 255
  }

  predicate PlaceFits(at: Place) {
    at.serial < 0x1_0000_0000 && at.index < 0x1_0000_0000 && at.granule < 0x1_0000_0000_0000_0000
  }

  lemma FieldsFit(headerType: byte, granule: nat, serial: nat, index: nat)
    requires granule < 0x1_0000_0000_0000_0000 && serial < 0x1_0000_0000 && index < 0x1_0000_0000
    ensures MetaFits(Meta(headerType, granule, serial, index))
  {
    Spans();
  }

  /** One page at the front of a stream adds the packets it completes. */
  lemma PageStreams(sum: Summing, m: Meta, p: seq<byte>, rest: seq<byte>, held: seq<byte>)
    requires MetaFits(m) && |p| <= 255 * 255
    ensures Streamed(sum, PagesBy(sum)(m, p) + rest, held)
         == if Unterminated(|p|) then Streamed(sum, rest, held + p) else [held + p] + Streamed(sum, rest, [])
    ensures Ending(sum, PagesBy(sum)(m, p) + rest) == Ending(sum, rest)
  {
    PageRoundTrip(sum, m, p, rest);
    PageScans(p, held);
  }

  /** All that the walk over a file needs to know of its pages. */
  ghost predicate ReadsBack(sum: Summing, page: Paging) {
    && (forall m, p: seq<byte>, rest, held
          {:trigger Streamed(sum, page(m, p) + rest, held)} :: MetaFits(m) && |p| <= 255 * 255 ==>
          Streamed(sum, page(m, p) + rest, held)
          == if Unterminated(|p|) then Streamed(sum, rest, held + p) else [held + p] + Streamed(sum, rest, []))
    && (forall m, p: seq<byte>, rest
          {:trigger Ending(sum, page(m, p) + rest)} :: MetaFits(m) && |p| <= 255 * 255 ==>
          Ending(sum, page(m, p) + rest) == Ending(sum, rest))
  }

  lemma PagesReadBack(sum: Summing)
    ensures ReadsBack(sum, PagesBy(sum))
  {
    forall m, p: seq<byte>, rest, held | MetaFits(m) && |p| <= 255 * 255
      ensures Streamed(sum, PagesBy(sum)(m, p) + rest, held)
           == if Unterminated(|p|) then Streamed(sum, rest, held + p) else [held + p] + Streamed(sum, rest, [])
    {
      PageStreams(sum, m, p, rest, held);
    }
    forall m, p: seq<byte>, rest | MetaFits(m) && |p| <= 255 * 255
      ensures Ending(sum, PagesBy(sum)(m, p) + rest) == Ending(sum, rest)
    {
      PageStreams(sum, m, p, rest, []);
    }
  }

  lemma EndStreams(sum: Summing, page: Paging, at: Place, held: seq<byte>)
    requires ReadsBack(sum, page) && PlaceFits(at)
    ensures Streamed(sum, LastPage(page, at), held) == [held]
    ensures Ending(sum, LastPage(page, at)) == Eof
  {
    var last := LastPage(page, at);
    FieldsFit(4, at.granule, at.serial, at.index);
    assert last == page(Meta(4, at.granule, at.serial, at.index), []) + [];
    assert held + [] == held;
    assert Streamed(sum, [], []) == [] && Ending(sum, []) == Eof;
  }

  /** The packet pages and the page after them, taken from the front. */
  function Tail(page: Paging, dur: Timing, at: Place, ps: seq<seq<byte>>): seq<byte> {
    PacketPages(page, dur, at, ps) + LastPage(page, PlaceAfter(dur, at, ps))
  }

  lemma {:induction false} FromTheFront(page: Paging, dur: Timing, at: Place, ps: seq<seq<byte>>)
    requires ps != []
    ensures var next := PlaceAfter(dur, at, ps[..1]);
            && PacketPages(page, dur, at, ps) == PacketPage(page, dur, at, ps[0]) + PacketPages(page, dur, next, ps[1..])
            && PlaceAfter(dur, at, ps) == PlaceAfter(dur, next, ps[1..])
  {
    var n := |ps| - 1;
    if n == 0 {
      assert ps[..1] == ps && ps[..n] == [];
    } else {
      var next := PlaceAfter(dur, at, ps[..1]);
      var mid := ps[1..][..n - 1];
      FromTheFront(page, dur, at, ps[..n]);
      assert ps[..n][..1] == ps[..1] && ps[..n][1..] == mid;
      var last := PacketPage(page, dur, PlaceAfter(dur, at, ps[..n]), ps[n]);
      var front := PacketPage(page, dur, at, ps[0]);
      Regrouped(front, PacketPages(page, dur, next, mid), last);
      assert ps[1..][n - 1] == ps[n];
    }
  }

  lemma NextPlace(dur: Timing, at: Place, p: seq<byte>)
    ensures PlaceAfter(dur, at, [p]) == if p == [] then at else Next(at, dur(p))
  {
    assert [p][..0] == [];
  }

  lemma TailFront(page: Paging, dur: Timing, at: Place, ps: seq<seq<byte>>)
    requires ps != [] && ps[0] != []
    ensures Tail(page, dur, at, ps) == page(MetaAt(dur, at, ps[0]), ps[0]) + Tail(page, dur, Next(at, dur(ps[0])), ps[1..])
  {
    NextPlace(dur, at, ps[0]);
    assert ps[..1] == [ps[0]];
    FromTheFront(page, dur, at, ps);
  }

  /** What ReadsBack says of one page. */
  lemma OneReadsBack(sum: Summing, page: Paging, m: Meta, p: seq<byte>, rest: seq<byte>, held: seq<byte>)
    requires ReadsBack(sum, page) && MetaFits(m) && |p| <= 255 * 255
    ensures Streamed(sum, page(m, p) + rest, held)
         == if Unterminated(|p|) then Streamed(sum, rest, held + p) else [held + p] + Streamed(sum, rest, [])
    ensures Ending(sum, page(m, p) + rest) == Ending(sum, rest)
  {
  }

  lemma {:induction false} TailStreams(sum: Summing, page: Paging, dur: Timing, at: Place, ps: seq<seq<byte>>, held: seq<byte>)
    requires ReadsBack(sum, page)
    requires PlaceFits(at) && Fits(ps) && (forall i :: 0 <= i < |ps| ==> ps[i] != [])
    ensures Streamed(sum, Tail(page, dur, at, ps), held) == Merged(ps, held)
    ensures Ending(sum, Tail(page, dur, at, ps)) == Eof
    decreases |ps|
  {
    if ps == [] {
      EndStreams(sum, page, at, held);
      assert Tail(page, dur, at, ps) == LastPage(page, at);
    } else {
      var next := Next(at, dur(ps[0]));
      TailFront(page, dur, at, ps);
      FieldsFit(0, Wrap64(at.granule + dur(ps[0])), at.serial, at.index);
      OneReadsBack(sum, page, MetaAt(dur, at, ps[0]), ps[0], Tail(page, dur, next, ps[1..]), held);
      TailStreams(sum, page, dur, next, ps[1..], if Unterminated(|ps[0]|) then held + ps[0] else []);
    }
  }

  /** And of its identification page. */
  ghost predicate Identifies(sum: Summing, page: Paging) {
    forall m, head: seq<byte>, rest
      {:trigger OpensWith(sum, page(m, head) + rest)} ::
      MetaFits(m) && m.headerType == 2 && IdPayloadFits(head) && |head| <= 255 * 255 ==>
      OpensWith(sum, page(m, head) + rest) && Parse(sum, page(m, head) + rest).rest == rest
  }

  lemma PagesIdentify(sum: Summing)
    ensures Identifies(sum, PagesBy(sum))
  {
    forall m, head: seq<byte>, rest
      | MetaFits(m) && m.headerType == 2 && IdPayloadFits(head) && |head| <= 255 * 255
      ensures OpensWith(sum, PagesBy(sum)(m, head) + rest) && Parse(sum, PagesBy(sum)(m, head) + rest).rest == rest
    {
      PageRoundTrip(sum, m, head, rest);
      Capture(sum, m, head, rest);
    }
  }

  /** What a recorded file streams as: the comment header, then the packets, unterminated ones run together. */
  lemma FileStreams(sum: Summing, page: Paging, dur: Timing, serial: nat, head: seq<byte>, ps: seq<seq<byte>>)
    requires ReadsBack(sum, page) && Identifies(sum, page)
    requires serial < 0x1_0000_0000 && IdPayloadFits(head) && |head| <= 255 * 255
    requires Fits(ps) && (forall i :: 0 <= i < |ps| ==> ps[i] != [])
    ensures var file := File(page, dur, serial, head, ps);
            && OpensWith(sum, file)
            && Streamed(sum, Parse(sum, file).rest, []) == [TagsPayload()] + Merged(ps, [])
            && Ending(sum, Parse(sum, file).rest) == Eof
  {
    var first := Meta(2, 0, serial, 0);
    var rest := BodyOf(page, dur, serial, ps);
    FieldsFit(2, 0, serial, 0);
    FileIs(page, dur, serial, head, ps);
    BodyStreams(sum, page, dur, serial, ps);
    assert OpensWith(sum, page(first, head) + rest);
  }

  lemma FileIs(page: Paging, dur: Timing, serial: nat, head: seq<byte>, ps: seq<seq<byte>>)
    ensures File(page, dur, serial, head, ps) == page(Meta(2, 0, serial, 0), head) + BodyOf(page, dur, serial, ps)
  {
  }

  /** All of a file but its identification page. */
  function BodyOf(page: Paging, dur: Timing, serial: nat, ps: seq<seq<byte>>): seq<byte> {
    page(Meta(0, 0, serial, Wrap32(1)), TagsPayload()) + Tail(page, dur, Begin(serial), ps)
  }

  lemma BodyStreams(sum: Summing, page: Paging, dur: Timing, serial: nat, ps: seq<seq<byte>>)
    requires ReadsBack(sum, page) && serial < 0x1_0000_0000
    requires Fits(ps) && (forall i :: 0 <= i < |ps| ==> ps[i] != [])
    ensures Streamed(sum, BodyOf(page, dur, serial, ps), []) == [TagsPayload()] + Merged(ps, [])
    ensures Ending(sum, BodyOf(page, dur, serial, ps)) == Eof
  {
    var m, rest := Meta(0, 0, serial, Wrap32(1)), Tail(page, dur, Begin(serial), ps);
    FieldsFit(0, 0, serial, Wrap32(1));
    TailStreams(sum, page, dur, Begin(serial), ps, []);
    OneReadsBack(sum, page, m, TagsPayload(), rest, []);
    NothingHeld(TagsPayload(), Merged(ps, []));
  }

  lemma NothingHeld(p: seq<byte>, more: seq<seq<byte>>)
    ensures [[] + p] + more == [p] + more
    ensures |p| < 255 ==> !Unterminated(|p|)
  {
    assert [] + p == p;
  }

  /** A page begins with the capture pattern. */
  lemma Capture(sum: Summing, m: Meta, p: seq<byte>, rest: seq<byte>)
    ensures (PagesBy(sum)(m, p) + rest)[..4] == ['O' as byte, 'g' as byte, 'g' as byte, 'S' as byte]
  {
    assert (PagesBy(sum)(m, p) + rest)[..4] == Prefix(m)[..4];
  }

  // ---- exactly when ----------------------------------------------------

  predicate Sendable(ps: seq<seq<byte>>) {
    forall i :: 0 <= i < |ps| ==> !Skipped(ps[i])
  }

  /** No packet but the last is an exact multiple of 255 octets. */
  predicate Separable(ps: seq<seq<byte>>) {
    forall i :: 0 <= i < |ps| - 1 ==> |ps[i]| % 255 != 0
  }

  lemma {:induction false} KeptAll(ps: seq<seq<byte>>)
    requires Sendable(ps)
    ensures Kept(ps) == ps
  {
    if ps != [] {
      KeptAll(ps[1..]);
      assert [ps[0]] + ps[1..] == ps;
    }
  }

  lemma {:induction false} SeparableKeeps(ps: seq<seq<byte>>)
    requires Sendable(ps) && Separable(ps)
    ensures Kept(Merged(ps, [])) == ps
  {
    if ps != [] {
      var p := ps[0];
      assert [] + p == p && [p] + ps[1..] == ps;
      if |p| % 255 == 0 {
        assert ps[1..] == [];
        assert Kept(Merged(ps, [])) == Kept([p]);
      } else {
        SeparableKeeps(ps[1..]);
        KeptJoins([p], Merged(ps[1..], []));
        KeptAll([p]);
      }
    }
  }

  lemma {:induction false} KeptShrinks(ps: seq<seq<byte>>)
    ensures |Kept(ps)| <= |ps|
  {
    if ps != [] {
      KeptShrinks(ps[1..]);
    }
  }

  /** Each packet run into a successor is one packet fewer. */
  lemma {:induction false} MergedLoses(ps: seq<seq<byte>>, held: seq<byte>)
    requires Sendable(ps)
    ensures |Kept(Merged(ps, held))| <= |ps| + if held == [] then 0 else 1
    ensures !Separable(ps) || (ps != [] && held != []) ==> |Kept(Merged(ps, held))| <= |ps|
    ensures !Separable(ps) && held == [] ==> |Kept(Merged(ps, held))| < |ps|
  {
    if ps == [] {
      KeptShrinks([held]);
    } else if Unterminated(|ps[0]|) {
      MergedLoses(ps[1..], held + ps[0]);
    } else {
      MergedLoses(ps[1..], []);
      KeptJoins([held + ps[0]], Merged(ps[1..], []));
      KeptShrinks([held + ps[0]]);
    }
  }

  /** A recording is streamed back packet for packet exactly when only its last packet may be a multiple of 255. */
  lemma RecordingStreamsIff(sum: Summing, dur: Timing, serial: nat, head: seq<byte>, ps: seq<seq<byte>>)
    requires serial < 0x1_0000_0000 && IdPayloadFits(head) && |head| <= 255 * 255
    requires Fits(ps) && Sendable(ps)
    ensures var file := File(PagesBy(sum), dur, serial, head, ps);
            && OpensWith(sum, file) && Ending(sum, Parse(sum, file).rest) == Eof
            && (Kept(Streamed(sum, Parse(sum, file).rest, [])) == ps <==> Separable(ps))
  {
    PagesReadBack(sum);
    PagesIdentify(sum);
    FileStreams(sum, PagesBy(sum), dur, serial, head, ps);
    KeptJoins([TagsPayload()], Merged(ps, []));
    TagsAreSkipped();
    assert [] + Kept(Merged(ps, [])) == Kept(Merged(ps, []));
    if Separable(ps) {
      SeparableKeeps(ps);
    } else {
      MergedLoses(ps, []);
    }
  }

  lemma TagsAreSkipped()
    ensures Kept([TagsPayload()]) == []
  {
    var ps := [TagsPayload()];
    assert ps[1..] == [];
  }

  /** The writer's granule and the streamer's timestamp both count the packets' samples. */
  lemma {:induction false} GranuleCountsSamples(dur: Timing, at: Place, ps: seq<seq<byte>>)
    requires Sendable(ps) && at.granule < 0x1_0000_0000_0000_0000
    ensures PlaceAfter(dur, at, ps).granule == Wrap64(at.granule + Ticks(dur, ps))
  {
    if ps != [] {
      GranuleCountsSamples(dur, at, ps[..|ps| - 1]);
      Wrap64Onward(at.granule + Ticks(dur, ps[..|ps| - 1]), dur(ps[|ps| - 1]));
    }
  }
}
