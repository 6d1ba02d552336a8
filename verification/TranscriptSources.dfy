/** What gets into the handshake cache: a side's own messages, and what is popped off reassembly. */
module TranscriptSources {
  import opened Bytes
  import opened DtlsHeaders
  import opened HandshakeFragments
  import opened HandshakeTranscript
  import Counters = FragmentCounters
  import Delivery = HandshakeDelivery
  import Panics = FragmentPanics

  // ---- filing ----------------------------------------------------------

  /** A popped message is filed under what its own header says, if there is one. */
  function Filed(content: seq<byte>, epoch: nat, isClient: bool): seq<Item> {
    match Unmarshal(content)
    case None => []
    case Some(h) => [Item(h.typ, isClient, epoch, h.messageSeq, content)]
  }

  /** The loop after a push: pop until nothing comes, filing each message. */
  function FileAll(st: State, isClient: bool): (State, seq<Item>)
    decreases |st.cache|
  {
    var (st', r) := PopSpec(st);
    if r.Message? && |st'.cache| < |st.cache| then
      var (st'', rest) := FileAll(st', isClient);
      (st'', Filed(r.content, r.epoch, isClient) + rest)
    else (st', [])
  }

  lemma FileAllSteps(st: State, isClient: bool)
    ensures var (st', r) := PopSpec(st);
            if r.Message? then
              && |st'.cache| < |st.cache|
              && FileAll(st, isClient) == (FileAll(st', isClient).0, Filed(r.content, r.epoch, isClient) + FileAll(st', isClient).1)
            else FileAll(st, isClient) == (st', []) && st' == st
  {
    if PopSpec(st).1.Message? {
      Delivery.PoppedShrinks(st);
    }
  }

  method FileOne(cache: HandshakeCache, content: seq<byte>, epoch: nat, isClient: bool)
    modifies cache
    ensures cache.cache == old(cache.cache) + Filed(content, epoch, isClient)
  {
    var header := Unmarshal(content);
    if header.Some? {
      cache.Push(content, epoch, header.value.messageSeq, header.value.typ, isClient);
    }
  }

  /** What is filed already and what is to come make up all of it. */
  predicate Remains(all: (State, seq<Item>), was: seq<Item>, now: seq<Item>, st: State, isClient: bool) {
    all.0 == FileAll(st, isClient).0 && now + FileAll(st, isClient).1 == was + all.1
  }

  lemma RemainsLess(all: (State, seq<Item>), was: seq<Item>, now: seq<Item>, st: State, isClient: bool)
    requires Remains(all, was, now, st, isClient) && PopSpec(st).1.Message?
    ensures var (st', r) := PopSpec(st);
            |st'.cache| < |st.cache| && Remains(all, was, now + Filed(r.content, r.epoch, isClient), st', isClient)
  {
    FileAllSteps(st, isClient);
    var (st', r) := PopSpec(st);
    Regrouped(now, Filed(r.content, r.epoch, isClient), FileAll(st', isClient).1);
  }

  method FileMessages(buffer: FragmentBuffer, cache: HandshakeCache, isClient: bool) returns (panics: bool)
    modifies buffer, cache
    ensures buffer.View() == FileAll(old(buffer.View()), isClient).0
    ensures cache.cache == old(cache.cache) + FileAll(old(buffer.View()), isClient).1
    ensures panics <==> PopSpec(buffer.View()).1.NilDereference?
  {
    ghost var st := buffer.View();
    ghost var all := FileAll(st, isClient);
    var r := buffer.Pop();
    while r.Message?
      invariant (buffer.View(), r) == PopSpec(st)
      invariant Remains(all, old(cache.cache), cache.cache, st, isClient)
      decreases |st.cache|
    {
      RemainsLess(all, old(cache.cache), cache.cache, st, isClient);
      FileOne(cache, r.content, r.epoch, isClient);
      st := buffer.View();
      r := buffer.Pop();
    }
    FileAllSteps(st, isClient);
    assert cache.cache + [] == cache.cache;
    return r.NilDereference?;
  }

  // ---- whole runs of one side ------------------------------------------

  /** One side of the handshake: it sends a message, or a record reaches it. */
  datatype Event = Sent(m: Msg, messageSeq: nat) | Record(buf: seq<byte>)

  /** A side files its own message unfragmented. */
  function SentItem(m: Msg, messageSeq: nat, isClient: bool): Item {
    Item(m.typ, isClient, m.epoch, messageSeq, Delivery.Whole(m, messageSeq))
  }

  function Take(st: State, isClient: bool, e: Event): (State, seq<Item>) {
    match e
    case Sent(m, messageSeq) => (st, [SentItem(m, messageSeq, isClient)])
    case Record(buf) =>
      var (st', r) := PushSpec(st, buf);
      if r.Pushed? then FileAll(st', !isClient) else (st', [])
  }

  /** The cache a side fills from its fragment buffer's state on. */
  function Cached(st: State, isClient: bool, events: seq<Event>): seq<Item>
    decreases |events|
  {
    if events == [] then []
    else
      var (st', items) := Take(st, isClient, events[0]);
      items + Cached(st', isClient, events[1..])
  }

  // ---- whatever the records: items have the type they are filed under --

  predicate Typed(items: seq<Item>) {
    forall i :: 0 <= i < |items| ==> |items[i].data| >= HANDSHAKE_HEADER && items[i].data[0] == items[i].typ
  }

  /** These items, filed in this order. */
  predicate FiledAs(items: seq<Item>, contents: seq<seq<byte>>) {
    |items| == |contents| && forall i :: 0 <= i < |items| ==> items[i].data == contents[i]
  }

  lemma FiledIsTyped(st: State, isClient: bool)
    requires PopSpec(st).1.Message?
    ensures var r := PopSpec(st).1; Typed(Filed(r.content, r.epoch, isClient)) && FiledAs(Filed(r.content, r.epoch, isClient), [r.content])
  {
  }

  lemma DrainSteps(st: State)
    ensures var (st', r) := PopSpec(st);
            Delivery.Drain(st) == if r.Message? then (Delivery.Drain(st').0, [r.content] + Delivery.Drain(st').1) else (st', [])
  {
    if PopSpec(st).1.Message? {
      Delivery.PoppedShrinks(st);
    }
  }

  lemma {:induction false} FilesAsDrained(st: State, isClient: bool)
    ensures FileAll(st, isClient).0 == Delivery.Drain(st).0
    ensures Typed(FileAll(st, isClient).1) && FiledAs(FileAll(st, isClient).1, Delivery.Drain(st).1)
    decreases |st.cache|
  {
    FileAllSteps(st, isClient);
    DrainSteps(st);
    if PopSpec(st).1.Message? {
      FiledIsTyped(st, isClient);
      FilesAsDrained(PopSpec(st).0, isClient);
    }
  }

  lemma {:induction false} CacheIsTyped(st: State, isClient: bool, events: seq<Event>)
    ensures Typed(Cached(st, isClient, events))
    decreases |events|
  {
    if events != [] {
      var e := events[0];
      if e.Record? {
        FilesAsDrained(PushSpec(st, e.buf).0, !isClient);
      }
      CacheIsTyped(Take(st, isClient, e).0, isClient, events[1..]);
    }
  }

  // ---- genuine records: items are whole messages -----------------------

  /** The other side's flight goes out in records of its pieces; a side's own messages are of that kind, too. */
  ghost predicate Genuine(fl: seq<Msg>, e: Event) {
    match e
    case Sent(m, messageSeq) => GoodMsg(m) && messageSeq < 0x1_0000
    case Record(buf) => exists a :: Delivery.Genuine(fl, a) && buf == RecordOf(fl[a.i], a.i, a.j, a.sequence)
  }

  lemma WholeMessage(m: Msg, s: nat)
    requires GoodMsg(m) && s < 0x1_0000
    ensures Delimited(Delivery.Whole(m, s)) && Delivery.Whole(m, s)[0] == m.typ
  {
    WholeIsDelimited(HandshakeHeader(m.typ, |Body(m)|, s, 0, |Body(m)|), Body(m));
  }

  lemma {:induction false} WholesAreDelimited(fl: seq<Msg>, from: nat, to: nat)
    requires Delivery.GoodFlight(fl) && from <= to <= |fl|
    ensures AllDelimited(Delivery.Wholes(fl, from, to))
    decreases |fl| - from
  {
    if from < to {
      WholeMessage(fl[from], from);
      WholesAreDelimited(fl, from + 1, to);
    }
  }

  lemma FiledAreWhole(items: seq<Item>, contents: seq<seq<byte>>)
    requires Typed(items) && FiledAs(items, contents) && AllDelimited(contents)
    ensures WellCached(items)
  {
    forall i | 0 <= i < |items| ensures Delimited(items[i].data) {
      assert Delimited(contents[i]);
    }
  }

  lemma RecordIsWhole(fl: seq<Msg>, st: State, got: Delivery.Got, isClient: bool, buf: seq<byte>) returns (got': Delivery.Got)
    requires Delivery.GoodFlight(fl) && Delivery.RoomFor(fl) && Delivery.Inv(fl, st, got) && Genuine(fl, Record(buf))
    ensures Delivery.Inv(fl, Take(st, isClient, Record(buf)).0, got')
    ensures WellCached(Take(st, isClient, Record(buf)).1)
  {
    var a :| Delivery.Genuine(fl, a) && buf == RecordOf(fl[a.i], a.i, a.j, a.sequence);
    got' := got + {(a.i, a.j)};
    Delivery.RecordPushes(fl, st, got, a);
    Delivery.FileKeepsInv(fl, st, got, a.i, a.j);
    var st' := PushSpec(st, buf).0;
    Delivery.DrainIsExact(fl, st', got');
    FilesAsDrained(st', !isClient);
    WholesAreDelimited(fl, st'.current, Delivery.Drain(st').0.current);
    FiledAreWhole(FileAll(st', !isClient).1, Delivery.Drain(st').1);
  }

  lemma {:induction false} CacheIsWhole(fl: seq<Msg>, st: State, got: Delivery.Got, isClient: bool, events: seq<Event>)
    requires Delivery.GoodFlight(fl) && Delivery.RoomFor(fl) && Delivery.Inv(fl, st, got)
    requires forall i :: 0 <= i < |events| ==> Genuine(fl, events[i])
    ensures WellCached(Cached(st, isClient, events))
    decreases |events|
  {
    if events != [] {
      var e := events[0];
      assert Genuine(fl, e);
      var got' := got;
      if e.Record? {
        got' := RecordIsWhole(fl, st, got, isClient, e.buf);
      } else {
        WholeMessage(e.m, e.messageSeq);
      }
      CacheIsWhole(fl, Take(st, isClient, e).0, got', isClient, events[1..]);
    }
  }

  /** Records of one flight in any order and any number, own messages in between: every item is a whole message. */
  lemma GenuineIsWellCached(fl: seq<Msg>, isClient: bool, events: seq<Event>)
    requires Delivery.GoodFlight(fl) && Delivery.RoomFor(fl)
    requires forall i :: 0 <= i < |events| ==> Genuine(fl, events[i])
    ensures WellCached(Cached(EMPTY, isClient, events))
  {
    Delivery.EmptyInv(fl);
    CacheIsWhole(fl, EMPTY, {}, isClient, events);
  }

  /** So two sides that heard each other's records and agree on Finished hold one transcript. */
  lemma GenuineTranscript(serverFlight: seq<Msg>, clientFlight: seq<Msg>, atClient: seq<Event>, atServer: seq<Event>,
                          recvSeq: nat, epoch: nat, vd: VerifyData, readable: seq<byte> -> bool)
    requires Delivery.GoodFlight(serverFlight) && Delivery.RoomFor(serverFlight)
    requires Delivery.GoodFlight(clientFlight) && Delivery.RoomFor(clientFlight)
    requires forall i :: 0 <= i < |atClient| ==> Genuine(serverFlight, atClient[i])
    requires forall i :: 0 <= i < |atServer| ==> Genuine(clientFlight, atServer[i])
    requires Injective(vd) && AcceptsFinished(Cached(EMPTY, true, atClient), recvSeq, epoch, vd, readable)
    requires PullOne(Cached(EMPTY, true, atClient), Rule(FINISHED, epoch + 1, false)).value.data[HANDSHAKE_HEADER..]
             == vd(Merged(Cached(EMPTY, false, atServer), TranscriptRules(epoch)))
    ensures Messages(Pulled(Cached(EMPTY, true, atClient), TranscriptRules(epoch)))
         == Messages(Pulled(Cached(EMPTY, false, atServer), TranscriptRules(epoch)))
  {
    GenuineIsWellCached(serverFlight, true, atClient);
    GenuineIsWellCached(clientFlight, false, atServer);
    WellCachedPullsWhole(Cached(EMPTY, true, atClient), epoch);
    WellCachedPullsWhole(Cached(EMPTY, false, atServer), epoch);
    SameTranscript(Cached(EMPTY, true, atClient), Cached(EMPTY, false, atServer), recvSeq, epoch, vd, readable);
  }

  // ---- whatever the records: what the flights have parsed is whole -----

  /** Items a flight has unmarshalled, and own ones, are all the transcript theorems ask for. */
  lemma ParsedPullsWhole(cache: seq<Item>, epoch: nat, readable: seq<byte> -> bool)
    requires Typed(cache)
    requires forall r :: r in TranscriptRules(epoch) && PullOne(cache, r).Some? ==>
               var d := PullOne(cache, r).value.data; Unmarshals(d, readable) || Delimited(d)
    ensures PulledWhole(cache, epoch)
  {
    var rules := TranscriptRules(epoch);
    forall i | 0 <= i < 10 && PullOne(cache, rules[i]).Some?
      ensures var d := PullOne(cache, rules[i]).value.data; Delimited(d) && d[0] == Tag(i)
    {
      assert rules[i] in rules;
      var k: nat :| Answers(cache, rules[i], k) && cache[k] == PullOne(cache, rules[i]).value;
    }
  }

  // ---- what reassembly hands on need not be whole ----------------------

  predicate AllFit(hs: seq<HandshakeHeader>) {
    forall i :: 0 <= i < |hs| ==> Fits(hs[i])
  }

  predicate LogFits(log: Panics.Log) {
    forall s :: s in log ==> AllFit(log[s])
  }

  lemma {:induction false} HeadersFit(buf: seq<byte>)
    ensures AllFit(Panics.Headers(buf))
    decreases |buf|
  {
    var h := Unmarshal(buf);
    if h.Some? && HANDSHAKE_HEADER + h.value.fragLength <= |buf| {
      HeadersFit(buf[HANDSHAKE_HEADER + h.value.fragLength..]);
    }
  }

  lemma {:induction false} NotesFit(log: Panics.Log, current: nat, hs: seq<HandshakeHeader>)
    requires LogFits(log) && AllFit(hs)
    ensures LogFits(Panics.NoteAll(log, current, hs))
    decreases |hs|
  {
    if hs != [] {
      NotesFit(Panics.Note(log, current, hs[0]), current, hs[1..]);
    }
  }

  lemma {:induction false} LogAlwaysFits(events: seq<Counters.Event>)
    ensures LogFits(Panics.LogOf(events))
  {
    if events != [] {
      var n := |events| - 1;
      LogAlwaysFits(events[..n]);
      if events[n].Push? && Counters.Run(events[..n]).Running? {
        var st := Counters.Run(events[..n]).st;
        if |events[n].buf| >= RECORD_HEADER {
          HeadersFit(events[n].buf[RECORD_HEADER..]);
        }
        NotesFit(Panics.LogOf(events[..n]), st.current, Panics.Taken(st, events[n].buf));
      }
    }
  }

  /** The first fragment heard at offset nought. */
  predicate Leads(hs: seq<HandshakeHeader>, i: nat) {
    i < |hs| && hs[i].offset == 0 && Panics.Filed(hs, i)
  }

  lemma HeaderSpans(h: HandshakeHeader, body: seq<byte>)
    requires Fits(h)
    ensures Delimited(Marshal(h) + body) <==> h.length == |body|
  {
    HeaderRoundTrip(h, body);
  }

  /**
    After any records, pushed and popped in any order: a popped message is whole exactly if the
    length heard first is the one the fragment at its start announced.
   */
  lemma PoppedIsWholeIff(events: seq<Counters.Event>) returns (i: nat)
    requires Counters.Run(events).Running? && PopSpec(Counters.Run(events).st).1.Message?
    ensures var st, log := Counters.Run(events).st, Panics.LogOf(events);
            && st.current in log && Leads(log[st.current], i)
            && (Delimited(PopSpec(st).1.content) <==> log[st.current][i].length == log[st.current][0].length)
  {
    var st, log := Counters.Run(events).st, Panics.LogOf(events);
    Panics.LogTells(events);
    LogAlwaysFits(events);
    var fs, hs := st.cache[st.current], log[st.current];
    i :| 0 <= i < |hs| && Panics.Filed(hs, i) && hs[i].offset == 0;
    var h := fs.byOffset[0].header;
    assert h == hs[i] && Fits(h);
    HeaderSpans(h.(offset := 0, fragLength := h.length), Assemble(fs, 0, 0, []).value);
  }

  /** One record around one fragment, whatever its header says. */
  function RecordAround(h: HandshakeHeader, piece: seq<byte>, epoch: nat, sequence: nat): seq<byte> {
    MarshalRecord(RecordHeader(CONTENT_HANDSHAKE, 0xfe, 0xfd, epoch, sequence, (HANDSHAKE_HEADER + |piece|) % 0x1_0000))
    + (Marshal(h) + piece)
  }

  lemma AroundPushes(st: State, h: HandshakeHeader, piece: seq<byte>, epoch: nat, sequence: nat)
    requires Fits(h) && h.fragLength == |piece| && epoch < 0x1_0000 && sequence < 0x1_0000_0000_0000
    requires st.totalSize + |piece| < 1_999_000 && st.totalCount < MAX_COUNT
    ensures var (st', r) := PushSpec(st, RecordAround(h, piece, epoch, sequence));
            r.Pushed? && st' == File(st, epoch, h, piece)
  {
    var rh := RecordHeader(CONTENT_HANDSHAKE, 0xfe, 0xfd, epoch, sequence, (HANDSHAKE_HEADER + |piece|) % 0x1_0000);
    RecordRoundTrip(rh, Marshal(h) + piece);
    assert RecordAround(h, piece, epoch, sequence)[RECORD_HEADER..] == Marshal(h) + piece;
    Delivery.PushOne(st, epoch, h, piece);
  }

  /** The end of a message heard first, then its start under another length. */
  function EndFirst(typ: byte, x: seq<byte>, y: seq<byte>): HandshakeHeader {
    HandshakeHeader(typ, |x| + |y|, 0, |x|, |y|)
  }

  function StartOf(typ: byte, length: nat, x: seq<byte>): HandshakeHeader {
    HandshakeHeader(typ, length, 0, 0, |x|)
  }

  lemma EndWaits(typ: byte, x: seq<byte>, y: seq<byte>, epoch: nat)
    requires x != []
    ensures PopSpec(File(EMPTY, epoch, EndFirst(typ, x, y), y)).1.Nothing?
  {
  }

  lemma BothPop(typ: byte, length: nat, x: seq<byte>, y: seq<byte>, epoch: nat)
    requires x != [] && length != |x| + |y|
    ensures var st := File(File(EMPTY, epoch, EndFirst(typ, x, y), y), epoch, StartOf(typ, length, x), x);
            && PopSpec(st).1 == Message(Marshal(HandshakeHeader(typ, length, 0, 0, length)) + (x + y), epoch)
            && PopSpec(st).0.cache == map[]
  {
    var a, b := EndFirst(typ, x, y), StartOf(typ, length, x);
    var fs := Fragments(map[|x| := Fragment(epoch, a, y), 0 := Fragment(epoch, b, x)], |y| + |x|, |x| + |y|);
    var st := File(File(EMPTY, epoch, a, y), epoch, b, x);
    assert st.cache == map[0 := fs];
    assert |fs.byOffset| == 2;
    assert [] + x == x;
    assert Assemble(fs, 0, 0, []) == Assemble(fs, |x|, 1, x);
    if y == [] {
      assert x + y == x;
    } else {
      assert Assemble(fs, |x|, 1, x) == Assemble(fs, |x| + |y|, 2, x + y);
    }
  }

  lemma CachedOfTwo(st: State, isClient: bool, e0: Event, e1: Event)
    ensures var (st', items) := Take(st, isClient, e0);
            Cached(st, isClient, [e0, e1]) == items + Take(st', isClient, e1).1
  {
    assert [e0, e1][1..] == [e1] && [e1][1..] == [];
    var (st', _) := Take(st, isClient, e0);
    assert Cached(st', isClient, [e1]) == Take(st', isClient, e1).1 + [];
  }

  lemma FilesOne(st: State, content: seq<byte>, epoch: nat, isClient: bool)
    requires PopSpec(st).1 == Message(content, epoch) && PopSpec(st).0.cache == map[]
    ensures FileAll(st, isClient).1 == Filed(content, epoch, isClient)
  {
    FileAllSteps(st, isClient);
    FileAllSteps(PopSpec(st).0, isClient);
  }

  /** Two records make reassembly hand on, and the cache file, octets under a header telling any other length. */
  lemma MislabelledIsHandedOn(typ: byte, length: nat, x: seq<byte>, y: seq<byte>, epoch: nat, isClient: bool)
    requires x != [] && |x| + |y| < 1_000_000 && length < 0x100_0000 && length != |x| + |y| && epoch < 0x1_0000
    ensures var events := [Record(RecordAround(EndFirst(typ, x, y), y, epoch, 0)),
                           Record(RecordAround(StartOf(typ, length, x), x, epoch, 1))];
            var d := Marshal(HandshakeHeader(typ, length, 0, 0, length)) + (x + y);
            Cached(EMPTY, isClient, events) == [Item(typ, !isClient, epoch, 0, d)] && !Delimited(d)
  {
    var a, b, h := EndFirst(typ, x, y), StartOf(typ, length, x), HandshakeHeader(typ, length, 0, 0, length);
    var st := File(EMPTY, epoch, a, y);
    AroundPushes(EMPTY, a, y, epoch, 0);
    EndWaits(typ, x, y, epoch);
    FileAllSteps(st, !isClient);
    AroundPushes(st, b, x, epoch, 1);
    BothPop(typ, length, x, y, epoch);
    FilesOne(File(st, epoch, b, x), Marshal(h) + (x + y), epoch, !isClient);
    HeaderRoundTrip(h, x + y);
    HeaderSpans(h, x + y);
    CachedOfTwo(EMPTY, isClient, Record(RecordAround(a, y, epoch, 0)), Record(RecordAround(b, x, epoch, 1)));
  }
}
