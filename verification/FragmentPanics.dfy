/** When pop dereferences nil, told from the fragments a buffer was given rather than from what it holds. */
module FragmentPanics {
  import opened Bytes
  import opened DtlsHeaders
  import opened HandshakeFragments
  import opened FragmentCounters

  /** The headers of the whole fragments at the front of a record's body. */
  function Headers(buf: seq<byte>): seq<HandshakeHeader>
    decreases |buf|
  {
    if buf == [] then []
    else match Unmarshal(buf)
      case None => []
      case Some(h) =>
        var end := HANDSHAKE_HEADER + h.fragLength;
        if end > |buf| then [] else [h] + Headers(buf[end..])
  }

  /** What a buffer in this state takes in of a record. */
  function Taken(st: State, buf: seq<byte>): seq<HandshakeHeader> {
    var record := UnmarshalRecord(buf);
    if st.totalSize + |buf| >= MAX_SIZE || st.totalCount >= MAX_COUNT
       || record.None? || record.value.contentType != CONTENT_HANDSHAKE
    then []
    else Headers(buf[RECORD_HEADER..])
  }

  /** Message by message, the headers heard of it so far, in order. */
  type Log = map<nat, seq<HandshakeHeader>>

  function Note(log: Log, current: nat, h: HandshakeHeader): Log {
    if h.messageSeq < current then log
    else log[h.messageSeq := (if h.messageSeq in log then log[h.messageSeq] else []) + [h]]
  }

  function NoteAll(log: Log, current: nat, hs: seq<HandshakeHeader>): Log
    decreases |hs|
  {
    if hs == [] then log else NoteAll(Note(log, current, hs[0]), current, hs[1..])
  }

  /** The log of a run: what was heard of each message not yet popped. */
  function LogOf(events: seq<Event>): Log {
    if events == [] then map[]
    else
      var n := |events| - 1;
      var log, before := LogOf(events[..n]), Run(events[..n]);
      if before.Panicked? then log
      else match events[n]
        case Push(buf) => NoteAll(log, before.st.current, Taken(before.st, buf))
        case Pop => if PopSpec(before.st).1.Message? then log - {before.st.current} else log
  }

  /** The first fragment heard at its offset is the one that is filed. */
  predicate Filed(hs: seq<HandshakeHeader>, i: nat)
    requires i < |hs|
  {
    forall j :: 0 <= j < i ==> hs[j].offset != hs[i].offset
  }

  /** The first header announced no octets, and every fragment filed is empty and not at offset zero. */
  predicate OnlyBlanks(hs: seq<HandshakeHeader>) {
    && hs != [] && hs[0].length == 0
    && forall i :: 0 <= i < |hs| && Filed(hs, i) ==> hs[i].fragLength == 0 && hs[i].offset != 0
  }

  // ---- the log tells what is held --------------------------------------

  ghost predicate Recorded(fs: Fragments, hs: seq<HandshakeHeader>) {
    && hs != [] && fs.handshakeLength == hs[0].length
    && (forall i :: 0 <= i < |hs| ==> hs[i].offset in fs.byOffset)
    && (forall i :: 0 <= i < |hs| && Filed(hs, i) ==> fs.byOffset[hs[i].offset].header == hs[i])
    && (forall o :: o in fs.byOffset ==> exists i :: 0 <= i < |hs| && Filed(hs, i) && hs[i].offset == o)
  }

  ghost predicate Tells(log: Log, cache: map<nat, Fragments>) {
    && log.Keys == cache.Keys
    && forall s :: s in log ==> Recorded(cache[s], log[s])
  }

  lemma FiledInPrefix(hs: seq<HandshakeHeader>, h: HandshakeHeader)
    ensures forall i :: 0 <= i < |hs| ==> Filed(hs + [h], i) == Filed(hs, i)
  {
    var more := hs + [h];
    forall i | 0 <= i < |hs|
      ensures Filed(more, i) == Filed(hs, i)
    {
      assert forall j :: 0 <= j <= i ==> more[j] == hs[j];
    }
  }

  lemma RecordsOneMore(fs: Fragments, hs: seq<HandshakeHeader>, h: HandshakeHeader, f: Fragment)
    requires Recorded(fs, hs) && f.header == h
    ensures h.offset in fs.byOffset ==> Recorded(fs, hs + [h])
    ensures h.offset !in fs.byOffset ==>
              Recorded(fs.(byOffset := fs.byOffset[h.offset := f], fragmentsLength := fs.fragmentsLength + h.fragLength), hs + [h])
  {
    var more := hs + [h];
    FiledInPrefix(hs, h);
    if h.offset in fs.byOffset {
      var k :| 0 <= k < |hs| && Filed(hs, k) && hs[k].offset == h.offset;
      assert more[k].offset == h.offset && !Filed(more, |hs|);
      forall o | o in fs.byOffset
        ensures exists i :: 0 <= i < |more| && Filed(more, i) && more[i].offset == o
      {
        var i :| 0 <= i < |hs| && Filed(hs, i) && hs[i].offset == o;
        assert Filed(more, i) && more[i].offset == o;
      }
    } else {
      assert Filed(more, |hs|);
      var held := fs.byOffset[h.offset := f];
      forall o | o in held
        ensures exists i :: 0 <= i < |more| && Filed(more, i) && more[i].offset == o
      {
        if o == h.offset {
          assert Filed(more, |hs|) && more[|hs|].offset == o;
        } else {
          var i :| 0 <= i < |hs| && Filed(hs, i) && hs[i].offset == o;
          assert Filed(more, i) && more[i].offset == o;
        }
      }
    }
  }

  lemma FirstRecords(h: HandshakeHeader, f: Fragment)
    requires f.header == h
    ensures Recorded(Fragments(map[h.offset := f], h.fragLength, h.length), [h])
  {
    assert Filed([h], 0);
  }

  /** The entry a fragment leaves behind for its message. */
  function EntryAfter(cache: map<nat, Fragments>, h: HandshakeHeader, f: Fragment): Fragments {
    var fs := if h.messageSeq in cache then cache[h.messageSeq] else Fragments(map[], 0, h.length);
    if h.offset in fs.byOffset then fs
    else fs.(byOffset := fs.byOffset[h.offset := f], fragmentsLength := fs.fragmentsLength + h.fragLength)
  }

  lemma EntryRecorded(log: Log, cache: map<nat, Fragments>, h: HandshakeHeader, f: Fragment)
    requires Tells(log, cache) && f.header == h
    ensures Recorded(EntryAfter(cache, h, f), (if h.messageSeq in log then log[h.messageSeq] else []) + [h])
  {
    if h.messageSeq in log {
      RecordsOneMore(cache[h.messageSeq], log[h.messageSeq], h, f);
    } else {
      FirstRecords(h, f);
      assert map[][h.offset := f] == map[h.offset := f] && [] + [h] == [h];
    }
  }

  lemma EntryTells(log: Log, cache: map<nat, Fragments>, s: nat, fs: Fragments, hs: seq<HandshakeHeader>)
    requires Tells(log, cache) && Recorded(fs, hs)
    ensures Tells(log[s := hs], cache[s := fs])
  {
    assert log[s := hs].Keys == log.Keys + {s} == cache[s := fs].Keys;
  }

  lemma FileIsEntry(st: State, epoch: nat, h: HandshakeHeader, data: seq<byte>)
    requires h.messageSeq >= st.current
    ensures File(st, epoch, h, data).cache == st.cache[h.messageSeq := EntryAfter(st.cache, h, Fragment(epoch, h, data))]
  {
  }

  lemma FileTells(log: Log, st: State, epoch: nat, h: HandshakeHeader, data: seq<byte>)
    requires Tells(log, st.cache)
    ensures Tells(Note(log, st.current, h), File(st, epoch, h, data).cache)
    ensures File(st, epoch, h, data).current == st.current
  {
    if h.messageSeq >= st.current {
      var f := Fragment(epoch, h, data);
      var hs := (if h.messageSeq in log then log[h.messageSeq] else []) + [h];
      FileIsEntry(st, epoch, h, data);
      EntryRecorded(log, st.cache, h, f);
      EntryTells(log, st.cache, h.messageSeq, EntryAfter(st.cache, h, f), hs);
    }
  }

  lemma OneFragment(st: State, epoch: nat, buf: seq<byte>, retransmit: bool, log: Log, h: HandshakeHeader)
    requires buf != [] && Unmarshal(buf) == Some(h) && HANDSHAKE_HEADER + h.fragLength <= |buf|
    ensures var end := HANDSHAKE_HEADER + h.fragLength;
            && PushLoop(st, epoch, buf, retransmit)
               == PushLoop(File(st, epoch, h, buf[HANDSHAKE_HEADER..end]), epoch, buf[end..],
                           h.offset == 0 && h.messageSeq < st.current)
            && NoteAll(log, st.current, Headers(buf)) == NoteAll(Note(log, st.current, h), st.current, Headers(buf[end..]))
  {
    assert Headers(buf) == [h] + Headers(buf[HANDSHAKE_HEADER + h.fragLength..]);
  }

  lemma {:induction false} LoopTells(log: Log, st: State, epoch: nat, buf: seq<byte>, retransmit: bool)
    requires Tells(log, st.cache)
    ensures Tells(NoteAll(log, st.current, Headers(buf)), PushLoop(st, epoch, buf, retransmit).0.cache)
    decreases |buf|
  {
    var header := Unmarshal(buf);
    if buf != [] && header.Some? && HANDSHAKE_HEADER + header.value.fragLength <= |buf| {
      var h := header.value;
      var end := HANDSHAKE_HEADER + h.fragLength;
      OneFragment(st, epoch, buf, retransmit, log, h);
      FileTells(log, st, epoch, h, buf[HANDSHAKE_HEADER..end]);
      LoopTells(Note(log, st.current, h), File(st, epoch, h, buf[HANDSHAKE_HEADER..end]), epoch, buf[end..],
                h.offset == 0 && h.messageSeq < st.current);
    }
  }

  lemma {:induction false} LogTells(events: seq<Event>)
    ensures Tells(LogOf(events), Run(events).st.cache)
  {
    if events != [] {
      var n := |events| - 1;
      var log, before := LogOf(events[..n]), Run(events[..n]);
      LogTells(events[..n]);
      if before.Running? && events[n].Push? {
        var buf := events[n].buf;
        var record := UnmarshalRecord(buf);
        if record.Some? {
          LoopTells(log, before.st, record.value.epoch, buf[RECORD_HEADER..], false);
        }
      }
    }
  }

  lemma {:induction false} SumZero<T>(m: map<nat, T>, f: T -> nat)
    ensures Sum(m, f) == 0 <==> forall k :: k in m ==> f(m[k]) == 0
    decreases |m|
  {
    if m != map[] {
      var p := Pick(m);
      assert (m - {p}).Keys == m.Keys - {p};
      SumZero(m - {p}, f);
      if forall k :: k in m - {p} ==> f((m - {p})[k]) == 0 {
        forall k | k in m && k != p
          ensures f(m[k]) == 0
        {
          assert k in m - {p};
        }
      }
    }
  }

  lemma BlankIffOnlyBlanks(fs: Fragments, hs: seq<HandshakeHeader>)
    requires Recorded(fs, hs) && GoodEntry(fs)
    ensures Blank(fs) <==> OnlyBlanks(hs)
  {
    SumZero(fs.byOffset, LengthOf);
    if OnlyBlanks(hs) {
      forall o | o in fs.byOffset
        ensures o != 0 && LengthOf(fs.byOffset[o]) == 0
      {
        var i :| 0 <= i < |hs| && Filed(hs, i) && hs[i].offset == o;
      }
    }
    if Blank(fs) {
      forall i | 0 <= i < |hs| && Filed(hs, i)
        ensures hs[i].fragLength == 0 && hs[i].offset != 0
      {
        assert LengthOf(fs.byOffset[hs[i].offset]) == 0;
      }
    }
  }

  // ---- when a run panics -----------------------------------------------

  /** The run is still going at event i, a pop, and of the message popped only blanks were heard. */
  predicate PanicsAt(events: seq<Event>, i: nat)
    requires i < |events|
  {
    var before, log := Run(events[..i]), LogOf(events[..i]);
    events[i].Pop? && before.Running? && before.st.current in log && OnlyBlanks(log[before.st.current])
  }

  lemma StepPanicsIff(events: seq<Event>)
    requires events != [] && Run(events[..|events| - 1]).Running?
    ensures Run(events).Panicked? <==> PanicsAt(events, |events| - 1)
  {
    var before := events[..|events| - 1];
    LogTells(before);
    CountersNeverDrift(before);
    var st, log := Run(before).st, LogOf(before);
    PopPanicsIff(st);
    assert Run(events) == Next(st, events[|events| - 1]);
    if st.current in st.cache {
      BlankIffOnlyBlanks(st.cache[st.current], log[st.current]);
    }
  }

  /** A run panics exactly if it pops a message of which only blanks were heard. */
  lemma {:induction false} RunPanicsIff(events: seq<Event>)
    ensures Run(events).Panicked? <==> exists i :: 0 <= i < |events| && PanicsAt(events, i)
  {
    if events != [] {
      var n := |events| - 1;
      var before := events[..n];
      RunPanicsIff(before);
      forall i | 0 <= i < n
        ensures PanicsAt(events, i) == PanicsAt(before, i)
      {
        assert events[..i] == before[..i];
      }
      if Run(before).Running? {
        StepPanicsIff(events);
      }
    }
  }

  // ---- told from the records alone -------------------------------------

  predicate IsBlank(h: HandshakeHeader) {
    h.length == 0 && h.fragLength == 0 && h.offset != 0
  }

  predicate CarriesBlank(e: Event) {
    e.Push? && |e.buf| >= RECORD_HEADER && exists i :: 0 <= i < |Headers(e.buf[RECORD_HEADER..])| && IsBlank(Headers(e.buf[RECORD_HEADER..])[i])
  }

  predicate NoBlanks(hs: seq<HandshakeHeader>) {
    forall i :: 0 <= i < |hs| ==> !IsBlank(hs[i])
  }

  predicate CleanLog(log: Log) {
    forall s :: s in log ==> NoBlanks(log[s])
  }

  lemma {:induction false} NotesStayClean(log: Log, current: nat, hs: seq<HandshakeHeader>)
    requires CleanLog(log) && NoBlanks(hs)
    ensures CleanLog(NoteAll(log, current, hs))
    decreases |hs|
  {
    if hs != [] {
      assert !IsBlank(hs[0]);
      NotesStayClean(Note(log, current, hs[0]), current, hs[1..]);
    }
  }

  lemma {:induction false} LogStaysClean(events: seq<Event>)
    requires forall i :: 0 <= i < |events| ==> !CarriesBlank(events[i])
    ensures CleanLog(LogOf(events))
  {
    if events != [] {
      var n := |events| - 1;
      LogStaysClean(events[..n]);
      assert !CarriesBlank(events[n]);
      if events[n].Push? && Run(events[..n]).Running? {
        NotesStayClean(LogOf(events[..n]), Run(events[..n]).st.current, Taken(Run(events[..n]).st, events[n].buf));
      }
    }
  }

  /** Records without a blank fragment never make a run panic, however they are pushed and popped. */
  lemma CleanRunsNeverPanic(events: seq<Event>)
    requires forall i :: 0 <= i < |events| ==> !CarriesBlank(events[i])
    ensures Run(events).Running?
  {
    RunPanicsIff(events);
    forall i | 0 <= i < |events|
      ensures !PanicsAt(events, i)
    {
      LogStaysClean(events[..i]);
      var log := LogOf(events[..i]);
      forall s | s in log
        ensures !OnlyBlanks(log[s])
      {
        assert log[s] != [] ==> Filed(log[s], 0) && !IsBlank(log[s][0]);
      }
    }
  }

  /** And one record with a blank fragment, popped from a fresh buffer, does. */
  lemma BlankRecordPanics(typ: byte, epoch: nat, sequence: nat, offset: nat)
    requires epoch < 0x1_0000 && sequence < 0x1_0000_0000_0000 && 0 < offset < 0x100_0000
    ensures var h := HandshakeHeader(typ, 0, 0, offset, 0);
            var buf := MarshalRecord(RecordHeader(CONTENT_HANDSHAKE, 0xfe, 0xfd, epoch, sequence, HANDSHAKE_HEADER)) + Marshal(h);
            PushSpec(EMPTY, buf).1 == Pushed(false) && Run([Push(buf), Pop]).Panicked?
  {
    var h := HandshakeHeader(typ, 0, 0, offset, 0);
    var r := RecordHeader(CONTENT_HANDSHAKE, 0xfe, 0xfd, epoch, sequence, HANDSHAKE_HEADER);
    var buf := MarshalRecord(r) + Marshal(h);
    RecordRoundTrip(r, Marshal(h));
    HeaderRoundTrip(h, []);
    assert Marshal(h) + [] == Marshal(h) == buf[RECORD_HEADER..];
    var st := File(EMPTY, epoch, h, []);
    assert PushLoop(EMPTY, epoch, Marshal(h), false) == PushLoop(st, epoch, [], false) by {
      assert Marshal(h)[HANDSHAKE_HEADER..HANDSHAKE_HEADER] == [] && Marshal(h)[HANDSHAKE_HEADER..] == [];
    }
    PopPanicsIff(st);
    assert Run([Push(buf)]) == Running(st) by {
      assert [Push(buf)][..0] == [] && Run([]) == Running(EMPTY);
    }
    assert [Push(buf), Pop][..1] == [Push(buf)];
  }
}
