/** What reassembly delivers over whole runs, and what its counters conserve. */
module HandshakeDelivery {
  import opened Bytes
  import opened DtlsHeaders
  import opened HandshakeFragments

  type Got = set<(nat, nat)>   // (message, piece) pairs whose record has arrived

  ghost predicate GoodFlight(fl: seq<Msg>) {
    |fl| < 0x1_0000 && forall s :: 0 <= s < |fl| ==> GoodMsg(fl[s])
  }

  predicate Complete(m: Msg, s: nat, got: Got) {
    forall j :: 0 <= j < |m.pieces| ==> (s, j) in got
  }

  /** The message as the receiver hands it on: an unfragmented header and the whole body. */
  function Whole(m: Msg, s: nat): seq<byte> {
    Marshal(HandshakeHeader(m.typ, |Body(m)|, s, 0, |Body(m)|)) + Body(m)
  }

  // ---- weights: octets or pieces, held or in all -----------------------

  function Weight(m: Msg, j: nat, unit: bool): nat
    requires j < |m.pieces|
  {
    if unit then 1 else |m.pieces[j]|
  }

  function Partial(m: Msg, s: nat, got: Got, k: nat, unit: bool): nat
    requires k <= |m.pieces|
  {
    if k == 0 then 0
    else Partial(m, s, got, k - 1, unit) + if (s, k - 1) in got then Weight(m, k - 1, unit) else 0
  }

  function Pending(fl: seq<Msg>, got: Got, from: nat, unit: bool): nat
    decreases |fl| - from
  {
    if from >= |fl| then 0
    else Partial(fl[from], from, got, |fl[from].pieces|, unit) + Pending(fl, got, from + 1, unit)
  }

  function Total(fl: seq<Msg>, from: nat, unit: bool): nat
    decreases |fl| - from
  {
    if from >= |fl| then 0
    else (if unit then |fl[from].pieces| else |Body(fl[from])|) + Total(fl, from + 1, unit)
  }

  /** A message's held octets reach its length exactly when no piece is missing. */
  lemma {:induction false} PartialBounds(m: Msg, s: nat, got: Got, k: nat)
    requires k <= |m.pieces|
    ensures Partial(m, s, got, k, true) <= k
    ensures Partial(m, s, got, k, false) <= Off(m.pieces, k)
    ensures (forall j :: 0 <= j < k ==> (s, j) in got) ==>
              Partial(m, s, got, k, true) == k && Partial(m, s, got, k, false) == Off(m.pieces, k)
    ensures m.pieces != [[]] && WellSplit(m.pieces) && Partial(m, s, got, k, false) == Off(m.pieces, k) ==>
              forall j :: 0 <= j < k ==> (s, j) in got
  {
    if k > 0 {
      PartialBounds(m, s, got, k - 1);
    }
  }

  lemma {:induction false} PartialGains(m: Msg, s: nat, got: Got, i: nat, j: nat, k: nat, unit: bool)
    requires k <= |m.pieces| && j < |m.pieces|
    ensures Partial(m, s, got + {(i, j)}, k, unit) ==
            Partial(m, s, got, k, unit) + if s == i && j < k && (i, j) !in got then Weight(m, j, unit) else 0
  {
    if k > 0 {
      PartialGains(m, s, got, i, j, k - 1, unit);
    }
  }

  lemma {:induction false} PendingGains(fl: seq<Msg>, got: Got, i: nat, j: nat, from: nat, unit: bool)
    requires i < |fl| && j < |fl[i].pieces|
    ensures Pending(fl, got + {(i, j)}, from, unit) ==
            Pending(fl, got, from, unit) + if from <= i && (i, j) !in got then Weight(fl[i], j, unit) else 0
    decreases |fl| - from
  {
    if from < |fl| {
      PendingGains(fl, got, i, j, from + 1, unit);
      if from == i {
        PartialGains(fl[i], i, got, i, j, |fl[i].pieces|, unit);
      } else {
        PartialElsewhere(fl[from], from, got, i, j, |fl[from].pieces|, unit);
      }
    }
  }

  lemma {:induction false} PartialElsewhere(m: Msg, s: nat, got: Got, i: nat, j: nat, k: nat, unit: bool)
    requires k <= |m.pieces| && s != i
    ensures Partial(m, s, got + {(i, j)}, k, unit) == Partial(m, s, got, k, unit)
  {
    if k > 0 {
      PartialElsewhere(m, s, got, i, j, k - 1, unit);
    }
  }

  lemma {:induction false} PendingBounded(fl: seq<Msg>, got: Got, from: nat, unit: bool)
    requires GoodFlight(fl)
    ensures Pending(fl, got, from, unit) <= Total(fl, from, unit)
    decreases |fl| - from
  {
    if from < |fl| {
      PendingBounded(fl, got, from + 1, unit);
      PartialBounds(fl[from], from, got, |fl[from].pieces|);
      ConcatPrefix(fl[from].pieces, |fl[from].pieces|);
      assert fl[from].pieces[..|fl[from].pieces|] == fl[from].pieces;
    }
  }

  lemma {:induction false} TotalShrinks(fl: seq<Msg>, from: nat, unit: bool)
    ensures Total(fl, from, unit) <= Total(fl, 0, unit)
    decreases from
  {
    if from > 0 {
      TotalShrinks(fl, from - 1, unit);
    }
  }

  // ---- the receiver's invariant ----------------------------------------

  function Piece(m: Msg, s: nat, j: nat): Fragment
    requires j < |m.pieces|
  {
    Fragment(m.epoch, PieceHeader(m, s, j), m.pieces[j])
  }

  function HeldMap(m: Msg, s: nat, got: Got, k: nat): map<nat, Fragment>
    requires k <= |m.pieces|
  {
    if k == 0 then map[]
    else
      var before := HeldMap(m, s, got, k - 1);
      if (s, k - 1) in got then before[Off(m.pieces, k - 1) := Piece(m, s, k - 1)] else before
  }

  /** The entry of message s: exactly the pieces that arrived. */
  function Held(m: Msg, s: nat, got: Got): Fragments {
    Fragments(HeldMap(m, s, got, |m.pieces|), Partial(m, s, got, |m.pieces|, false), |Body(m)|)
  }

  predicate Untouched(m: Msg, s: nat, got: Got) {
    forall j :: 0 <= j < |m.pieces| ==> (s, j) !in got
  }

  ghost predicate Entries(fl: seq<Msg>, st: State, got: Got) {
    forall s :: s in st.cache ==>
      st.current <= s < |fl| && st.cache[s] == Held(fl[s], s, got) && !Untouched(fl[s], s, got)
  }

  ghost predicate Absences(fl: seq<Msg>, st: State, got: Got) {
    forall s :: st.current <= s < |fl| && s !in st.cache ==> Untouched(fl[s], s, got)
  }

  predicate Counted(fl: seq<Msg>, st: State, got: Got) {
    st.totalSize == Pending(fl, got, st.current, false) && st.totalCount == Pending(fl, got, st.current, true)
  }

  ghost predicate Inv(fl: seq<Msg>, st: State, got: Got) {
    st.current <= |fl| && Entries(fl, st, got) && Absences(fl, st, got) && Counted(fl, st, got)
  }

  lemma OffInjective(cs: seq<seq<byte>>, i: nat, j: nat)
    requires WellSplit(cs) && i < |cs| && j < |cs| && i != j
    ensures Off(cs, i) != Off(cs, j)
  {
    if i < j {
      OffMonotone(cs, i, j);
    } else {
      OffMonotone(cs, j, i);
    }
  }

  lemma {:induction false} HeldLookup(m: Msg, s: nat, got: Got, k: nat, j: nat)
    requires WellSplit(m.pieces) && k <= |m.pieces| && j < |m.pieces|
    ensures Off(m.pieces, j) in HeldMap(m, s, got, k) <==> j < k && (s, j) in got
    ensures j < k && (s, j) in got ==> HeldMap(m, s, got, k)[Off(m.pieces, j)] == Piece(m, s, j)
  {
    if k > 0 {
      HeldLookup(m, s, got, k - 1, j);
      if j != k - 1 {
        OffInjective(m.pieces, j, k - 1);
      }
    }
  }

  lemma {:induction false} HeldSize(m: Msg, s: nat, got: Got, k: nat)
    requires WellSplit(m.pieces) && k <= |m.pieces|
    ensures |HeldMap(m, s, got, k)| == Partial(m, s, got, k, true)
  {
    if k > 0 {
      HeldSize(m, s, got, k - 1);
      HeldLookup(m, s, got, k - 1, k - 1);
    }
  }

  lemma {:induction false} HeldGains(m: Msg, i: nat, got: Got, j: nat, k: nat)
    requires WellSplit(m.pieces) && k <= |m.pieces| && j < |m.pieces| && (i, j) !in got
    ensures HeldMap(m, i, got + {(i, j)}, k) ==
            if j < k then HeldMap(m, i, got, k)[Off(m.pieces, j) := Piece(m, i, j)] else HeldMap(m, i, got, k)
  {
    if k > 0 {
      HeldGains(m, i, got, j, k - 1);
      if j != k - 1 {
        OffInjective(m.pieces, j, k - 1);
      }
    }
  }

  lemma {:induction false} HeldElsewhere(m: Msg, s: nat, got: Got, i: nat, j: nat, k: nat)
    requires k <= |m.pieces| && s != i
    ensures HeldMap(m, s, got + {(i, j)}, k) == HeldMap(m, s, got, k)
  {
    if k > 0 {
      HeldElsewhere(m, s, got, i, j, k - 1);
    }
  }

  lemma {:induction false} UntouchedHolds(m: Msg, s: nat, got: Got, k: nat)
    requires k <= |m.pieces| && Untouched(m, s, got)
    ensures Partial(m, s, got, k, false) == 0 && HeldMap(m, s, got, k) == map[]
  {
    if k > 0 {
      UntouchedHolds(m, s, got, k - 1);
    }
  }

  /** Filing a piece turns the entry for what had arrived into the entry for what has. */
  lemma FileHolds(m: Msg, st: State, i: nat, got: Got, j: nat)
    requires GoodMsg(m) && j < |m.pieces| && st.current <= i
    requires if i in st.cache then st.cache[i] == Held(m, i, got) else Untouched(m, i, got)
    ensures var st' := File(st, m.epoch, PieceHeader(m, i, j), m.pieces[j]);
            var novel := (i, j) !in got;
            && st'.cache == st.cache[i := Held(m, i, got + {(i, j)})] && st'.current == st.current
            && st'.totalSize == st.totalSize + (if novel then |m.pieces[j]| else 0)
            && st'.totalCount == st.totalCount + (if novel then 1 else 0)
  {
    if i !in st.cache {
      UntouchedHolds(m, i, got, |m.pieces|);
    }
    HeldLookup(m, i, got, |m.pieces|, j);
    if (i, j) in got {
      assert got + {(i, j)} == got;
    } else {
      HeldGains(m, i, got, j, |m.pieces|);
      PartialGains(m, i, got, i, j, |m.pieces|, false);
    }
  }

  lemma FileKeepsInv(fl: seq<Msg>, st: State, got: Got, i: nat, j: nat)
    requires GoodFlight(fl) && Inv(fl, st, got) && i < |fl| && j < |fl[i].pieces|
    ensures Inv(fl, File(st, fl[i].epoch, PieceHeader(fl[i], i, j), fl[i].pieces[j]), got + {(i, j)})
  {
    var got' := got + {(i, j)};
    PendingGains(fl, got, i, j, st.current, false);
    PendingGains(fl, got, i, j, st.current, true);
    if i >= st.current {
      FileHolds(fl[i], st, i, got, j);
      assert (i, j) in got';
    }
    forall s | s in st.cache && s != i
      ensures Held(fl[s], s, got') == Held(fl[s], s, got) && !Untouched(fl[s], s, got')
    {
      HeldElsewhere(fl[s], s, got, i, j, |fl[s].pieces|);
      PartialElsewhere(fl[s], s, got, i, j, |fl[s].pieces|, false);
      var k :| 0 <= k < |fl[s].pieces| && (s, k) in got;
      assert (s, k) in got';
    }
  }

  // ---- popping ---------------------------------------------------------

  lemma {:induction false} AssembleAll(m: Msg, s: nat, got: Got, j: nat)
    requires GoodMsg(m) && Complete(m, s, got) && j <= |m.pieces| && m.pieces != [[]]
    ensures Assemble(Held(m, s, got), Off(m.pieces, j), j, Concat(m.pieces[..j])) == Some(Body(m))
    decreases |m.pieces| - j
  {
    var fs := Held(m, s, got);
    PieceFits(m, 0, 0);
    HeldSize(m, s, got, |m.pieces|);
    PartialBounds(m, s, got, |m.pieces|);
    if j < |m.pieces| {
      OffMonotone(m.pieces, j, |m.pieces|);
      ConcatPrefix(m.pieces, j);
      HeldLookup(m, s, got, |m.pieces|, j);
      AssembleAll(m, s, got, j + 1);
    } else {
      assert m.pieces[..j] == m.pieces;
    }
  }

  lemma AssembleBody(m: Msg, s: nat, got: Got)
    requires GoodMsg(m) && Complete(m, s, got)
    ensures Assemble(Held(m, s, got), 0, 0, []) == Some(Body(m))
  {
    if m.pieces == [[]] {
      assert m.pieces[1..] == [] && Concat(m.pieces[1..]) == [];
    } else {
      AssembleAll(m, s, got, 0);
      assert m.pieces[..0] == [];
    }
  }

  lemma LengthTells(m: Msg, s: nat, got: Got)
    requires GoodMsg(m) && !Untouched(m, s, got)
    ensures Held(m, s, got).fragmentsLength == |Body(m)| <==> Complete(m, s, got)
  {
    PieceFits(m, 0, 0);
    PartialBounds(m, s, got, |m.pieces|);
  }

  function Popped(st: State): State
    requires st.current in st.cache
  {
    var fs := st.cache[st.current];
    State(st.cache - {st.current}, (st.current + 1) % 0x1_0000,
          st.totalSize - fs.fragmentsLength, st.totalCount - |fs.byOffset|)
  }

  /** With every piece of the current message there, pop yields it whole and moves on. */
  lemma PopYieldsWhole(fl: seq<Msg>, st: State, got: Got)
    requires GoodFlight(fl) && Inv(fl, st, got)
    requires st.current < |fl| && Complete(fl[st.current], st.current, got)
    ensures st.current in st.cache
    ensures PopSpec(st) == (Popped(st), Message(Whole(fl[st.current], st.current), fl[st.current].epoch))
  {
    var c, m := st.current, fl[st.current];
    assert GoodMsg(m) && (c, 0) in got && !Untouched(m, c, got);
    AssembleBody(m, c, got);
    LengthTells(m, c, got);
    HeldLookup(m, c, got, |m.pieces|, 0);
    assert Off(m.pieces, 0) == 0;
  }

  lemma PoppedShrinks(st: State)
    requires st.current in st.cache
    ensures |Popped(st).cache| < |st.cache|
  {
    assert Popped(st).cache.Keys == st.cache.Keys - {st.current};
    assert |Popped(st).cache| == |st.cache.Keys - {st.current}|;
  }

  lemma PoppedCounted(fl: seq<Msg>, st: State, got: Got)
    requires GoodFlight(fl) && Inv(fl, st, got) && st.current in st.cache
    ensures Counted(fl, Popped(st), got) && Popped(st).current == st.current + 1
  {
    HeldSize(fl[st.current], st.current, got, |fl[st.current].pieces|);
  }

  lemma PoppedEntries(fl: seq<Msg>, st: State, st': State, got: Got)
    requires Entries(fl, st, got) && Absences(fl, st, got)
    requires st'.cache == st.cache - {st.current} && st'.current == st.current + 1
    ensures Entries(fl, st', got) && Absences(fl, st', got)
  {
  }

  lemma PoppedKeepsInv(fl: seq<Msg>, st: State, got: Got)
    requires GoodFlight(fl) && Inv(fl, st, got) && st.current in st.cache
    ensures Inv(fl, Popped(st), got)
  {
    PoppedCounted(fl, st, got);
    PoppedEntries(fl, st, Popped(st), got);
  }

  /** With a piece missing, or the flight over, pop yields nothing and changes nothing. */
  lemma PopWaits(fl: seq<Msg>, st: State, got: Got)
    requires GoodFlight(fl) && Inv(fl, st, got)
    requires st.current == |fl| || !Complete(fl[st.current], st.current, got)
    ensures PopSpec(st) == (st, Nothing)
  {
    if st.current in st.cache {
      LengthTells(fl[st.current], st.current, got);
    }
  }

  /** The loop after every push: pop until nothing comes. */
  function Drain(st: State): (State, seq<seq<byte>>)
    decreases |st.cache|
  {
    var (st', r) := PopSpec(st);
    if r.Message? && |st'.cache| < |st.cache| then
      var (st'', rest) := Drain(st');
      (st'', [r.content] + rest)
    else (st', [])
  }

  function Wholes(fl: seq<Msg>, from: nat, to: nat): seq<seq<byte>>
    requires from <= to <= |fl|
    decreases |fl| - from
  {
    if from == to then [] else [Whole(fl[from], from)] + Wholes(fl, from + 1, to)
  }

  lemma {:induction false} WholesJoin(fl: seq<Msg>, a: nat, b: nat, c: nat)
    requires a <= b <= c <= |fl|
    ensures Wholes(fl, a, b) + Wholes(fl, b, c) == Wholes(fl, a, c)
    decreases b - a
  {
    if a < b {
      WholesJoin(fl, a + 1, b, c);
      assert [Whole(fl[a], a)] + Wholes(fl, a + 1, b) + Wholes(fl, b, c)
          == [Whole(fl[a], a)] + (Wholes(fl, a + 1, b) + Wholes(fl, b, c));
    }
  }

  /** What draining from st should come to: whole messages up to one that is incomplete. */
  ghost predicate DrainedTo(fl: seq<Msg>, from: nat, got: Got, d: (State, seq<seq<byte>>)) {
    && Inv(fl, d.0, got) && from <= d.0.current <= |fl| && d.1 == Wholes(fl, from, d.0.current)
    && (d.0.current < |fl| ==> !Complete(fl[d.0.current], d.0.current, got))
  }

  lemma DrainedOneMore(fl: seq<Msg>, from: nat, got: Got, d: (State, seq<seq<byte>>))
    requires from < |fl| && DrainedTo(fl, from + 1, got, d)
    ensures DrainedTo(fl, from, got, (d.0, [Whole(fl[from], from)] + d.1))
  {
  }

  lemma {:induction false} DrainIsExact(fl: seq<Msg>, st: State, got: Got)
    requires GoodFlight(fl) && Inv(fl, st, got)
    ensures DrainedTo(fl, st.current, got, Drain(st))
    decreases |st.cache|
  {
    if st.current < |fl| && Complete(fl[st.current], st.current, got) {
      PopDrains(fl, st, got);
      DrainIsExact(fl, Popped(st), got);
      DrainedOneMore(fl, st.current, got, Drain(Popped(st)));
    } else {
      PopWaits(fl, st, got);
      DrainStops(st);
    }
  }

  lemma PopDrains(fl: seq<Msg>, st: State, got: Got)
    requires GoodFlight(fl) && Inv(fl, st, got)
    requires st.current < |fl| && Complete(fl[st.current], st.current, got)
    ensures st.current in st.cache && Inv(fl, Popped(st), got)
    ensures |Popped(st).cache| < |st.cache| && Popped(st).current == st.current + 1
    ensures Drain(st) == (Drain(Popped(st)).0, [Whole(fl[st.current], st.current)] + Drain(Popped(st)).1)
  {
    PopYieldsWhole(fl, st, got);
    PoppedKeepsInv(fl, st, got);
    PoppedCounted(fl, st, got);
    PoppedShrinks(st);
    DrainTakes(st, Whole(fl[st.current], st.current), fl[st.current].epoch);
  }

  lemma DrainTakes(st: State, content: seq<byte>, epoch: nat)
    requires st.current in st.cache && PopSpec(st) == (Popped(st), Message(content, epoch))
    requires |Popped(st).cache| < |st.cache|
    ensures Drain(st) == (Drain(Popped(st)).0, [content] + Drain(Popped(st)).1)
  {
  }

  lemma DrainStops(st: State)
    requires PopSpec(st) == (st, Nothing)
    ensures Drain(st) == (st, [])
  {
  }

  // ---- whole runs ------------------------------------------------------

  /** One arriving record: piece j of message i, with the record sequence number it happens to carry. */
  datatype Arrival = Arrival(i: nat, j: nat, sequence: nat)

  predicate Genuine(fl: seq<Msg>, a: Arrival) {
    a.i < |fl| && a.j < |fl[a.i].pieces| && a.sequence < 0x1_0000_0000_0000
  }

  predicate AllGenuine(fl: seq<Msg>, arrivals: seq<Arrival>) {
    forall k :: 0 <= k < |arrivals| ==> Genuine(fl, arrivals[k])
  }

  function Receive(st: State, buf: seq<byte>): (State, seq<seq<byte>>) {
    var (st', r) := PushSpec(st, buf);
    if r.Pushed? then Drain(st') else (st', [])
  }

  function Run(fl: seq<Msg>, st: State, arrivals: seq<Arrival>): (State, seq<seq<byte>>)
    requires AllGenuine(fl, arrivals)
    decreases |arrivals|
  {
    if arrivals == [] then (st, [])
    else
      var a := arrivals[0];
      var (st', out) := Receive(st, RecordOf(fl[a.i], a.i, a.j, a.sequence));
      var (st'', rest) := Run(fl, st', arrivals[1..]);
      (st'', out + rest)
  }

  function Arrived(arrivals: seq<Arrival>): Got {
    set a | a in arrivals :: (a.i, a.j)
  }

  /** The flight's pieces stay under the count cap, and its octets leave room for one more record. */
  predicate RoomFor(fl: seq<Msg>) {
    && Total(fl, 0, true) < MAX_COUNT
    && forall i, j :: 0 <= i < |fl| && 0 <= j < |fl[i].pieces| ==>
         Total(fl, 0, false) + RECORD_HEADER + HANDSHAKE_HEADER + |fl[i].pieces[j]| < MAX_SIZE
  }

  lemma RecordPushes(fl: seq<Msg>, st: State, got: Got, a: Arrival)
    requires GoodFlight(fl) && RoomFor(fl) && Inv(fl, st, got) && Genuine(fl, a)
    ensures var m := fl[a.i];
            var (st', r) := PushSpec(st, RecordOf(m, a.i, a.j, a.sequence));
            r.Pushed? && st' == File(st, m.epoch, PieceHeader(m, a.i, a.j), m.pieces[a.j])
  {
    var m := fl[a.i];
    var h, piece := PieceHeader(m, a.i, a.j), m.pieces[a.j];
    var record := RecordOf(m, a.i, a.j, a.sequence);
    PendingBounded(fl, got, st.current, false);
    PendingBounded(fl, got, st.current, true);
    TotalShrinks(fl, st.current, false);
    TotalShrinks(fl, st.current, true);
    var rh := RecordHeader(CONTENT_HANDSHAKE, 0xfe, 0xfd, m.epoch, a.sequence,
                           (HANDSHAKE_HEADER + |piece|) % 0x1_0000);
    RecordRoundTrip(rh, WirePiece(m, a.i, a.j));
    assert record[RECORD_HEADER..] == WirePiece(m, a.i, a.j);
    PieceFits(m, a.i, a.j);
    PushOne(st, m.epoch, h, piece);
  }

  lemma PushOne(st: State, epoch: nat, h: HandshakeHeader, piece: seq<byte>)
    requires Fits(h) && h.fragLength == |piece|
    ensures var (st', r) := PushLoop(st, epoch, Marshal(h) + piece, false);
            r.Pushed? && st' == File(st, epoch, h, piece)
  {
    HeaderRoundTrip(h, piece);
    var buf := Marshal(h) + piece;
    assert buf[HANDSHAKE_HEADER..HANDSHAKE_HEADER + |piece|] == piece;
    assert buf[HANDSHAKE_HEADER + |piece|..] == [];
  }

  lemma ArrivedFirst(got: Got, arrivals: seq<Arrival>)
    requires arrivals != []
    ensures got + Arrived(arrivals) == got + {(arrivals[0].i, arrivals[0].j)} + Arrived(arrivals[1..])
  {
    assert arrivals == [arrivals[0]] + arrivals[1..];
  }

  lemma {:induction false} RunIsExact(fl: seq<Msg>, st: State, got: Got, arrivals: seq<Arrival>)
    requires GoodFlight(fl) && RoomFor(fl) && Inv(fl, st, got)
    requires AllGenuine(fl, arrivals)
    requires st.current < |fl| ==> !Complete(fl[st.current], st.current, got)
    decreases |arrivals|
    ensures var (st', out) := Run(fl, st, arrivals);
            && Inv(fl, st', got + Arrived(arrivals)) && st.current <= st'.current
            && out == Wholes(fl, st.current, st'.current)
            && (st'.current < |fl| ==> !Complete(fl[st'.current], st'.current, got + Arrived(arrivals)))
  {
    if arrivals == [] {
      assert got + Arrived([]) == got;
    } else {
      var a := arrivals[0];
      var got1 := got + {(a.i, a.j)};
      RecordPushes(fl, st, got, a);
      FileKeepsInv(fl, st, got, a.i, a.j);
      var st1 := PushSpec(st, RecordOf(fl[a.i], a.i, a.j, a.sequence)).0;
      DrainIsExact(fl, st1, got1);
      var st2 := Drain(st1).0;
      RunIsExact(fl, st2, got1, arrivals[1..]);
      ArrivedFirst(got, arrivals);
      WholesJoin(fl, st.current, st2.current, Run(fl, st2, arrivals[1..]).0.current);
    }
  }

  lemma {:induction false} PendingNone(fl: seq<Msg>, from: nat, unit: bool)
    ensures Pending(fl, {}, from, unit) == 0
    decreases |fl| - from
  {
    if from < |fl| {
      PartialNone(fl[from], from, |fl[from].pieces|, unit);
      PendingNone(fl, from + 1, unit);
    }
  }

  lemma {:induction false} PartialNone(m: Msg, s: nat, k: nat, unit: bool)
    requires k <= |m.pieces|
    ensures Partial(m, s, {}, k, unit) == 0
  {
    if k > 0 {
      PartialNone(m, s, k - 1, unit);
    }
  }

  lemma EmptyInv(fl: seq<Msg>)
    requires GoodFlight(fl)
    ensures Inv(fl, EMPTY, {}) && (|fl| > 0 ==> !Complete(fl[0], 0, {}))
  {
    PendingNone(fl, 0, false);
    PendingNone(fl, 0, true);
    if |fl| > 0 {
      var none: Got := {};
      assert GoodMsg(fl[0]) && (0, 0) !in none;
    }
  }

  /**
    Any order, any duplicates: what has come out is the leading complete messages of the
    flight, whole and once each, in order, and nothing more could come out yet.
   */
  lemma DeliveredInOrder(fl: seq<Msg>, arrivals: seq<Arrival>)
    requires GoodFlight(fl) && RoomFor(fl) && AllGenuine(fl, arrivals)
    ensures var (st, out) := Run(fl, EMPTY, arrivals);
            && st.current <= |fl| && out == Wholes(fl, 0, st.current)
            && (st.current < |fl| ==> !Complete(fl[st.current], st.current, Arrived(arrivals)))
  {
    EmptyInv(fl);
    RunIsExact(fl, EMPTY, {}, arrivals);
    assert {} + Arrived(arrivals) == Arrived(arrivals);
  }

  /** Once every piece has arrived, in whatever order, the whole flight has been delivered. */
  lemma DeliveredInFull(fl: seq<Msg>, arrivals: seq<Arrival>)
    requires GoodFlight(fl) && RoomFor(fl) && AllGenuine(fl, arrivals)
    requires forall s :: 0 <= s < |fl| ==> Complete(fl[s], s, Arrived(arrivals))
    ensures Run(fl, EMPTY, arrivals).1 == Wholes(fl, 0, |fl|)
  {
    DeliveredInOrder(fl, arrivals);
    assert Run(fl, EMPTY, arrivals).0.current == |fl|;
  }
}
