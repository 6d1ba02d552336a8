/** The reassembly counters equal the sums over the cache, whatever bytes are pushed. */
module FragmentCounters {
  import opened Bytes
  import opened DtlsHeaders
  import opened HandshakeFragments

  ghost function Pick<T>(m: map<nat, T>): (k: nat)
    requires m != map[]
    ensures k in m
  {
    var k :| k in m;
    k
  }

  ghost function Sum<T>(m: map<nat, T>, f: T -> nat): nat
    decreases |m|
  {
    if m == map[] then 0
    else
      var k := Pick(m);
      assert (m - {k}).Keys == m.Keys - {k};
      f(m[k]) + Sum(m - {k}, f)
  }

  lemma {:induction false} SumSplit<T>(m: map<nat, T>, f: T -> nat, k: nat)
    requires k in m
    ensures Sum(m, f) == f(m[k]) + Sum(m - {k}, f)
    decreases |m|
  {
    var p := Pick(m);
    if p != k {
      assert (m - {p}).Keys == m.Keys - {p};
      assert (m - {k}).Keys == m.Keys - {k};
      SumSplit(m - {p}, f, k);
      SumSplit(m - {k}, f, p);
      assert m - {p} - {k} == m - {k} - {p};
    }
  }

  lemma SumPut<T>(m: map<nat, T>, f: T -> nat, k: nat, v: T)
    ensures Sum(m[k := v], f) == f(v) + Sum(m, f) - if k in m then f(m[k]) else 0
  {
    SumSplit(m[k := v], f, k);
    if k in m {
      SumSplit(m, f, k);
      assert m[k := v] - {k} == m - {k};
    } else {
      assert m[k := v] - {k} == m;
    }
  }

  function LengthOf(f: Fragment): nat {
    f.header.fragLength
  }

  function SizeOf(fs: Fragments): nat {
    fs.fragmentsLength
  }

  function CountOf(fs: Fragments): nat {
    |fs.byOffset|
  }

  ghost predicate GoodEntry(fs: Fragments) {
    && fs.fragmentsLength == Sum(fs.byOffset, LengthOf)
    && forall o :: o in fs.byOffset ==> |fs.byOffset[o].data| == fs.byOffset[o].header.fragLength
  }

  ghost predicate Conserved(st: State) {
    && st.totalSize == Sum(st.cache, SizeOf)
    && st.totalCount == Sum(st.cache, CountOf)
    && (forall s :: s in st.cache ==> GoodEntry(st.cache[s]))
  }

  lemma EntryFiles(fs: Fragments, o: nat, f: Fragment)
    requires GoodEntry(fs) && o !in fs.byOffset && |f.data| == f.header.fragLength
    ensures GoodEntry(Fragments(fs.byOffset[o := f], fs.fragmentsLength + f.header.fragLength, fs.handshakeLength))
    ensures |fs.byOffset[o := f]| == |fs.byOffset| + 1
  {
    SumPut(fs.byOffset, LengthOf, o, f);
  }

  lemma CachePuts(c: map<nat, Fragments>, s: nat, fs: Fragments)
    ensures Sum(c[s := fs], SizeOf) == fs.fragmentsLength + Sum(c, SizeOf) - if s in c then c[s].fragmentsLength else 0
    ensures Sum(c[s := fs], CountOf) == |fs.byOffset| + Sum(c, CountOf) - if s in c then |c[s].byOffset| else 0
  {
    SumPut(c, SizeOf, s, fs);
    SumPut(c, CountOf, s, fs);
  }

  lemma FileConserves(st: State, epoch: nat, h: HandshakeHeader, data: seq<byte>)
    requires Conserved(st) && |data| == h.fragLength
    ensures Conserved(File(st, epoch, h, data))
    ensures File(st, epoch, h, data).totalSize <= st.totalSize + |data|
  {
    if h.messageSeq >= st.current {
      var fs := if h.messageSeq in st.cache then st.cache[h.messageSeq] else Fragments(map[], 0, h.length);
      assert GoodEntry(fs);
      if h.offset !in fs.byOffset {
        EntryFiles(fs, h.offset, Fragment(epoch, h, data));
      }
      CachePuts(st.cache, h.messageSeq, File(st, epoch, h, data).cache[h.messageSeq]);
    }
  }

  lemma LoopTurns(st: State, epoch: nat, buf: seq<byte>, retransmit: bool, h: HandshakeHeader)
    requires Unmarshal(buf) == Some(h) && HANDSHAKE_HEADER + h.fragLength <= |buf|
    ensures var end := HANDSHAKE_HEADER + h.fragLength;
            PushLoop(st, epoch, buf, retransmit)
            == PushLoop(File(st, epoch, h, buf[HANDSHAKE_HEADER..end]), epoch, buf[end..], h.offset == 0 && h.messageSeq < st.current)
  {
  }

  lemma {:induction false} LoopConserves(st: State, epoch: nat, buf: seq<byte>, retransmit: bool)
    requires Conserved(st)
    ensures Conserved(PushLoop(st, epoch, buf, retransmit).0)
    ensures PushLoop(st, epoch, buf, retransmit).0.totalSize <= st.totalSize + |buf|
    decreases |buf|
  {
    var header := Unmarshal(buf);
    if buf != [] && header.Some? && HANDSHAKE_HEADER + header.value.fragLength <= |buf| {
      var h := header.value;
      var end := HANDSHAKE_HEADER + h.fragLength;
      var data, again := buf[HANDSHAKE_HEADER..end], h.offset == 0 && h.messageSeq < st.current;
      FileConserves(st, epoch, h, data);
      LoopConserves(File(st, epoch, h, data), epoch, buf[end..], again);
      LoopTurns(st, epoch, buf, retransmit, h);
    } else {
      assert PushLoop(st, epoch, buf, retransmit).0 == st;
    }
  }

  /** push keeps the sums and never lets the held octets reach the cap, for any input and any outcome. */
  lemma PushConserves(st: State, buf: seq<byte>)
    requires Conserved(st) && st.totalSize < MAX_SIZE
    ensures Conserved(PushSpec(st, buf).0) && PushSpec(st, buf).0.totalSize < MAX_SIZE
  {
    var record := UnmarshalRecord(buf);
    if record.Some? {
      LoopConserves(st, record.value.epoch, buf[RECORD_HEADER..], false);
    }
  }

  lemma PopConserves(st: State)
    requires Conserved(st)
    ensures Conserved(PopSpec(st).0) && PopSpec(st).0.totalSize <= st.totalSize
  {
    if st.current in st.cache {
      SumSplit(st.cache, SizeOf, st.current);
      SumSplit(st.cache, CountOf, st.current);
    }
  }

  /** Any interleaving of pushes of arbitrary bytes with pops. */
  datatype Event = Push(buf: seq<byte>) | Pop

  /** A pop that dereferences nil ends the run, with the buffer as it found it. */
  datatype Outcome = Running(st: State) | Panicked(st: State)

  function Next(st: State, e: Event): Outcome {
    match e
    case Push(buf) => Running(PushSpec(st, buf).0)
    case Pop => if PopSpec(st).1.NilDereference? then Panicked(st) else Running(PopSpec(st).0)
  }

  function Run(events: seq<Event>): Outcome {
    if events == [] then Running(EMPTY)
    else
      var before := Run(events[..|events| - 1]);
      if before.Panicked? then before else Next(before.st, events[|events| - 1])
  }

  /** A panicking run is one that pops a blank message; up to there the counters hold, too. */
  lemma {:induction false} CountersNeverDrift(events: seq<Event>)
    ensures var st := Run(events).st;
            && Conserved(st) && 0 <= st.totalSize < MAX_SIZE
            && (Run(events).Panicked? ==> st.current in st.cache && Blank(st.cache[st.current]))
  {
    if events != [] {
      var before, e := Run(events[..|events| - 1]), events[|events| - 1];
      CountersNeverDrift(events[..|events| - 1]);
      if before.Running? && e.Push? {
        PushConserves(before.st, e.buf);
      } else if before.Running? {
        PopConserves(before.st);
        PopPanicsIff(before.st);
      }
    }
  }
}
