/** Packets of one peer delivered to the other in any order, any number of times. */
module SignalingRun {
  import opened Bytes
  import opened Signaling

  // ---- what was sent ---------------------------------------------------

  datatype Outgoing = Message(json: seq<byte>) | Acks(words: seq<Word>)

  predicate Sendable(o: Outgoing) {
    match o
    case Message(json) => |json| < 0x1_0000_0000
    case Acks(words) => words != []
  }

  /** The sender's k-th packet, counting from 0, carries its counter k + 1. */
  function Sequence(k: nat): Word {
    Wrap32(k + 1)
  }

  function RecordsOf(o: Outgoing, k: nat): seq<Record> {
    match o
    case Message(json) => [Record(AckWord(Sequence(k)), Custom(json))]
    case Acks(words) => [Record(Sequence(k), Empty)] + AckRecords(words)
  }

  function PacketOf(keys: Keys, side: nat, o: Outgoing, k: nat): seq<byte> {
    Seal(keys, side, Encode(RecordsOf(o, k)))
  }

  /** A peer that has sent k packets seals the next one as PacketOf says, and has then sent k + 1. */
  method SendNext(peer: Peer, o: Outgoing, k: nat) returns (packet: seq<byte>)
    requires peer.outSeq == Wrap32(k) && Sendable(o)
    modifies peer`outSeq
    ensures peer.outSeq == Wrap32(k + 1)
    ensures packet == PacketOf(peer.keys, SealSide(peer.isOutgoing), o, k)
  {
    Wrap32Onward(k, 1);
    match o {
      case Message(json) =>
        packet := peer.EncryptMessage(json);
      case Acks(words) =>
        var p := peer.EncryptAcks(words);
        packet := p.value;
    }
  }

  // ---- one genuine packet ----------------------------------------------

  const LIMIT := ACK_BIT

  /** While fewer than 2^30 came before it, a packet's number fits the counter field, or just leaves it. */
  lemma WordsInRange(k: nat)
    requires k < LIMIT
    ensures Sequence(k) == k + 1 && !IsSingle(Sequence(k)) && !IsSingle(AckWord(Sequence(k)))
    ensures WantsAck(AckWord(Sequence(k)))
    ensures Counter(Sequence(k)) == (if k + 1 == LIMIT then 0 else k + 1)
    ensures Counter(AckWord(Sequence(k))) == Counter(Sequence(k))
  {
  }

  function Heard(o: Outgoing): seq<seq<byte>> {
    match o
    case Message(json) => [json]
    case Acks(_) => []
  }

  function OwedFor(o: Outgoing, k: nat): seq<Word> {
    match o
    case Message(_) => [AckWord(Sequence(k))]
    case Acks(_) => []
  }

  lemma {:induction false} AcksCarryNothing(head: Record, words: seq<Word>)
    requires !head.payload.Custom?
    ensures Messages([head] + AckRecords(words)) == [] && Owed([head] + AckRecords(words)) == []
    decreases |words|
  {
    var rs := [head] + AckRecords(words);
    if words == [] {
      assert rs == [head] && [head][..0] == [];
    } else {
      var n := |words| - 1;
      assert rs[..|rs| - 1] == [head] + AckRecords(words[..n]);
      AcksCarryNothing(head, words[..n]);
    }
  }

  lemma RecordsHeard(o: Outgoing, k: nat)
    requires k < LIMIT && Sendable(o)
    ensures var rs := RecordsOf(o, k);
            && Encodable(rs) && Counter(rs[0].word) == Counter(Sequence(k))
            && Messages(rs) == Heard(o) && Owed(rs) == OwedFor(o, k)
  {
    WordsInRange(k);
    var rs := RecordsOf(o, k);
    match o {
      case Message(json) =>
        assert rs[..0] == [];
      case Acks(words) =>
        AcksCarryNothing(rs[0], words);
    }
  }

  /** A genuine packet is heard, and owed for, exactly if its counter has not been seen. */
  lemma GenuineDelivery(keys: Keys, side: nat, inbox: Inbox, o: Outgoing, k: nat)
    requires k < LIMIT && Sendable(o)
    ensures var c := Counter(Sequence(k));
            Deliver(keys, side, inbox, PacketOf(keys, side, o, k))
            == if c in inbox.seen then Delivery(inbox, None)
               else Delivery(Inbox(inbox.seen + {c}, inbox.toAck + OwedFor(o, k)), Some(Heard(o)))
  {
    RecordsHeard(o, k);
    DecodesBack(RecordsOf(o, k));
    EncodeFront(RecordsOf(o, k));
    SealedIsAuthentic(keys, side, Encode(RecordsOf(o, k)));
  }

  // ---- runs ------------------------------------------------------------

  /** Genuine packet k arrives, an unauthentic packet arrives, or the owed acknowledgements are taken. */
  datatype Event = Arrives(k: nat) | Junk(packet: seq<byte>) | Drain

  predicate Admissible(keys: Keys, side: nat, sends: seq<Outgoing>, e: Event) {
    match e
    case Arrives(k) => k < |sends|
    case Junk(packet) => Authentic(keys, side, packet) == None
    case Drain => true
  }

  ghost predicate Possible(keys: Keys, side: nat, sends: seq<Outgoing>, es: seq<Event>) {
    && |sends| <= LIMIT
    && (forall i :: 0 <= i < |sends| ==> Sendable(sends[i]))
    && (forall i :: 0 <= i < |es| ==> Admissible(keys, side, sends, es[i]))
  }

  /** The inbox, everything drained so far, and what the last event returned. */
  datatype Run = Run(inbox: Inbox, drained: seq<Word>, last: Option<seq<seq<byte>>>)

  function Step(keys: Keys, side: nat, sends: seq<Outgoing>, r: Run, e: Event): Run
    requires Admissible(keys, side, sends, e)
  {
    match e
    case Drain => Run(r.inbox.(toAck := []), r.drained + r.inbox.toAck, None)
    case Junk(packet) => var d := Deliver(keys, side, r.inbox, packet); Run(d.inbox, r.drained, d.messages)
    case Arrives(k) =>
      var d := Deliver(keys, side, r.inbox, PacketOf(keys, side, sends[k], k));
      Run(d.inbox, r.drained, d.messages)
  }

  function After(keys: Keys, side: nat, sends: seq<Outgoing>, es: seq<Event>): Run
    requires forall i :: 0 <= i < |es| ==> Admissible(keys, side, sends, es[i])
  {
    if es == [] then Run(Inbox({}, []), [], None)
    else Step(keys, side, sends, After(keys, side, sends, es[..|es| - 1]), es[|es| - 1])
  }

  /** The genuine packets in the order of their first arrival. */
  function Firsts(es: seq<Event>): seq<nat> {
    if es == [] then []
    else
      var before := Firsts(es[..|es| - 1]);
      var e := es[|es| - 1];
      if e.Arrives? && e.k !in before then before + [e.k] else before
  }

  lemma {:induction false} FirstsAreArrivals(es: seq<Event>, k: nat)
    ensures k in Firsts(es) <==> Arrives(k) in es
  {
    if es != [] {
      FirstsAreArrivals(es[..|es| - 1], k);
      assert es == es[..|es| - 1] + [es[|es| - 1]];
    }
  }

  function OwedAlong(sends: seq<Outgoing>, ks: seq<nat>): seq<Word>
    requires forall i :: 0 <= i < |ks| ==> ks[i] < |sends|
  {
    if ks == [] then []
    else OwedAlong(sends, ks[..|ks| - 1]) + OwedFor(sends[ks[|ks| - 1]], ks[|ks| - 1])
  }

  function CountersOf(ks: seq<nat>): set<nat> {
    set i | 0 <= i < |ks| :: Counter(Sequence(ks[i]))
  }

  /** Up to 2^30 packets, counters tell packets apart. */
  lemma CountersDiffer(ks: seq<nat>, k: nat)
    requires k < LIMIT && (forall i :: 0 <= i < |ks| ==> ks[i] < LIMIT)
    ensures Counter(Sequence(k)) in CountersOf(ks) <==> k in ks
  {
    WordsInRange(k);
    forall i | 0 <= i < |ks| ensures Counter(Sequence(ks[i])) == Counter(Sequence(k)) <==> ks[i] == k {
      WordsInRange(ks[i]);
    }
  }

  lemma CountersGrow(ks: seq<nat>, k: nat)
    ensures CountersOf(ks + [k]) == CountersOf(ks) + {Counter(Sequence(k))}
  {
    var all := ks + [k];
    forall c | c in CountersOf(ks) + {Counter(Sequence(k))} ensures c in CountersOf(all) {
      if c in CountersOf(ks) {
        var i :| 0 <= i < |ks| && c == Counter(Sequence(ks[i]));
        assert all[i] == ks[i];
      } else {
        assert all[|ks|] == k;
      }
    }
  }

  lemma OwedGrows(sends: seq<Outgoing>, ks: seq<nat>, k: nat)
    requires k < |sends| && (forall i :: 0 <= i < |ks| ==> ks[i] < |sends|)
    ensures OwedAlong(sends, ks + [k]) == OwedAlong(sends, ks) + OwedFor(sends[k], k)
  {
    assert (ks + [k])[..|ks|] == ks;
  }

  lemma {:induction false} FirstsInRange(keys: Keys, side: nat, sends: seq<Outgoing>, es: seq<Event>)
    requires Possible(keys, side, sends, es)
    ensures forall i :: 0 <= i < |Firsts(es)| ==> Firsts(es)[i] < |sends|
  {
    if es != [] {
      FirstsInRange(keys, side, sends, es[..|es| - 1]);
    }
  }

  lemma ArrivalStep(keys: Keys, side: nat, sends: seq<Outgoing>, r: Run, ks: seq<nat>, k: nat)
    requires |sends| <= LIMIT && k < |sends| && Sendable(sends[k])
    requires forall i :: 0 <= i < |ks| ==> ks[i] < |sends|
    requires r.inbox.seen == CountersOf(ks) && r.drained + r.inbox.toAck == OwedAlong(sends, ks)
    ensures var next := Step(keys, side, sends, r, Arrives(k));
            var more := if k in ks then ks else ks + [k];
            && next.inbox.seen == CountersOf(more)
            && next.drained + next.inbox.toAck == OwedAlong(sends, more)
            && next.last == if k in ks then None else Some(Heard(sends[k]))
  {
    var owed := OwedFor(sends[k], k);
    StepIs(keys, side, sends, r, k, owed, Heard(sends[k]));
    CountersDiffer(ks, k);
    CountersGrow(ks, k);
    OwedGrows(sends, ks, k);
    Regrouped(r.drained, r.inbox.toAck, owed);
  }

  lemma StepIs(keys: Keys, side: nat, sends: seq<Outgoing>, r: Run, k: nat, owed: seq<Word>, heard: seq<seq<byte>>)
    requires k < LIMIT && k < |sends| && Sendable(sends[k]) && owed == OwedFor(sends[k], k) && heard == Heard(sends[k])
    ensures var c := Counter(Sequence(k));
            Step(keys, side, sends, r, Arrives(k))
            == if c in r.inbox.seen then Run(r.inbox, r.drained, None)
               else Run(Inbox(r.inbox.seen + {c}, r.inbox.toAck + owed), r.drained, Some(heard))
  {
    GenuineDelivery(keys, side, r.inbox, sends[k], k);
  }

  /** After any run: the counters seen are those of the packets that arrived, and drained with pending is what they owe, in order. */
  lemma {:induction false} RunIs(keys: Keys, side: nat, sends: seq<Outgoing>, es: seq<Event>)
    requires Possible(keys, side, sends, es)
    ensures forall i :: 0 <= i < |Firsts(es)| ==> Firsts(es)[i] < |sends|
    ensures var r := After(keys, side, sends, es);
            && r.inbox.seen == CountersOf(Firsts(es))
            && r.drained + r.inbox.toAck == OwedAlong(sends, Firsts(es))
  {
    FirstsInRange(keys, side, sends, es);
    if es != [] {
      var before, e := es[..|es| - 1], es[|es| - 1];
      RunIs(keys, side, sends, before);
      var r := After(keys, side, sends, before);
      match e {
        case Arrives(k) =>
          ArrivalStep(keys, side, sends, r, Firsts(before), k);
        case Junk(_) =>
        case Drain =>
          assert r.drained + r.inbox.toAck + [] == r.drained + r.inbox.toAck;
      }
    }
  }

  /** Each message is returned exactly on its packet's first arrival, whatever came before. */
  lemma HeardExactlyOnce(keys: Keys, side: nat, sends: seq<Outgoing>, es: seq<Event>, k: nat)
    requires Possible(keys, side, sends, es) && k < |sends|
    ensures (forall i :: 0 <= i < |es + [Arrives(k)]| ==> Admissible(keys, side, sends, (es + [Arrives(k)])[i]))
    ensures After(keys, side, sends, es + [Arrives(k)]).last
         == if Arrives(k) in es then None else Some(Heard(sends[k]))
  {
    RunIs(keys, side, sends, es);
    OneMoreEvent(keys, side, sends, es, Arrives(k));
    ArrivalStep(keys, side, sends, After(keys, side, sends, es), Firsts(es), k);
    FirstsAreArrivals(es, k);
  }

  lemma OneMoreEvent(keys: Keys, side: nat, sends: seq<Outgoing>, es: seq<Event>, e: Event)
    requires (forall i :: 0 <= i < |es| ==> Admissible(keys, side, sends, es[i])) && Admissible(keys, side, sends, e)
    ensures forall i :: 0 <= i < |es + [e]| ==> Admissible(keys, side, sends, (es + [e])[i])
    ensures After(keys, side, sends, es + [e]) == Step(keys, side, sends, After(keys, side, sends, es), e)
  {
    assert (es + [e])[..|es|] == es;
  }

  lemma {:induction false} FirstsDistinct(es: seq<Event>)
    ensures forall i, j :: 0 <= i < j < |Firsts(es)| ==> Firsts(es)[i] != Firsts(es)[j]
  {
    if es != [] {
      FirstsDistinct(es[..|es| - 1]);
    }
  }

  lemma AckWordsDiffer(j: nat, k: nat)
    requires j < LIMIT && k < LIMIT && AckWord(Sequence(j)) == AckWord(Sequence(k))
    ensures j == k
  {
    WordsInRange(j);
    WordsInRange(k);
  }

  lemma {:induction false} OwedComesFrom(sends: seq<Outgoing>, ks: seq<nat>, w: Word)
    requires (forall i :: 0 <= i < |ks| ==> ks[i] < |sends|) && w in OwedAlong(sends, ks)
    ensures exists k :: k in ks && w == AckWord(Sequence(k))
  {
    var before, k := ks[..|ks| - 1], ks[|ks| - 1];
    assert OwedAlong(sends, ks) == OwedAlong(sends, before) + OwedFor(sends[k], k);
    if w in OwedAlong(sends, before) {
      OwedComesFrom(sends, before, w);
      var j :| j in before && w == AckWord(Sequence(j));
      assert j in ks;
    } else {
      assert w in OwedFor(sends[k], k);
      assert k in ks && w == AckWord(Sequence(k));
    }
  }

  predicate Distinct(ws: seq<Word>) {
    forall i, j :: 0 <= i < j < |ws| ==> ws[i] != ws[j]
  }

  lemma {:induction false} OwedOnce(sends: seq<Outgoing>, ks: seq<nat>)
    requires |sends| <= LIMIT && (forall i :: 0 <= i < |ks| ==> ks[i] < |sends|)
    requires forall i, j :: 0 <= i < j < |ks| ==> ks[i] != ks[j]
    ensures Distinct(OwedAlong(sends, ks))
  {
    if ks != [] {
      var before, k := ks[..|ks| - 1], ks[|ks| - 1];
      OwedOnce(sends, before);
      NotOwedYet(sends, before, k);
      OneMoreDistinct(OwedAlong(sends, before), OwedFor(sends[k], k));
    }
  }

  lemma {:induction false} NotOwedYet(sends: seq<Outgoing>, before: seq<nat>, k: nat)
    requires |sends| <= LIMIT && (forall i :: 0 <= i < |before| ==> before[i] < |sends| && before[i] != k) && k < |sends|
    ensures var more := OwedFor(sends[k], k); |more| <= 1 && (more != [] ==> more[0] !in OwedAlong(sends, before))
  {
    if AckWord(Sequence(k)) in OwedAlong(sends, before) {
      OwedComesFrom(sends, before, AckWord(Sequence(k)));
      var j :| j in before && AckWord(Sequence(j)) == AckWord(Sequence(k));
      AckWordsDiffer(j, k);
    }
  }

  lemma OneMoreDistinct(ws: seq<Word>, more: seq<Word>)
    requires Distinct(ws) && |more| <= 1 && (more != [] ==> more[0] !in ws)
    ensures Distinct(ws + more)
  {
  }

  /** No word is ever acknowledged twice. */
  lemma {:induction false} AcknowledgedOnce(keys: Keys, side: nat, sends: seq<Outgoing>, es: seq<Event>)
    requires Possible(keys, side, sends, es)
    ensures var r := After(keys, side, sends, es); Distinct(r.drained + r.inbox.toAck)
  {
    RunIs(keys, side, sends, es);
    FirstsDistinct(es);
    OwedOnce(sends, Firsts(es));
  }

  /** The bound is exact: the packet 2^30 later has the counter of an earlier one and is refused unheard. */
  lemma BeyondTheLimit(keys: Keys, side: nat, o: Outgoing, later: Outgoing, k: nat)
    requires k < LIMIT && Sendable(o) && Sendable(later)
    ensures var once := Deliver(keys, side, Inbox({}, []), PacketOf(keys, side, o, k));
            Deliver(keys, side, once.inbox, PacketOf(keys, side, later, k + LIMIT)) == Delivery(once.inbox, None)
  {
    GenuineDelivery(keys, side, Inbox({}, []), o, k);
    LaterCounter(k);
    var rs := RecordsOf(later, k + LIMIT);
    EncodeFront(rs);
    SealedIsAuthentic(keys, side, Encode(rs));
  }

  lemma LaterCounter(k: nat)
    requires k < LIMIT
    ensures Counter(Sequence(k + LIMIT)) == Counter(Sequence(k))
    ensures Counter(AckWord(Sequence(k + LIMIT))) == Counter(Sequence(k))
  {
  }
}
