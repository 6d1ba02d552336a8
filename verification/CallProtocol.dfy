/** Two connections and the messages between them, one locked section or one send at a time. */
module CallProtocol {
  import opened Bytes
  import opened Negotiation
  import opened CallConnection

  datatype Kind = Offer | Answer

  datatype Sent = Sent(kind: Kind, msg: Channels)

  /** What a handler still has to do once it has left its locked section. */
  datatype Thread = Sending(what: Sent) | Creating | Building(audio: nat)

  /** starting: the one goroutine that brings DTLS up has not reported yet. */
  datatype Party = Party(
    side: Side, starting: bool, threads: seq<Thread>, sent: seq<Sent>,
    heard: set<Channels>, built: seq<Captured>, arrived: seq<string>)

  function Fresh(audio: nat, video: nat): Party {
    Party(Opened(audio, video), false, [], [], {}, [], [])
  }

  // ---- steps -----------------------------------------------------------

  datatype Event =
    | InitialSetup
    | CandidatesArrive(ics: seq<string>)
    | DtlsUp(drawn: string)
    | Hear(msg: Channels)
    | Turn(thread: nat)

  predicate Says(ss: seq<Sent>, msg: Channels) {
    exists i :: 0 <= i < |ss| && ss[i].msg == msg
  }

  /** A sent message may be heard any number of times, in any order. */
  ghost predicate Enabled(p: Party, other: seq<Sent>, e: Event) {
    match e
    case InitialSetup => true
    case CandidatesArrive(_) => true
    case DtlsUp(_) => p.starting
    case Hear(msg) => Says(other, msg)
    case Turn(i) => i < |p.threads|
  }

  function Spawn(kind: Kind, msg: Option<Channels>): Thread {
    if msg.Some? then Sending(Sent(kind, msg.value)) else Creating
  }

  /** A thread sends its message, then tries to create the channels, then reads the video SSRC outside the lock. */
  function Take(p: Party, i: nat): Party
    requires i < |p.threads|
  {
    var before, after := p.threads[..i], p.threads[i + 1..];
    match p.threads[i]
    case Sending(what) => p.(sent := p.sent + [what], threads := before + [Creating] + after)
    case Creating =>
      p.(side := MaybeCreate(p.side),
         threads := before + (if Creates(p.side) then [Building(p.side.peer.audio)] else []) + after)
    case Building(audio) =>
      p.(built := p.built + [Captured(audio, p.side.peer.video)], threads := before + after)
  }

  function Step(p: Party, e: Event): Party
    requires e.Turn? ==> e.thread < |p.threads|
  {
    match e
    case InitialSetup => p.(side := Setup(p.side), starting := p.starting || !p.side.iceStarted)
    case CandidatesArrive(ics) => p.(side := Candidates(p.side, ics), arrived := p.arrived + ics)
    case DtlsUp(drawn) =>
      var s := DtlsStarted(p.side, drawn);
      p.(side := s.side, starting := false, threads := p.threads + [Spawn(Offer, s.offer)])
    case Hear(msg) =>
      var h := Negotiate(p.side, msg);
      p.(side := h.side, heard := p.heard + {msg},
         threads := p.threads + if h.ready then [Spawn(Answer, h.reply)] else [])
    case Turn(i) => Take(p, i)
  }

  // ---- counting --------------------------------------------------------

  function Count<T>(f: T -> bool, s: seq<T>): nat {
    if s == [] then 0 else (if f(s[0]) then 1 else 0) + Count(f, s[1..])
  }

  lemma {:induction false} CountJoins<T>(f: T -> bool, a: seq<T>, b: seq<T>)
    ensures Count(f, a + b) == Count(f, a) + Count(f, b)
  {
    if a == [] {
      assert a + b == b;
    } else {
      assert (a + b)[1..] == a[1..] + b;
      CountJoins(f, a[1..], b);
    }
  }

  function One<T>(f: T -> bool, t: T): nat {
    if f(t) then 1 else 0
  }

  lemma CountOne<T>(f: T -> bool, t: T)
    ensures Count(f, [t]) == One(f, t)
  {
    assert [t][1..] == [];
  }

  /** Replacing one element changes the count by what it and its replacement count for. */
  lemma CountReplaced<T>(f: T -> bool, s: seq<T>, i: nat, repl: seq<T>)
    requires i < |s|
    ensures Count(f, s[..i] + repl + s[i + 1..]) + One(f, s[i]) == Count(f, s) + Count(f, repl)
  {
    assert s == s[..i] + [s[i]] + s[i + 1..];
    CountJoins(f, s[..i] + [s[i]], s[i + 1..]);
    CountJoins(f, s[..i], [s[i]]);
    CountOne(f, s[i]);
    CountJoins(f, s[..i] + repl, s[i + 1..]);
    CountJoins(f, s[..i], repl);
  }

  function IsKind(kind: Kind): Sent -> bool {
    (s: Sent) => s.kind == kind
  }

  function IsSending(kind: Kind): Thread -> bool {
    (t: Thread) => t.Sending? && t.what.kind == kind
  }

  predicate IsPending(t: Thread) {
    !t.Building?
  }

  predicate IsBuilding(t: Thread) {
    t.Building?
  }

  /** The offers, or the answers, a peer has sent or is about to send. */
  function Made(p: Party, kind: Kind): nat {
    Count(IsKind(kind), p.sent) + Count(IsSending(kind), p.threads)
  }

  // ---- invariants ------------------------------------------------------

  function B(b: bool): nat {
    if b then 1 else 0
  }

  ghost predicate Counts(p: Party) {
    && Made(p, Offer) == B(p.side.offered)
    && Made(p, Answer) <= B(p.side.ready)
    && |p.built| + Count(IsBuilding, p.threads) == B(p.side.created)
  }

  predicate Flags(p: Party) {
    && p.side.dtlsStarted == p.side.offered
    && p.side.remoteReady == p.side.iceStarted
    && (p.side.dtlsStarted ==> p.side.iceStarted)
    && (p.starting ==> p.side.iceStarted && !p.side.dtlsStarted)
    && (p.side.created ==> p.side.dtlsStarted && p.side.ready)
    && (p.heard != {} ==> p.side.ready)
  }

  /** Whenever channels are due, a thread is on its way to create them. */
  predicate Triggered(p: Party) {
    Creates(p.side) ==> Count(IsPending, p.threads) >= 1
  }

  predicate Buffered(p: Party) {
    if p.side.remoteReady then p.side.added == p.arrived && p.side.pending == []
    else p.side.pending == p.arrived && p.side.added == []
  }

  /** Every message a peer makes carries its own SSRCs. */
  predicate OwnSsrcs(p: Party, own: Captured) {
    && p.side.audio == own.audio && p.side.video == own.video
    && (forall i :: 0 <= i < |p.sent| ==> p.sent[i].msg.contents == ContentsOf(own.audio, own.video))
    && (forall i :: 0 <= i < |p.threads| ==> p.threads[i].Sending? ==>
          p.threads[i].what.msg.contents == ContentsOf(own.audio, own.video))
  }

  /** And what it knows of the other's is right. */
  predicate PeerSsrcs(p: Party, other: Captured) {
    && p.side.peer == (if p.side.ready then other else Captured(0, 0))
    && (forall i :: 0 <= i < |p.threads| ==> p.threads[i].Building? ==>
          p.side.ready && p.threads[i].audio == other.audio)
    && (forall i :: 0 <= i < |p.built| ==> p.built[i] == other)
  }

  ghost predicate Inv(p: Party, own: Captured, other: Captured) {
    && Counts(p) && Flags(p) && Triggered(p) && Buffered(p) && OwnSsrcs(p, own) && PeerSsrcs(p, other)
  }

  lemma FreshInv(own: Captured, other: Captured)
    ensures Inv(Fresh(own.audio, own.video), own, other)
  {
  }

  // ---- every step keeps them -------------------------------------------

  /** Messages a peer may be given: those of a peer with these SSRCs. */
  predicate Carries(e: Event, other: Captured) {
    e.Hear? ==> e.msg.contents == ContentsOf(other.audio, other.video)
  }

  lemma SpawnCounts(p: Party, t: Thread, kind: Kind)
    ensures Count(IsSending(kind), p.threads + [t]) == Count(IsSending(kind), p.threads) + One(IsSending(kind), t)
    ensures Count(IsPending, p.threads + [t]) == Count(IsPending, p.threads) + One(IsPending, t)
    ensures Count(IsBuilding, p.threads + [t]) == Count(IsBuilding, p.threads) + One(IsBuilding, t)
  {
    CountJoins(IsSending(kind), p.threads, [t]);
    CountJoins(IsPending, p.threads, [t]);
    CountJoins(IsBuilding, p.threads, [t]);
    CountOne(IsSending(kind), t);
    CountOne(IsPending, t);
    CountOne(IsBuilding, t);
  }

  lemma DtlsUpKeepsInv(p: Party, own: Captured, other: Captured, drawn: string)
    requires Inv(p, own, other) && p.starting
    ensures Inv(Step(p, DtlsUp(drawn)), own, other)
  {
    var t := Spawn(Offer, DtlsStarted(p.side, drawn).offer);
    SpawnCounts(p, t, Offer);
    SpawnCounts(p, t, Answer);
  }

  lemma HearKeepsInv(p: Party, own: Captured, other: Captured, msg: Channels)
    requires Inv(p, own, other) && msg.contents == ContentsOf(other.audio, other.video)
    requires other.audio <= MAX_SSRC && other.video <= MAX_SSRC
    ensures Inv(Step(p, Hear(msg)), own, other)
  {
    var h := Negotiate(p.side, msg);
    if h.ready {
      CapturesBoth(other.audio, other.video);
      SpawnCounts(p, Spawn(Answer, h.reply), Offer);
      SpawnCounts(p, Spawn(Answer, h.reply), Answer);
    } else {
      assert p.threads + [] == p.threads;
    }
  }

  function Replacement(p: Party, i: nat): seq<Thread>
    requires i < |p.threads|
  {
    match p.threads[i]
    case Sending(_) => [Creating]
    case Creating => if Creates(p.side) then [Building(p.side.peer.audio)] else []
    case Building(_) => []
  }

  /** What one turn does to the count of a kind of thread. */
  lemma ThreadsCount(p: Party, i: nat, f: Thread -> bool)
    requires i < |p.threads|
    ensures var r := Replacement(p, i);
            Count(f, Take(p, i).threads) + One(f, p.threads[i]) == Count(f, p.threads) + if r == [] then 0 else One(f, r[0])
  {
    var r := Replacement(p, i);
    assert Take(p, i).threads == p.threads[..i] + r + p.threads[i + 1..];
    CountReplaced(f, p.threads, i, r);
    if r != [] {
      assert r == [r[0]];
      CountOne(f, r[0]);
    }
  }

  lemma SentCount(p: Party, i: nat, kind: Kind)
    requires i < |p.threads|
    ensures var t := p.threads[i];
            Count(IsKind(kind), Take(p, i).sent) == Count(IsKind(kind), p.sent) + One(IsSending(kind), t)
  {
    var t := p.threads[i];
    if t.Sending? {
      CountJoins(IsKind(kind), p.sent, [t.what]);
      CountOne(IsKind(kind), t.what);
    }
  }

  lemma MadeKept(p: Party, i: nat, kind: Kind)
    requires i < |p.threads|
    ensures Made(Take(p, i), kind) == Made(p, kind)
  {
    ThreadsCount(p, i, IsSending(kind));
    SentCount(p, i, kind);
  }

  lemma TurnKeepsCounts(p: Party, i: nat)
    requires i < |p.threads| && Counts(p) && Flags(p) && Triggered(p)
    ensures var q := Take(p, i); Counts(q) && Flags(q) && Triggered(q)
  {
    MadeKept(p, i, Offer);
    MadeKept(p, i, Answer);
    ThreadsCount(p, i, IsBuilding);
    ThreadsCount(p, i, IsPending);
  }

  lemma TurnKeepsSsrcs(p: Party, own: Captured, other: Captured, i: nat)
    requires i < |p.threads| && OwnSsrcs(p, own) && PeerSsrcs(p, other) && Flags(p)
    ensures var q := Take(p, i); OwnSsrcs(q, own) && PeerSsrcs(q, other)
  {
    var r := Replacement(p, i);
    var q := Take(p, i);
    assert q.threads == p.threads[..i] + r + p.threads[i + 1..];
    forall k | 0 <= k < |q.threads|
      ensures q.threads[k] in p.threads || (r != [] && q.threads[k] == r[0])
    {
      if k < i {
        assert q.threads[k] == p.threads[k];
      } else if k < i + |r| {
        assert q.threads[k] == r[0];
      } else {
        assert q.threads[k] == p.threads[k - |r| + 1];
      }
    }
  }

  lemma TurnKeepsInv(p: Party, own: Captured, other: Captured, i: nat)
    requires Inv(p, own, other) && i < |p.threads|
    ensures Inv(Step(p, Turn(i)), own, other)
  {
    TurnKeepsCounts(p, i);
    TurnKeepsSsrcs(p, own, other, i);
  }

  lemma StepKeepsInv(p: Party, own: Captured, other: Captured, e: Event)
    requires Inv(p, own, other) && Carries(e, other)
    requires other.audio <= MAX_SSRC && other.video <= MAX_SSRC
    requires (e.DtlsUp? ==> p.starting) && (e.Turn? ==> e.thread < |p.threads|)
    ensures Inv(Step(p, e), own, other)
  {
    match e {
      case InitialSetup =>
        assert p.side.added + p.side.pending == p.arrived;
      case CandidatesArrive(ics) =>
      case DtlsUp(drawn) => DtlsUpKeepsInv(p, own, other, drawn);
      case Hear(msg) => HearKeepsInv(p, own, other, msg);
      case Turn(i) => TurnKeepsInv(p, own, other, i);
    }
  }

  // ---- runs of the two -------------------------------------------------

  datatype Move = Move(byCaller: bool, event: Event)

  datatype World = World(caller: Party, callee: Party)

  ghost predicate Possible(w: World, m: Move) {
    if m.byCaller then Enabled(w.caller, w.callee.sent, m.event) else Enabled(w.callee, w.caller.sent, m.event)
  }

  function Next(w: World, m: Move): World
    requires m.event.Turn? ==> m.event.thread < |(if m.byCaller then w.caller else w.callee).threads|
  {
    if m.byCaller then w.(caller := Step(w.caller, m.event)) else w.(callee := Step(w.callee, m.event))
  }

  /** Every interleaving: each world follows from the one before by a possible move. */
  ghost predicate Run(ws: seq<World>, ms: seq<Move>, caller: Captured, callee: Captured) {
    && |ws| == |ms| + 1
    && ws[0] == World(Fresh(caller.audio, caller.video), Fresh(callee.audio, callee.video))
    && forall i :: 0 <= i < |ms| ==> Possible(ws[i], ms[i]) && ws[i + 1] == Next(ws[i], ms[i])
  }

  ghost predicate WorldInv(w: World, caller: Captured, callee: Captured) {
    && Inv(w.caller, caller, callee) && Inv(w.callee, callee, caller)
    && (forall msg :: msg in w.caller.heard ==> Says(w.callee.sent, msg))
    && (forall msg :: msg in w.callee.heard ==> Says(w.caller.sent, msg))
  }

  predicate ValidSsrcs(c: Captured) {
    c.audio <= MAX_SSRC && c.video <= MAX_SSRC
  }

  lemma SaysMore(ss: seq<Sent>, more: seq<Sent>, msg: Channels)
    requires Says(ss, msg)
    ensures Says(ss + more, msg)
  {
    var i :| 0 <= i < |ss| && ss[i].msg == msg;
    assert (ss + more)[i] == ss[i];
  }

  lemma HeardKept(p: Party, e: Event, heard: set<Channels>)
    requires e.Turn? ==> e.thread < |p.threads|
    requires forall msg :: msg in heard ==> Says(p.sent, msg)
    ensures forall msg :: msg in heard ==> Says(Step(p, e).sent, msg)
  {
    if e.Turn? && p.threads[e.thread].Sending? {
      forall msg | msg in heard ensures Says(Step(p, e).sent, msg) {
        SaysMore(p.sent, [p.threads[e.thread].what], msg);
      }
    }
  }

  /** What one side hears is said by the other, and what it is told carries the other's SSRCs. */
  lemma SideKeepsInv(p: Party, own: Captured, q: Party, other: Captured, e: Event)
    requires Inv(p, own, other) && Inv(q, other, own) && Enabled(p, q.sent, e)
    requires ValidSsrcs(own) && ValidSsrcs(other)
    requires (forall msg :: msg in p.heard ==> Says(q.sent, msg)) && (forall msg :: msg in q.heard ==> Says(p.sent, msg))
    ensures var p' := Step(p, e);
            && Inv(p', own, other)
            && (forall msg :: msg in p'.heard ==> Says(q.sent, msg))
            && (forall msg :: msg in q.heard ==> Says(p'.sent, msg))
  {
    StepKeepsInv(p, own, other, e);
    HeardKept(p, e, q.heard);
  }

  lemma MoveKeepsInv(w: World, m: Move, caller: Captured, callee: Captured)
    requires WorldInv(w, caller, callee) && Possible(w, m) && ValidSsrcs(caller) && ValidSsrcs(callee)
    ensures WorldInv(Next(w, m), caller, callee)
  {
    if m.byCaller {
      SideKeepsInv(w.caller, caller, w.callee, callee, m.event);
    } else {
      SideKeepsInv(w.callee, callee, w.caller, caller, m.event);
    }
  }

  lemma {:induction false} RunKeepsInv(ws: seq<World>, ms: seq<Move>, caller: Captured, callee: Captured, i: nat)
    requires Run(ws, ms, caller, callee) && i < |ws| && ValidSsrcs(caller) && ValidSsrcs(callee)
    ensures WorldInv(ws[i], caller, callee)
  {
    if i == 0 {
      FreshInv(caller, callee);
      FreshInv(callee, caller);
    } else {
      RunKeepsInv(ws, ms, caller, callee, i - 1);
      MoveKeepsInv(ws[i - 1], ms[i - 1], caller, callee);
    }
  }

  // ---- what follows ----------------------------------------------------

  /** At most one offer and one answer are sent, channels are built at most once, only when both sides of the
      condition hold, and with exactly the other's SSRCs. */
  ghost predicate Orderly(p: Party, other: Captured) {
    && Count(IsKind(Offer), p.sent) <= 1
    && Count(IsKind(Answer), p.sent) <= 1
    && |p.built| <= 1
    && (|p.built| == 1 ==> p.side.dtlsStarted && p.side.ready && p.built[0] == other)
    && (Creates(p.side) ==> Count(IsPending, p.threads) >= 1)
    && (if p.side.remoteReady then p.side.added == p.arrived else p.side.added == [] && p.side.pending == p.arrived)
  }

  lemma EveryRunIsOrderly(ws: seq<World>, ms: seq<Move>, caller: Captured, callee: Captured, i: nat)
    requires Run(ws, ms, caller, callee) && i < |ws| && ValidSsrcs(caller) && ValidSsrcs(callee)
    ensures Orderly(ws[i].caller, callee) && Orderly(ws[i].callee, caller)
  {
    RunKeepsInv(ws, ms, caller, callee, i);
  }

  /** All of p's messages have reached the other. */
  predicate AllHeard(sent: seq<Sent>, heard: set<Channels>) {
    forall i :: 0 <= i < |sent| ==> sent[i].msg in heard
  }

  /** Once both have DTLS up, nothing is left to do and everything sent was heard, both have their channels. */
  lemma QuiescentIsComplete(ws: seq<World>, ms: seq<Move>, caller: Captured, callee: Captured, i: nat)
    requires Run(ws, ms, caller, callee) && i < |ws| && ValidSsrcs(caller) && ValidSsrcs(callee)
    requires ws[i].caller.threads == [] && ws[i].callee.threads == []
    requires ws[i].caller.side.dtlsStarted && ws[i].callee.side.dtlsStarted
    requires AllHeard(ws[i].caller.sent, ws[i].callee.heard) && AllHeard(ws[i].callee.sent, ws[i].caller.heard)
    ensures ws[i].caller.built == [callee] && ws[i].callee.built == [caller]
  {
    RunKeepsInv(ws, ms, caller, callee, i);
    Completes(ws[i].caller, caller, callee, ws[i].callee);
    Completes(ws[i].callee, callee, caller, ws[i].caller);
  }

  lemma Completes(p: Party, own: Captured, other: Captured, q: Party)
    requires Inv(p, own, other) && Inv(q, other, own)
    requires p.threads == [] && q.threads == [] && p.side.dtlsStarted && q.side.dtlsStarted && AllHeard(q.sent, p.heard)
    ensures p.built == [other]
  {
    assert Count(IsKind(Offer), q.sent) == 1;
    assert q.sent[0].msg in p.heard;
    assert |p.built| == 1 && p.built == [p.built[0]];
  }

  /** A thread takes at most three turns. */
  function Work(ts: seq<Thread>): nat {
    if ts == [] then 0
    else (match ts[0] case Sending(_) => 3 case Creating => 2 case Building(_) => 1) + Work(ts[1..])
  }

  lemma {:induction false} WorkJoins(a: seq<Thread>, b: seq<Thread>)
    ensures Work(a + b) == Work(a) + Work(b)
  {
    if a == [] {
      assert a + b == b;
    } else {
      assert (a + b)[1..] == a[1..] + b;
      WorkJoins(a[1..], b);
    }
  }

  /** So taking turns alone always ends, with no thread left. */
  lemma TurnsRunOut(p: Party, i: nat)
    requires i < |p.threads|
    ensures Work(Take(p, i).threads) < Work(p.threads)
  {
    var r := Replacement(p, i);
    var before, after := p.threads[..i], p.threads[i + 1..];
    assert p.threads == before + [p.threads[i]] + after;
    assert Take(p, i).threads == before + r + after;
    WorkJoins(before + [p.threads[i]], after);
    WorkJoins(before, [p.threads[i]]);
    WorkJoins(before + r, after);
    WorkJoins(before, r);
    assert [p.threads[i]][1..] == [];
    assert r != [] ==> r[1..] == [];
  }
}
