/** Who answers whom: over every run of the two parties, which exchange a negotiation ends with. */
module CallAnswers {
  import opened Bytes
  import opened Negotiation
  import opened CallConnection
  import opened CallProtocol

  /** Messages under an exchange that was heard. */
  predicate HeardOf(heard: set<Channels>, id: string) {
    exists m :: m in heard && m.exchangeId == id
  }

  /** An offer is under the peer's own exchange, an answer under one it heard of. */
  predicate Proper(p: Party, s: Sent) {
    if s.kind.Offer? then p.side.offered && s.msg.exchangeId == p.side.exchangeId else HeardOf(p.heard, s.msg.exchangeId)
  }

  predicate AllProper(p: Party) {
    && (forall i :: 0 <= i < |p.sent| ==> Proper(p, p.sent[i]))
    && (forall i :: 0 <= i < |p.threads| && p.threads[i].Sending? ==> Proper(p, p.threads[i].what))
  }

  /** Once it has heard anything, a peer has either been answered or answers, and never both. */
  predicate Settled(p: Party) {
    && Made(p, Answer) == B(p.side.ready && !p.side.answered)
    && (p.side.answered ==> p.side.ready && p.side.offered && HeardOf(p.heard, p.side.exchangeId))
    && (p.side.ready <==> p.heard != {})
  }

  lemma HeardMore(heard: set<Channels>, more: set<Channels>, id: string)
    requires HeardOf(heard, id)
    ensures HeardOf(heard + more, id)
  {
    var m :| m in heard && m.exchangeId == id;
    assert m in heard + more;
  }

  // ---- every step keeps them -------------------------------------------

  /** The same side and more heard: what was proper stays so. */
  lemma ProperStays(p: Party, q: Party, s: Sent)
    requires Proper(p, s) && p.heard <= q.heard
    requires p.side.offered ==> q.side.offered && q.side.exchangeId == p.side.exchangeId
    ensures Proper(q, s)
  {
    if s.kind.Answer? {
      HeardMore(p.heard, q.heard, s.msg.exchangeId);
      assert p.heard + q.heard == q.heard;
    }
  }

  lemma HearKeeps(p: Party, msg: Channels)
    requires AllProper(p) && Settled(p)
    ensures var q := Step(p, Hear(msg)); AllProper(q) && Settled(q)
  {
    var h, q := Negotiate(p.side, msg), Step(p, Hear(msg));
    assert msg in q.heard;
    forall s | Proper(p, s) ensures Proper(q, s) {
      ProperStays(p, q, s);
    }
    if p.side.answered {
      HeardMore(p.heard, {msg}, p.side.exchangeId);
    }
    if h.ready {
      SpawnCounts(p, Spawn(Answer, h.reply), Answer);
    } else {
      assert p.threads + [] == p.threads;
    }
  }

  lemma DtlsUpKeeps(p: Party, drawn: string)
    requires AllProper(p) && Settled(p)
    ensures var q := Step(p, DtlsUp(drawn)); AllProper(q) && Settled(q)
  {
    var q := Step(p, DtlsUp(drawn));
    forall s | Proper(p, s) ensures Proper(q, s) {
      ProperStays(p, q, s);
    }
    SpawnCounts(p, Spawn(Offer, DtlsStarted(p.side, drawn).offer), Answer);
  }

  lemma StillToSend(p: Party, i: nat, k: nat)
    requires i < |p.threads| && k < |Take(p, i).threads| && Take(p, i).threads[k].Sending?
    ensures Take(p, i).threads[k] in p.threads
  {
    var q, r := Take(p, i), Replacement(p, i);
    assert q.threads == p.threads[..i] + r + p.threads[i + 1..];
    assert r != [] ==> !r[0].Sending? && q.threads[i] == r[0];
    if k < i {
      assert q.threads[k] == p.threads[k];
    } else {
      assert q.threads[k] == p.threads[k - |r| + 1];
    }
  }

  lemma TurnKeepsProper(p: Party, i: nat)
    requires AllProper(p) && i < |p.threads|
    ensures AllProper(Take(p, i))
  {
    var q := Take(p, i);
    forall s | Proper(p, s) ensures Proper(q, s) {
      ProperStays(p, q, s);
    }
    forall k | 0 <= k < |q.threads| && q.threads[k].Sending?
      ensures Proper(q, q.threads[k].what)
    {
      StillToSend(p, i, k);
      var j :| 0 <= j < |p.threads| && p.threads[j] == q.threads[k];
      assert Proper(p, p.threads[j].what);
    }
  }

  lemma TurnKeeps(p: Party, i: nat)
    requires AllProper(p) && Settled(p) && i < |p.threads|
    ensures var q := Step(p, Turn(i)); AllProper(q) && Settled(q)
  {
    MadeKept(p, i, Answer);
    TurnKeepsProper(p, i);
  }

  lemma StepKeeps(p: Party, e: Event)
    requires AllProper(p) && Settled(p) && (e.Turn? ==> e.thread < |p.threads|)
    ensures AllProper(Step(p, e)) && Settled(Step(p, e))
  {
    match e {
      case Hear(msg) => HearKeeps(p, msg);
      case DtlsUp(drawn) => DtlsUpKeeps(p, drawn);
      case Turn(i) => TurnKeeps(p, i);
      case _ =>
        forall s | Proper(p, s) ensures Proper(Step(p, e), s) {
          ProperStays(p, Step(p, e), s);
        }
    }
  }

  // ---- over every run --------------------------------------------------

  lemma {:induction false} RunSettles(ws: seq<World>, ms: seq<Move>, caller: Captured, callee: Captured, i: nat)
    requires Run(ws, ms, caller, callee) && i < |ws|
    ensures AllProper(ws[i].caller) && Settled(ws[i].caller) && AllProper(ws[i].callee) && Settled(ws[i].callee)
  {
    if i > 0 {
      RunSettles(ws, ms, caller, callee, i - 1);
      var m := ms[i - 1];
      StepKeeps(if m.byCaller then ws[i - 1].caller else ws[i - 1].callee, m.event);
    }
  }

  /** Some message of the other's was under this exchange. */
  predicate SaidOf(sent: seq<Sent>, id: string) {
    exists i :: 0 <= i < |sent| && sent[i].msg.exchangeId == id
  }

  /** A peer's offers are under one exchange, and its answer under one the other sent something in. */
  ghost predicate AnswersTheOther(p: Party, q: Party) {
    && (forall i :: 0 <= i < |p.sent| && p.sent[i].kind.Offer? ==> p.sent[i].msg.exchangeId == p.side.exchangeId)
    && (forall i :: 0 <= i < |p.sent| && p.sent[i].kind.Answer? ==> SaidOf(q.sent, p.sent[i].msg.exchangeId))
    && (p.side.answered ==> SaidOf(q.sent, p.side.exchangeId))
    && (p.side.ready <==> p.heard != {})
    && (p.threads == [] ==> Count(IsKind(Answer), p.sent) == B(p.side.ready && !p.side.answered))
  }

  lemma AnswersFollow(p: Party, q: Party)
    requires AllProper(p) && Settled(p) && forall msg :: msg in p.heard ==> Says(q.sent, msg)
    ensures AnswersTheOther(p, q)
  {
    forall id | HeardOf(p.heard, id) ensures SaidOf(q.sent, id) {
      var m :| m in p.heard && m.exchangeId == id;
      var i :| 0 <= i < |q.sent| && q.sent[i].msg == m;
    }
    forall i | 0 <= i < |p.sent| ensures Proper(p, p.sent[i]) {
    }
  }

  /**
    In every interleaving: offers are under the peer's own exchange, answers under one of the other's, and a
    peer with nothing left to do has sent its answer exactly if it heard something and was not itself answered.
   */
  lemma EveryAnswerIsDue(ws: seq<World>, ms: seq<Move>, caller: Captured, callee: Captured, i: nat)
    requires Run(ws, ms, caller, callee) && i < |ws| && ValidSsrcs(caller) && ValidSsrcs(callee)
    ensures AnswersTheOther(ws[i].caller, ws[i].callee) && AnswersTheOther(ws[i].callee, ws[i].caller)
  {
    RunSettles(ws, ms, caller, callee, i);
    CallProtocol.RunKeepsInv(ws, ms, caller, callee, i);
    AnswersFollow(ws[i].caller, ws[i].callee);
    AnswersFollow(ws[i].callee, ws[i].caller);
  }
}
