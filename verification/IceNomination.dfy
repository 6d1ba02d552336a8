/** When an ICE agent nominates, selects, gives up on a pair and fails: what its events must bring about. */
module IceNomination {
  import opened Bytes
  import opened IcePriority
  import opened IceChecklist

  // ---- nominating ------------------------------------------------------

  /** A tick that neither finds the agent failed nor fails it for having checked too long. */
  predicate Goes(a: Agent, overdue: bool) {
    a.connection != Failed && !(a.connection == Checking && overdue)
  }

  predicate AnyValid(pairs: seq<Pair>) {
    exists i :: 0 <= i < |pairs| && IsValid(pairs[i])
  }

  /** With nothing nominated a controlling agent nominates the highest of the pairs that succeeded, or checks on. */
  lemma TickNominatesHighest(cfg: Config, a: Agent, overdue: bool, seen: Connection, nominatable: bool)
    requires a.controlling && a.selected.None? && a.nominee.None? && Goes(a, overdue)
    ensures var b := Step(cfg, a, Tick(overdue, seen, nominatable));
            if nominatable && AnyValid(a.pairs) then
              exists i: nat :: IsBest(a.pairs, IsValid, i) && b.nominee == Some(a.pairs[i].id)
                          && b.pairs == a.pairs[i := a.pairs[i].(nominated := true)]
            else b.nominee == None && b.pairs == PingEach(a.pairs, cfg.maxRequests)
  {
    BestIsHighest(a.pairs, IsValid);
  }

  /** On a request for a listed pair: nominated exactly if it succeeded and its candidates are those of the highest pair that has not failed. */
  lemma RequestNominatesIff(a: Agent, i: nat, nominatable: bool)
    requires i < |a.pairs| && a.nominee.None? && a.selected.None?
    ensures var b := ConsiderAt(a, i, nominatable);
            && (b.nominee.Some? <==>
                  && a.pairs[i].state.Succeeded? && nominatable
                  && exists k: nat :: IsBest(a.pairs, IsAvailable, k) && SamePair(a.pairs[k], a.pairs[i]))
            && (b.nominee.Some? ==> b.nominee == Some(a.pairs[i].id))
            && (b.nominee.Some? && (forall k :: 0 <= k < |a.pairs| && k != i ==> !SamePair(a.pairs[k], a.pairs[i])) ==>
                  IsBest(a.pairs, IsAvailable, i))
  {
    BestIsHighest(a.pairs, IsAvailable);
    var best := Best(a.pairs, IsAvailable);
    forall k: nat | IsBest(a.pairs, IsAvailable, k) ensures best == Some(k) {
      BestIsUnique(a.pairs, IsAvailable, k, best.value);
    }
  }

  // ---- selecting -------------------------------------------------------

  /** The pair is selected, succeeded and nominated, and the agent connected. */
  predicate SelectedAt(b: Agent, i: nat, id: nat) {
    && i < |b.pairs| && b.pairs[i].id == id && b.pairs[i].state.Succeeded? && b.pairs[i].nominated
    && b.selected == Some(id) && b.connection == Connected
  }

  /** The answer to a nomination selects the pair: the first, or any under a nomination value. */
  lemma AnswerSelects(cfg: Config, a: Agent, local: Candidate, remote: Candidate, nomination: Option<nat>)
    requires a.controlling && Find(a.pairs, local, remote).Some? && (nomination.Some? || a.selected.None?)
    ensures var i := Find(a.pairs, local, remote).value;
            SelectedAt(Step(cfg, a, BindingSuccess(local, remote, true, nomination)), i, a.pairs[i].id)
  {
  }

  /** Without a nomination, or with a pair selected already, an answer only tells that the pair works. */
  lemma AnswerOnlySucceeds(cfg: Config, a: Agent, local: Candidate, remote: Candidate, useCandidate: bool)
    requires a.controlling && Find(a.pairs, local, remote).Some? && (!useCandidate || a.selected.Some?)
    ensures var i := Find(a.pairs, local, remote).value;
            Step(cfg, a, BindingSuccess(local, remote, useCandidate, None))
            == a.(pairs := a.pairs[i := a.pairs[i].(state := Succeeded)])
  {
  }

  lemma {:induction false} FindSame(p: seq<Pair>, q: seq<Pair>, local: Candidate, remote: Candidate)
    requires |p| == |q| && forall i :: 0 <= i < |p| ==> p[i].local == q[i].local && p[i].remote == q[i].remote
    ensures Find(p, local, remote) == Find(q, local, remote)
    decreases |p|
  {
    if p != [] {
      FindSame(p[1..], q[1..], local, remote);
    }
  }

  /** The controlled side: nominated before its check is answered, or after, the pair ends up selected. */
  lemma NominatedEitherWay(cfg: Config, a: Agent, local: Candidate, remote: Candidate)
    requires !a.controlling && a.selected.None? && Find(a.pairs, local, remote).Some?
    ensures var i := Find(a.pairs, local, remote).value;
            var request, answer := BindingRequest(local, remote, true, None, false), BindingSuccess(local, remote, false, None);
            && (!a.pairs[i].state.Succeeded? ==> Step(cfg, a, request).selected == None)
            && SelectedAt(Step(cfg, Step(cfg, a, request), answer), i, a.pairs[i].id)
            && SelectedAt(Step(cfg, Step(cfg, a, answer), request), i, a.pairs[i].id)
  {
    var i := Find(a.pairs, local, remote).value;
    RequestThenAnswer(cfg, a, local, remote, i);
    AnswerThenRequest(cfg, a, local, remote, i);
  }

  lemma RequestIs(cfg: Config, a: Agent, local: Candidate, remote: Candidate, i: nat)
    requires !a.controlling && Find(a.pairs, local, remote) == Some(i)
    ensures Step(cfg, a, BindingRequest(local, remote, true, None, false)) == NominateAt(cfg, CountAt(a, i), i, None)
  {
  }

  lemma RequestThenAnswer(cfg: Config, a: Agent, local: Candidate, remote: Candidate, i: nat)
    requires !a.controlling && a.selected.None? && Find(a.pairs, local, remote) == Some(i)
    ensures var b := Step(cfg, a, BindingRequest(local, remote, true, None, false));
            && (!a.pairs[i].state.Succeeded? ==> b.selected == None)
            && SelectedAt(Step(cfg, b, BindingSuccess(local, remote, false, None)), i, a.pairs[i].id)
  {
    var b := NominateAt(cfg, CountAt(a, i), i, None);
    RequestIs(cfg, a, local, remote, i);
    FindSame(a.pairs, b.pairs, local, remote);
    ResponseIs(cfg, b, local, remote, false, None);
    AnsweredAt(cfg, b, i);
  }

  lemma AnsweredAt(cfg: Config, b: Agent, i: nat)
    requires !b.controlling && i < |b.pairs|
    requires (b.selected.None? && b.pairs[i].onSuccess) || SelectedAt(b, i, b.pairs[i].id)
    ensures SelectedAt(SelectIfDue(cfg, SucceedAt(b, i), i, false, None), i, b.pairs[i].id)
  {
  }

  lemma AnsweredShape(cfg: Config, a: Agent, i: nat)
    requires !a.controlling && a.selected.None? && i < |a.pairs|
    ensures var b := SelectIfDue(cfg, SucceedAt(a, i), i, false, None);
            && !b.controlling && |b.pairs| == |a.pairs| && b.pairs[i].id == a.pairs[i].id && b.pairs[i].state.Succeeded?
            && (forall k :: 0 <= k < |a.pairs| ==> b.pairs[k].local == a.pairs[k].local && b.pairs[k].remote == a.pairs[k].remote)
            && (b.selected.None? || SelectedAt(b, i, a.pairs[i].id))
  {
  }

  lemma AnswerThenRequest(cfg: Config, a: Agent, local: Candidate, remote: Candidate, i: nat)
    requires !a.controlling && a.selected.None? && Find(a.pairs, local, remote) == Some(i)
    ensures var b := Step(cfg, a, BindingSuccess(local, remote, false, None));
            SelectedAt(Step(cfg, b, BindingRequest(local, remote, true, None, false)), i, a.pairs[i].id)
  {
    var b := SelectIfDue(cfg, SucceedAt(a, i), i, false, None);
    AnsweredShape(cfg, a, i);
    ResponseIs(cfg, a, local, remote, false, None);
    FindSame(a.pairs, b.pairs, local, remote);
    RequestIs(cfg, b, local, remote, i);
    RequestedAtWorking(cfg, b, i);
  }

  lemma RequestedAtWorking(cfg: Config, b: Agent, i: nat)
    requires i < |b.pairs| && b.pairs[i].state.Succeeded? && (b.selected.None? || SelectedAt(b, i, b.pairs[i].id))
    ensures SelectedAt(NominateAt(cfg, CountAt(b, i), i, None), i, b.pairs[i].id)
  {
  }

  /** A nomination of a pair that works leaves the higher of it and the selected one selected. */
  lemma NominationKeepsHigher(cfg: Config, a: Agent, i: nat)
    requires Inv(a) && i < |a.pairs| && a.pairs[i].state.Succeeded? && a.selected.Some? && NeedsCheck(cfg)
    ensures var b := NominateAt(cfg, a, i, None);
            var was, now := PriorityOfId(a.pairs, a.selected.value), PriorityOf(a.pairs[i]);
            && b.selected == (if was < now then Some(a.pairs[i].id) else a.selected)
            && PriorityOfId(b.pairs, b.selected.value) == if was < now then now else was
  {
    PriorityAt(a.pairs, a.nextId, i);
    SelectKeepsInv(a, i);
  }

  /** Nomination values: a stale one changes nothing but the count, a newer one of a pair that works always selects it. */
  lemma NewerNominationWins(cfg: Config, a: Agent, i: nat, value: nat)
    requires i < |a.pairs| && a.pairs[i].state.Succeeded? && a.selected != Some(a.pairs[i].id)
    ensures var b := RequestedAt(cfg, a, i, true, Some(value));
            if a.lastNomination.None? || value > a.lastNomination.value
            then SelectedAt(b, i, a.pairs[i].id) && b.lastNomination == Some(value)
            else b == a
  {
  }

  // ---- giving up on a pair ---------------------------------------------

  function PingTimes(p: Pair, maxRequests: nat, k: nat): Pair {
    if k == 0 then p else Pinged(PingTimes(p, maxRequests, k - 1), maxRequests)
  }

  /** A new pair that is never answered: one request a time, and failed from time maxRequests + 2 on, if the 16-bit count gets there. */
  lemma {:induction false} UnansweredFailsIff(p: Pair, maxRequests: nat, k: nat)
    requires p.state.Waiting? && p.requests == 0
    ensures var q := PingTimes(p, maxRequests, k);
            && (q.state.FailedPair? <==> maxRequests < 0xffff && k >= maxRequests + 2)
            && (!q.state.FailedPair? ==> q.state == (if k == 0 then Waiting else InProgress) && q.requests == Wrap16(k))
            && q == p.(state := q.state, requests := q.requests)
  {
    if k > 0 {
      UnansweredFailsIff(p, maxRequests, k - 1);
      Wrap16Onward(k - 1, 1);
    }
  }

  lemma {:induction false} SettledStays(p: Pair, maxRequests: nat, k: nat)
    requires p.state.Succeeded? || p.state.FailedPair?
    ensures PingTimes(p, maxRequests, k) == p
  {
    if k > 0 {
      SettledStays(p, maxRequests, k - 1);
    }
  }

  /** Nothing but ticks, none of them at the end of the agent's patience. */
  predicate Quiet(es: seq<Event>) {
    forall i :: 0 <= i < |es| ==> es[i].Tick? && !es[i].overdue
  }

  /** A controlled agent that hears nothing pings every pair once a tick. */
  lemma {:induction false} QuietTicksPing(cfg: Config, a: Agent, es: seq<Event>)
    requires !a.controlling && !cfg.lite && a.selected.None? && a.connection != Failed && Quiet(es)
    ensures var b := Run(cfg, a, es);
            && b == a.(pairs := b.pairs) && |b.pairs| == |a.pairs|
            && forall i :: 0 <= i < |a.pairs| ==> b.pairs[i] == PingTimes(a.pairs[i], cfg.maxRequests, |es|)
  {
    if es != [] {
      QuietTicksPing(cfg, a, es[..|es| - 1]);
    }
  }

  // ---- failing ---------------------------------------------------------

  /** A tick ends in failure exactly where the agent had failed, had checked too long, or lost its selected pair for good. */
  lemma TickFailsIff(cfg: Config, a: Agent, overdue: bool, seen: Connection, nominatable: bool)
    ensures var b := Step(cfg, a, Tick(overdue, seen, nominatable));
            && (b.connection == Failed <==>
                  a.connection == Failed || (a.connection == Checking && overdue) || (a.selected.Some? && seen == Failed))
            && (b.connection == Failed && a.connection != Failed ==>
                  b.pairs == [] && b.selected == None && b.locals == map[] && b.remotes == map[])
            && (a.selected.Some? && Goes(a, overdue) ==> b.connection == seen)
  {
    TickIs(cfg, a, overdue, seen, nominatable);
  }

  // ---- starting over ---------------------------------------------------

  /** A restart forgets pairs, candidates, selection and nominations, and goes back to checking unless nothing had begun. */
  lemma RestartForgets(cfg: Config, a: Agent)
    ensures var b := Step(cfg, a, Restart);
            && b.pairs == [] && b.selected == None && b.nominee == None && b.lastNomination == None
            && b.locals == map[] && b.remotes == map[] && b.nextId == a.nextId && b.controlling == a.controlling
            && b.connection == (if a.connection == Fresh then Fresh else Checking)
  {
  }

  /** Of two agents that meet in one role with different tie-breakers, one keeps everything and the other changes only its role. */
  lemma ConflictSwitchesOne(cfg: Config, a: Agent, cfg': Config, b: Agent)
    requires a.controlling == b.controlling && cfg.tieBreaker != cfg'.tieBreaker
    ensures var x, y := Step(cfg, a, RoleConflict(cfg'.tieBreaker)), Step(cfg', b, RoleConflict(cfg.tieBreaker));
            && x.controlling != y.controlling
            && (if cfg.tieBreaker > cfg'.tieBreaker then x.controlling else y.controlling)
            && x.pairs == a.pairs && x.selected == a.selected && y.pairs == b.pairs && y.selected == b.selected
            && (x.controlling == a.controlling ==> x == a) && (y.controlling == b.controlling ==> y == b)
  {
  }
}
