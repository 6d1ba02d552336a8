/** Which candidates of an ICE agent are paired: what adding one makes, and what every run keeps. */
module IcePairing {
  import opened Bytes
  import opened IcePriority
  import opened IceChecklist

  // ---- listed pairs ----------------------------------------------------

  predicate PairsThem(p: Pair, local: Candidate, remote: Candidate) {
    SameCandidate(p.local, local) && SameCandidate(p.remote, remote)
  }

  predicate Paired(pairs: seq<Pair>, local: Candidate, remote: Candidate) {
    exists i :: 0 <= i < |pairs| && PairsThem(pairs[i], local, remote)
  }

  lemma {:induction false} FindTells(pairs: seq<Pair>, local: Candidate, remote: Candidate)
    ensures Find(pairs, local, remote).Some? <==> Paired(pairs, local, remote)
    ensures Find(pairs, local, remote).Some? ==> PairsThem(pairs[Find(pairs, local, remote).value], local, remote)
    decreases |pairs|
  {
    if pairs != [] {
      FindTells(pairs[1..], local, remote);
      if Paired(pairs, local, remote) && !PairsThem(pairs[0], local, remote) {
        var i :| 0 <= i < |pairs| && PairsThem(pairs[i], local, remote);
        assert PairsThem(pairs[1..][i - 1], local, remote);
      }
      if Paired(pairs[1..], local, remote) {
        var i :| 0 <= i < |pairs[1..]| && PairsThem(pairs[1..][i], local, remote);
        assert PairsThem(pairs[i + 1], local, remote);
      }
    }
  }

  /** Pair k is none of those listed before it. */
  predicate IsNovel(pairs: seq<Pair>, k: nat) {
    k < |pairs| && forall j :: 0 <= j < k ==> !PairsThem(pairs[j], pairs[k].local, pairs[k].remote)
  }

  // ---- a remote candidate ----------------------------------------------

  /** Beyond the first n pairs there are only new ones of these locals with the candidate. */
  predicate OnlyAdds(pairs: seq<Pair>, n: nat, locals: seq<Candidate>, cand: Candidate) {
    && n <= |pairs|
    && forall k :: n <= k < |pairs| ==> pairs[k].local in locals && pairs[k].remote == cand && IsNovel(pairs, k)
  }

  predicate AllPaired(pairs: seq<Pair>, locals: seq<Candidate>, cand: Candidate) {
    forall i :: 0 <= i < |locals| ==> Paired(pairs, locals[i], cand)
  }

  lemma PairedLonger(pairs: seq<Pair>, more: seq<Pair>, local: Candidate, remote: Candidate)
    requires Paired(pairs, local, remote)
    ensures Paired(pairs + more, local, remote)
  {
    var i :| 0 <= i < |pairs| && PairsThem(pairs[i], local, remote);
    assert (pairs + more)[i] == pairs[i];
  }

  /** All the locals given end up paired with the candidate, and no pair is made twice. */
  lemma {:induction false} PairsUnpaired(a: Agent, locals: seq<Candidate>, cand: Candidate)
    ensures var b := PairUnpaired(a, locals, cand);
            && |a.pairs| <= |b.pairs| && b.pairs[..|a.pairs|] == a.pairs
            && AllPaired(b.pairs, locals, cand) && OnlyAdds(b.pairs, |a.pairs|, locals, cand)
            && b == a.(pairs := b.pairs, nextId := b.nextId)
    decreases |locals|
  {
    if locals == [] {
      assert a.pairs[..|a.pairs|] == a.pairs;
    } else {
      var init, l := locals[..|locals| - 1], locals[|locals| - 1];
      PairsUnpaired(a, init, cand);
      assert locals == init + [l];
      OneMorePaired(PairUnpaired(a, init, cand), |a.pairs|, init, l, cand);
    }
  }

  lemma OneMorePaired(a: Agent, n: nat, init: seq<Candidate>, l: Candidate, cand: Candidate)
    requires AllPaired(a.pairs, init, cand) && OnlyAdds(a.pairs, n, init, cand)
    ensures var b := if Find(a.pairs, l, cand).None? then AddPair(a, l, cand) else a;
            && b.pairs[..n] == a.pairs[..n] && AllPaired(b.pairs, init + [l], cand) && OnlyAdds(b.pairs, n, init + [l], cand)
  {
    FindTells(a.pairs, l, cand);
    if Find(a.pairs, l, cand).None? {
      AddsNovel(a, l, cand);
      var b := AddPair(a, l, cand);
      forall i | 0 <= i < |init| ensures Paired(b.pairs, init[i], cand) {
        PairedLonger(a.pairs, [b.pairs[|a.pairs|]], init[i], cand);
      }
      forall k | n <= k < |a.pairs| ensures IsNovel(b.pairs, k) {
        assert IsNovel(a.pairs, k);
      }
    }
  }

  lemma AddsNovel(a: Agent, local: Candidate, remote: Candidate)
    requires !Paired(a.pairs, local, remote)
    ensures var b := AddPair(a, local, remote);
            && b.pairs == a.pairs + [b.pairs[|a.pairs|]] && IsNovel(b.pairs, |a.pairs|)
            && b.pairs[|a.pairs|].local == local && b.pairs[|a.pairs|].remote == remote && Paired(b.pairs, local, remote)
  {
    var b := AddPair(a, local, remote);
    assert PairsThem(b.pairs[|a.pairs|], local, remote);
  }

  lemma {:induction false} ReplaceEachKeepsShape(a: Agent, olds: seq<Candidate>, new_: Candidate)
    ensures var b := ReplaceEach(a, olds, new_);
            && |b.pairs| == |a.pairs| && b.locals == a.locals && b.remotes == a.remotes
            && forall i :: 0 <= i < |a.pairs| ==>
                 && b.pairs[i].local == a.pairs[i].local
                 && (b.pairs[i].remote == a.pairs[i].remote || (a.pairs[i].remote in olds && b.pairs[i].remote == new_))
    decreases |olds|
  {
    if olds != [] {
      ReplaceEachKeepsShape(a, olds[..|olds| - 1], new_);
    }
  }

  /** The remotes a new one is listed beside. */
  function Kept(a: Agent, cand: Candidate): seq<Candidate> {
    var known := On(a.remotes, cand.network);
    if cand.kind.PeerReflexive? then known else NotRedundant(known, cand)
  }

  /** A remote candidate that is new: every local of its network is paired with it, and only what was unpaired is added. */
  lemma NewRemoteIsPaired(a: Agent, cand: Candidate)
    requires !Known(On(a.remotes, cand.network), cand)
    ensures var b := AddRemote(a, cand);
            && b.locals == a.locals && b.remotes == a.remotes[cand.network := Kept(a, cand) + [cand]]
            && (!cand.tcp.Passive? ==>
                  && AllPaired(b.pairs, On(a.locals, cand.network), cand)
                  && OnlyAdds(b.pairs, |a.pairs|, On(a.locals, cand.network), cand))
            && (cand.tcp.Passive? ==> |b.pairs| == |a.pairs|)
  {
    var known := On(a.remotes, cand.network);
    ReplaceEachKeepsShape(a, Redundant(known, cand), cand);
    var replaced := if cand.kind.PeerReflexive? then a else ReplaceEach(a, Redundant(known, cand), cand);
    var listed := replaced.(remotes := replaced.remotes[cand.network := Kept(a, cand) + [cand]]);
    PairsUnpaired(listed, On(listed.locals, cand.network), cand);
  }

  // ---- a local candidate -----------------------------------------------

  lemma {:induction false} PairsAll(a: Agent, cand: Candidate, remotes: seq<Candidate>)
    ensures var b := PairAll(a, cand, remotes);
            && |b.pairs| == |a.pairs| + |remotes| && b.pairs[..|a.pairs|] == a.pairs
            && (forall i :: 0 <= i < |remotes| ==>
                  b.pairs[|a.pairs| + i] == NewPair(a.nextId + 1 + i, cand, remotes[i], a.controlling))
            && b == a.(pairs := b.pairs, nextId := a.nextId + |remotes|)
    decreases |remotes|
  {
    if remotes == [] {
      assert a.pairs[..|a.pairs|] == a.pairs;
    } else {
      PairsAll(a, cand, remotes[..|remotes| - 1]);
    }
  }

  /** The candidate is listed and paired with every remote of its network, once each, and nothing else is added. */
  predicate PairsWithAll(a: Agent, b: Agent, cand: Candidate) {
    var remotes := On(a.remotes, cand.network);
    && b.remotes == a.remotes && b.locals == a.locals[cand.network := On(a.locals, cand.network) + [cand]]
    && |b.pairs| == |a.pairs| + |remotes| && b.pairs[..|a.pairs|] == a.pairs
    && forall i :: 0 <= i < |remotes| ==>
         b.pairs[|a.pairs| + i] == NewPair(a.nextId + 1 + i, cand, remotes[i], a.controlling)
  }

  lemma NewLocalIsPaired(a: Agent, cand: Candidate)
    requires !Known(On(a.locals, cand.network), cand)
    ensures PairsWithAll(a, AddLocal(a, cand), cand)
  {
    PairsAll(a.(locals := a.locals[cand.network := On(a.locals, cand.network) + [cand]]), cand, On(a.remotes, cand.network));
  }

  // ---- over whole runs -------------------------------------------------

  /** Every candidate is filed under its own network. */
  ghost predicate AtHome(sets: Sets) {
    forall n, c: Candidate :: n in sets && c in sets[n] ==> c.network == n
  }

  predicate MustPair(a: Agent, local: Candidate, remote: Candidate) {
    && local.network == remote.network && !remote.tcp.Passive?
    && local in On(a.locals, local.network) && remote in On(a.remotes, remote.network)
  }

  ghost predicate FullyPaired(a: Agent) {
    && AtHome(a.locals) && AtHome(a.remotes)
    && forall l: Candidate, r: Candidate :: MustPair(a, l, r) ==> Paired(a.pairs, l, r)
  }

  /** The same candidates, and no pair lost or changed in its candidates. */
  predicate KeepsPairs(a: Agent, b: Agent) {
    && b.locals == a.locals && b.remotes == a.remotes && |a.pairs| <= |b.pairs|
    && forall i :: 0 <= i < |a.pairs| ==> b.pairs[i].local == a.pairs[i].local && b.pairs[i].remote == a.pairs[i].remote
  }

  predicate Emptied(b: Agent) {
    b.pairs == [] && b.locals == map[] && b.remotes == map[]
  }

  lemma KeepsPaired(a: Agent, b: Agent)
    requires FullyPaired(a) && (KeepsPairs(a, b) || Emptied(b))
    ensures FullyPaired(b)
  {
    forall l, r | MustPair(b, l, r) ensures Paired(b.pairs, l, r) {
      assert MustPair(a, l, r);
      var i :| 0 <= i < |a.pairs| && PairsThem(a.pairs[i], l, r);
      assert PairsThem(b.pairs[i], l, r);
    }
  }

  lemma {:induction false} Sorted(set_: seq<Candidate>, cand: Candidate)
    ensures forall c: Candidate :: c in Redundant(set_, cand) ==> c in set_ && IsRedundant(c, cand)
    ensures forall c: Candidate :: c in NotRedundant(set_, cand) <==> c in set_ && !IsRedundant(c, cand)
    decreases |set_|
  {
    if set_ != [] {
      Sorted(set_[..|set_| - 1], cand);
      assert set_ == set_[..|set_| - 1] + [set_[|set_| - 1]];
    }
  }

  /** The remotes kept beside the new one, all paired as before. */
  lemma KeptStayPaired(a: Agent, cand: Candidate, l: Candidate, r: Candidate, i: nat)
    requires i < |a.pairs| && PairsThem(a.pairs[i], l, r) && !IsRedundant(r, cand)
    ensures var b := ReplaceEach(a, Redundant(On(a.remotes, cand.network), cand), cand);
            i < |b.pairs| && PairsThem(b.pairs[i], l, r)
  {
    var known := On(a.remotes, cand.network);
    Sorted(known, cand);
    ReplaceEachKeepsShape(a, Redundant(known, cand), cand);
  }

  lemma AddRemoteKeepsPaired(a: Agent, cand: Candidate)
    requires FullyPaired(a)
    ensures FullyPaired(AddRemote(a, cand))
  {
    var known, b := On(a.remotes, cand.network), AddRemote(a, cand);
    if !Known(known, cand) {
      NewRemoteIsPaired(a, cand);
      Sorted(known, cand);
      RemotesAfter(a, cand);
      forall l, r | MustPair(b, l, r) ensures Paired(b.pairs, l, r) {
        if r != cand {
          assert MustPair(a, l, r);
          var i :| 0 <= i < |a.pairs| && PairsThem(a.pairs[i], l, r);
          OldPairStays(a, cand, l, r, i);
        }
      }
    }
  }

  lemma RemotesAfter(a: Agent, cand: Candidate)
    requires !Known(On(a.remotes, cand.network), cand) && AtHome(a.remotes)
    ensures var b := AddRemote(a, cand);
            && AtHome(b.remotes)
            && forall r: Candidate :: r in On(b.remotes, r.network) ==>
                 r == cand || (r in On(a.remotes, r.network) && (cand.kind.PeerReflexive? || !IsRedundant(r, cand)))
  {
    NewRemoteIsPaired(a, cand);
    KeptAre(a, cand);
    ListedBeside(a.remotes, cand, Kept(a, cand));
    assert forall r: Candidate :: IsRedundant(r, cand) ==> r.network == cand.network;
  }

  lemma KeptAre(a: Agent, cand: Candidate)
    ensures forall c: Candidate :: c in Kept(a, cand) <==>
              c in On(a.remotes, cand.network) && (cand.kind.PeerReflexive? || !IsRedundant(c, cand))
  {
    Sorted(On(a.remotes, cand.network), cand);
  }

  lemma ListedBeside(sets: Sets, cand: Candidate, kept: seq<Candidate>)
    requires AtHome(sets) && forall c: Candidate :: c in kept ==> c in On(sets, cand.network)
    ensures AtHome(sets[cand.network := kept + [cand]])
    ensures forall r: Candidate :: r in On(sets[cand.network := kept + [cand]], r.network) ==>
              if r.network == cand.network then r == cand || r in kept else r in On(sets, r.network)
  {
  }

  lemma OldPairStays(a: Agent, cand: Candidate, l: Candidate, r: Candidate, i: nat)
    requires !Known(On(a.remotes, cand.network), cand)
    requires i < |a.pairs| && PairsThem(a.pairs[i], l, r) && (cand.kind.PeerReflexive? || !IsRedundant(r, cand))
    ensures Paired(AddRemote(a, cand).pairs, l, r)
  {
    var known := On(a.remotes, cand.network);
    var replaced := if cand.kind.PeerReflexive? then a else ReplaceEach(a, Redundant(known, cand), cand);
    if !cand.kind.PeerReflexive? {
      KeptStayPaired(a, cand, l, r, i);
    }
    var listed := replaced.(remotes := replaced.remotes[cand.network := Kept(a, cand) + [cand]]);
    PairsUnpaired(listed, On(listed.locals, cand.network), cand);
    var b := AddRemote(a, cand);
    assert b.pairs[i] == b.pairs[..|listed.pairs|][i] || cand.tcp.Passive?;
    assert PairsThem(b.pairs[i], l, r);
  }

  lemma AddLocalKeepsPaired(a: Agent, cand: Candidate)
    requires FullyPaired(a)
    ensures FullyPaired(AddLocal(a, cand))
  {
    var known, b := On(a.locals, cand.network), AddLocal(a, cand);
    if !Known(known, cand) {
      NewLocalIsPaired(a, cand);
      forall l, r | MustPair(b, l, r) ensures Paired(b.pairs, l, r) {
        if l == cand {
          var i :| 0 <= i < |On(a.remotes, cand.network)| && On(a.remotes, cand.network)[i] == r;
          assert PairsThem(b.pairs[|a.pairs| + i], l, r);
        } else {
          assert MustPair(a, l, r);
          var i :| 0 <= i < |a.pairs| && PairsThem(a.pairs[i], l, r);
          assert b.pairs[i] == b.pairs[..|a.pairs|][i] && PairsThem(b.pairs[i], l, r);
        }
      }
    }
  }

  lemma PutKeeps(a: Agent, i: nat, p: Pair)
    requires i < |a.pairs| && p.local == a.pairs[i].local && p.remote == a.pairs[i].remote
    ensures KeepsPairs(a, Put(a, i, p))
  {
  }

  lemma SelectKeeps(a: Agent, i: nat)
    requires i < |a.pairs|
    ensures KeepsPairs(a, Select(a, i))
  {
    PutKeeps(a, i, a.pairs[i].(nominated := true));
  }

  lemma LocatedKeeps(a: Agent, local: Candidate, remote: Candidate)
    ensures KeepsPairs(a, Located(a, local, remote))
  {
    var b, i := Listed(a, local, remote), PlaceOf(a, local, remote);
    PutKeeps(b, i, b.pairs[i].(received := b.pairs[i].received + 1));
  }

  lemma RequestKeeps(cfg: Config, a: Agent, local: Candidate, remote: Candidate, nominates: bool, nomination: Option<nat>)
    ensures KeepsPairs(a, ControlledRequest(cfg, a, local, remote, nominates, nomination))
  {
    var b, i := Located(a, local, remote), PlaceOf(a, local, remote);
    LocatedKeeps(a, local, remote);
    var c := Remembered(b, nomination);
    SelectKeeps(c, i);
    PutKeeps(c, i, c.pairs[i].(onSuccess := true));
  }

  lemma ResponseKeeps(cfg: Config, a: Agent, local: Candidate, remote: Candidate, useCandidate: bool, nomination: Option<nat>)
    ensures KeepsPairs(a, Response(cfg, a, local, remote, useCandidate, nomination))
  {
    var found := Find(a.pairs, local, remote);
    if found.Some? {
      PutKeeps(a, found.value, a.pairs[found.value].(state := Succeeded));
      SelectKeeps(SucceedAt(a, found.value), found.value);
    }
  }

  lemma NominatedKeeps(cfg: Config, a: Agent, nominatable: bool)
    ensures KeepsPairs(a, Nominated(cfg, a, nominatable))
  {
    var best := Best(a.pairs, IsValid);
    if best.Some? && nominatable {
      PutKeeps(a, best.value, a.pairs[best.value].(nominated := true));
    } else {
      PingKeeps(cfg, a);
    }
  }

  lemma PingKeeps(cfg: Config, a: Agent)
    ensures KeepsPairs(a, a.(pairs := PingEach(a.pairs, cfg.maxRequests)))
  {
  }

  lemma UnselectedKeeps(cfg: Config, a: Agent, nominatable: bool)
    ensures KeepsPairs(a, Unselected(cfg, a, nominatable))
  {
    NominatedKeeps(cfg, a, nominatable);
    PingKeeps(cfg, a);
  }

  lemma ContactKeeps(cfg: Config, a: Agent, overdue: bool, seen: Connection, nominatable: bool)
    ensures KeepsPairs(a, Contact(cfg, a, overdue, seen, nominatable)) || Emptied(Contact(cfg, a, overdue, seen, nominatable))
  {
    UnselectedKeeps(cfg, a, nominatable);
  }

  /** Every other event keeps the pairs and the candidates, or drops them all. */
  lemma OthersKeepPairs(cfg: Config, a: Agent, e: Event)
    requires !e.RemoteCandidate? && !e.LocalCandidate?
    ensures KeepsPairs(a, Step(cfg, a, e)) || Emptied(Step(cfg, a, e))
  {
    match e {
      case BindingRequest(l, r, nominates, nomination, nominatable) =>
        LocatedKeeps(a, l, r);
        RequestKeeps(cfg, a, l, r, nominates, nomination);
      case BindingSuccess(l, r, useCandidate, nomination) => ResponseKeeps(cfg, a, l, r, useCandidate, nomination);
      case Tick(overdue, seen, nominatable) => ContactKeeps(cfg, a, overdue, seen, nominatable);
      case _ =>
    }
  }

  lemma StepKeepsPaired(cfg: Config, a: Agent, e: Event)
    requires FullyPaired(a)
    ensures FullyPaired(Step(cfg, a, e))
  {
    match e {
      case RemoteCandidate(cand) => AddRemoteKeepsPaired(a, cand);
      case LocalCandidate(cand) => AddLocalKeepsPaired(a, cand);
      case _ =>
        OthersKeepPairs(cfg, a, e);
        KeepsPaired(a, Step(cfg, a, e));
    }
  }

  /** In every reachable state each local and each remote of one network that is not for the other side to connect to are paired. */
  lemma {:induction false} RunPairsAll(cfg: Config, controlling: bool, es: seq<Event>)
    ensures FullyPaired(Run(cfg, Started(controlling), es))
  {
    if es != [] {
      RunPairsAll(cfg, controlling, es[..|es| - 1]);
      StepKeepsPaired(cfg, Run(cfg, Started(controlling), es[..|es| - 1]), es[|es| - 1]);
    }
  }
}
