/** The agent itself: pair objects shared by the checklist, the index by id, the selection and the nominee. */
module IceAgent {
  import opened Bytes
  import opened IcePriority
  import opened IceChecklist
  import opened IcePairing

  class CandidatePair {
    const id: nat
    const local: Candidate
    const remote: Candidate
    const controlling: bool
    var override: Option<nat>
    var requests: nat
    var state: PairState
    var nominated: bool
    var onSuccess: bool
    var received: nat

    function View(): Pair
      reads this
    {
      Pair(id, local, remote, controlling, override, requests, state, nominated, onSuccess, received)
    }

    constructor (id: nat, local: Candidate, remote: Candidate, controlling: bool)
      ensures View() == NewPair(id, local, remote, controlling)
    {
      this.id, this.local, this.remote, this.controlling := id, local, remote, controlling;
      override, requests, state, nominated, onSuccess, received := None, 0, Waiting, false, false, 0;
    }
  }

  function Views(ps: seq<CandidatePair>): (r: seq<Pair>)
    reads ps
    ensures |r| == |ps| && forall i :: 0 <= i < |ps| ==> r[i] == ps[i].View()
  {
    seq(|ps|, i requires 0 <= i < |ps| reads ps => ps[i].View())
  }

  lemma ViewsAre(ps: seq<CandidatePair>, vs: seq<Pair>)
    requires |ps| == |vs| && forall i :: 0 <= i < |ps| ==> ps[i].View() == vs[i]
    ensures Views(ps) == vs
  {
  }

  ghost predicate IdsInOrder(ps: seq<CandidatePair>, last: nat) {
    && (forall i :: 0 <= i < |ps| ==> 0 < ps[i].id <= last)
    && (forall i, j :: 0 <= i < j < |ps| ==> ps[i].id < ps[j].id)
  }

  /** The index holds exactly the listed pairs, each under its id. */
  ghost predicate IsIndex(index: map<nat, CandidatePair>, ps: seq<CandidatePair>) {
    && (forall i :: 0 <= i < |ps| ==> ps[i].id in index && index[ps[i].id] == ps[i])
    && (forall k :: k in index ==> index[k] in ps && index[k].id == k)
  }

  lemma AppendKeeps(index: map<nat, CandidatePair>, ps: seq<CandidatePair>, last: nat, p: CandidatePair)
    requires IdsInOrder(ps, last) && IsIndex(index, ps) && p.id == last + 1
    ensures IdsInOrder(ps + [p], last + 1) && IsIndex(index[p.id := p], ps + [p])
  {
    var all, more := ps + [p], index[p.id := p];
    assert all[|ps|] == p;
    forall k | k in more ensures more[k] in all && more[k].id == k {
      if k != p.id {
        assert index[k] in ps;
      }
    }
  }

  lemma SwapKeeps(index: map<nat, CandidatePair>, ps: seq<CandidatePair>, last: nat, i: nat, p: CandidatePair)
    requires IdsInOrder(ps, last) && IsIndex(index, ps) && i < |ps| && p.id == ps[i].id
    ensures IdsInOrder(ps[i := p], last) && IsIndex(index[p.id := p], ps[i := p])
  {
    var all, more := ps[i := p], index[p.id := p];
    assert all[i] == p;
    forall k | k in more ensures more[k] in all && more[k].id == k {
      if k != p.id {
        StillListed(ps, i, p, index[k]);
      }
    }
  }

  lemma StillListed(ps: seq<CandidatePair>, i: nat, p: CandidatePair, q: CandidatePair)
    requires i < |ps| && q in ps && q != ps[i]
    ensures q in ps[i := p]
  {
    var j :| 0 <= j < |ps| && ps[j] == q;
    assert ps[i := p][j] == q;
  }

  /** A copy of the pair for another remote; everything it counted so far comes along. */
  method ReplacePairRemote(pair: CandidatePair, remote: Candidate) returns (r: CandidatePair)
    ensures fresh(r) && r.View() == pair.View().(remote := remote, override := None)
  {
    r := new CandidatePair(pair.id, pair.local, remote, pair.controlling);
    r.requests := pair.requests;
    r.state := pair.state;
    r.nominated := pair.nominated;
    r.onSuccess := pair.onSuccess;
    r.received := pair.received;
  }

  // ---- finding ---------------------------------------------------------

  lemma {:induction false} FindsFirst(pairs: seq<Pair>, local: Candidate, remote: Candidate, i: nat)
    requires i <= |pairs| && (forall k :: 0 <= k < i ==> !PairsThem(pairs[k], local, remote))
    ensures i < |pairs| && PairsThem(pairs[i], local, remote) ==> Find(pairs, local, remote) == Some(i)
    ensures i == |pairs| ==> Find(pairs, local, remote) == None
    decreases |pairs|
  {
    if i > 0 {
      forall k | 0 <= k < i - 1 ensures !PairsThem(pairs[1..][k], local, remote) {
        assert pairs[1..][k] == pairs[k + 1];
      }
      FindsFirst(pairs[1..], local, remote, i - 1);
    }
  }

  class Agent {
    const cfg: Config
    var checklist: seq<CandidatePair>
    var pairsById: map<nat, CandidatePair>
    var nextPairId: nat
    var selectedPair: CandidatePair?
    var nominatedPair: CandidatePair?
    var lastNomination: Option<nat>
    var connectionState: Connection
    var isControlling: bool
    var localCandidates: Sets
    var remoteCandidates: Sets

    function Selected(): Option<nat>
      reads this
    {
      if selectedPair == null then None else Some(selectedPair.id)
    }

    function Nominee(): Option<nat>
      reads this
    {
      if nominatedPair == null then None else Some(nominatedPair.id)
    }

    function View(): IceChecklist.Agent
      reads this, checklist
    {
      IceChecklist.Agent(Views(checklist), nextPairId, Selected(), Nominee(), lastNomination,
                         connectionState, isControlling, localCandidates, remoteCandidates)
    }

    ghost predicate Valid()
      reads this
    {
      && IdsInOrder(checklist, nextPairId) && IsIndex(pairsById, checklist)
      && (selectedPair != null ==> selectedPair in checklist)
    }

    constructor (cfg: Config, controlling: bool)
      ensures Valid() && View() == Started(controlling) && checklist == [] && this.cfg == cfg
    {
      this.cfg := cfg;
      checklist, pairsById, nextPairId, selectedPair, nominatedPair := [], map[], 0, null, null;
      lastNomination, connectionState, isControlling := None, Fresh, controlling;
      localCandidates, remoteCandidates := map[], map[];
    }

    // ---- the parts of the handlers -------------------------------------

    method AddPair(local: Candidate, remote: Candidate) returns (p: CandidatePair)
      requires Valid()
      modifies this`checklist, this`pairsById, this`nextPairId
      ensures Valid() && fresh(p) && checklist == old(checklist) + [p]
      ensures View() == IceChecklist.AddPair(old(View()), local, remote)
    {
      ghost var before := Views(checklist);
      p := Append(local, remote);
      ViewsAre(checklist, before + [p.View()]);
    }

    method Append(local: Candidate, remote: Candidate) returns (p: CandidatePair)
      requires Valid()
      modifies this`checklist, this`pairsById, this`nextPairId
      ensures Valid() && fresh(p) && checklist == old(checklist) + [p]
      ensures nextPairId == old(nextPairId) + 1 && p.View() == NewPair(nextPairId, local, remote, isControlling)
    {
      nextPairId := nextPairId + 1;
      p := new CandidatePair(nextPairId, local, remote, isControlling);
      AppendKeeps(pairsById, checklist, nextPairId - 1, p);
      checklist := checklist + [p];
      pairsById := pairsById[p.id := p];
    }

    method FindPair(local: Candidate, remote: Candidate) returns (found: CandidatePair?, ghost at: Option<nat>)
      ensures at == Find(View().pairs, local, remote)
      ensures found == null <==> at == None
      ensures found != null ==> at.value < |checklist| && checklist[at.value] == found
    {
      ghost var pairs := View().pairs;
      for i := 0 to |checklist|
        invariant forall k :: 0 <= k < i ==> !PairsThem(pairs[k], local, remote)
      {
        assert pairs[i] == checklist[i].View();
        if SameCandidate(checklist[i].local, local) && SameCandidate(checklist[i].remote, remote) {
          FindsFirst(pairs, local, remote, i);
          return checklist[i], Some(i);
        }
      }
      FindsFirst(pairs, local, remote, |pairs|);
      return null, None;
    }

    method UpdateConnectionState(c: Connection)
      requires Valid()
      modifies this
      ensures Valid() && View() == Connect(old(View()), c)
      ensures checklist == (if c == Failed && old(connectionState) != c then [] else old(checklist))
      ensures c != Failed ==> selectedPair == old(selectedPair)
    {
      if connectionState != c {
        if c == Failed {
          Clear();
        }
        EnterState(c);
      }
    }

    /** The checklist, its index, the selection and all candidates. */
    method Clear()
      modifies this`checklist, this`pairsById, this`selectedPair, this`localCandidates, this`remoteCandidates
      ensures Valid() && checklist == []
      ensures View() == old(View()).(pairs := [], selected := None, locals := map[], remotes := map[])
    {
      checklist := [];
      pairsById := map[];
      selectedPair := null;
      localCandidates, remoteCandidates := map[], map[];
    }

    method EnterState(c: Connection)
      modifies this`connectionState
      ensures connectionState == c && View() == old(View()).(connection := c)
    {
      connectionState := c;
    }

    /** at is the pair's place in the checklist. */
    method SetSelectedPair(pair: CandidatePair, ghost at: nat)
      requires Valid() && at < |checklist| && checklist[at] == pair
      modifies this, pair
      ensures Valid() && selectedPair == pair && checklist == old(checklist)
      ensures View() == Select(old(View()), at)
    {
      MarkNominated(pair, at);
      Store(pair, at);
      UpdateConnectionState(Connected);
    }

    method Store(pair: CandidatePair, ghost at: nat)
      requires Valid() && at < |checklist| && checklist[at] == pair
      modifies this`selectedPair
      ensures Valid() && selectedPair == pair && View() == old(View()).(selected := Some(pair.id))
    {
      selectedPair := pair;
    }

    method PingAllCandidates()
      requires Valid()
      modifies checklist
      ensures Valid() && View() == old(View()).(pairs := PingEach(old(View()).pairs, cfg.maxRequests))
    {
      ghost var before := View();
      for i := 0 to |checklist|
        invariant forall k :: 0 <= k < i ==> checklist[k].View() == Pinged(before.pairs[k], cfg.maxRequests)
        invariant forall k :: i <= k < |checklist| ==> checklist[k].View() == before.pairs[k]
      {
        assert forall k :: 0 <= k < |checklist| && k != i ==> checklist[k] != checklist[i];
        PingOne(checklist[i]);
      }
      ViewsAre(checklist, PingEach(before.pairs, cfg.maxRequests));
    }

    method PingOne(p: CandidatePair)
      modifies p
      ensures p.View() == Pinged(old(p.View()), cfg.maxRequests)
    {
      if p.state == Waiting {
        p.state := InProgress;
      } else if p.state != InProgress {
        return;
      }
      if p.requests > cfg.maxRequests {
        p.state := FailedPair;
      } else {
        p.requests := Wrap16(p.requests + 1);
      }
    }

    // ---- remote and local candidates -----------------------------------

    method ReplaceRemoteInPairs(old_: Candidate, new_: Candidate)
      requires Valid()
      modifies this`checklist, this`pairsById, this`nominatedPair, this`selectedPair, this`connectionState
      ensures Valid() && View() == Replace(old(View()), old_, new_)
    {
      ghost var pairs, selected := Views(checklist), Selected();
      ReplaceEachPair(old_, new_);
      ReplacedAll(checklist, pairs, old_, new_, selected);
    }

    /** Pair by pair: the copy takes the old one's place in the list, the index, the selection and the nomination. */
    method ReplaceEachPair(old_: Candidate, new_: Candidate)
      requires Valid()
      modifies this`checklist, this`pairsById, this`nominatedPair, this`selectedPair, this`connectionState
      ensures Valid() && Selected() == old(Selected()) && Nominee() == old(Nominee())
      ensures ReplacedUpTo(checklist, old(Views(checklist)), |checklist|, old_, new_, old(Selected()))
      ensures connectionState == Reported(old(Views(checklist)), old_, old(Selected()), old(connectionState))
    {
      ghost var pairs, was := Views(checklist), View();
      for i := 0 to |checklist|
        invariant Midway(was, i, old_, new_) && |checklist| == |pairs|
      {
        VisitNext(was, i, old_, new_);
      }
      assert pairs[..|pairs|] == pairs;
    }

    /** The first i pairs have been gone through. */
    ghost predicate Midway(was: IceChecklist.Agent, i: nat, old_: Candidate, new_: Candidate)
      reads this, checklist
    {
      && Valid() && Selected() == was.selected && Nominee() == was.nominee && i <= |was.pairs|
      && ReplacedUpTo(checklist, was.pairs, i, old_, new_, was.selected)
      && connectionState == Reported(was.pairs[..i], old_, was.selected, was.connection)
    }

    method VisitNext(ghost was: IceChecklist.Agent, i: nat, old_: Candidate, new_: Candidate)
      requires i < |checklist| && Midway(was, i, old_, new_)
      modifies this`checklist, this`pairsById, this`nominatedPair, this`selectedPair, this`connectionState
      ensures Midway(was, i + 1, old_, new_)
    {
      ReportedGrows(was.pairs, i, old_, was.selected, was.connection);
      assert checklist[i].View() == was.pairs[i];
      ghost var before := checklist;
      VisitAt(i, old_, new_);
      ReplacedOneMore(before, checklist, was.pairs, i, old_, new_, was.selected);
    }

    method VisitAt(i: nat, old_: Candidate, new_: Candidate)
      requires i < |checklist| && Valid()
      modifies this`checklist, this`pairsById, this`nominatedPair, this`selectedPair, this`connectionState
      ensures Valid() && Selected() == old(Selected()) && Nominee() == old(Nominee())
      ensures |checklist| == |old(checklist)| && checklist == old(checklist)[i := checklist[i]]
      ensures checklist[i].View() == Retargeted(old(checklist[i].View()), old_, new_, old(Selected()))
      ensures connectionState == if old(checklist[i].remote) == old_ && old(Selected()) == Some(old(checklist[i].id))
                                 then Connected else old(connectionState)
    {
      if checklist[i].remote == old_ {
        ReplaceAt(i, new_);
      }
    }

    method ReplaceAt(i: nat, remote: Candidate)
      requires i < |checklist| && Valid()
      modifies this`checklist, this`pairsById, this`nominatedPair, this`selectedPair, this`connectionState
      ensures Valid() && Selected() == old(Selected()) && Nominee() == old(Nominee())
      ensures |checklist| == |old(checklist)| && checklist == old(checklist)[i := checklist[i]]
      ensures checklist[i].View() == Retargeted(old(checklist[i].View()), old(checklist[i].remote), remote, old(Selected()))
      ensures connectionState == if old(Selected()) == Some(old(checklist[i].id)) then Connected else old(connectionState)
    {
      var pair := checklist[i];
      var oldPriority := PriorityOf(pair.View());
      var replacement := ReplacePairRemote(pair, remote);
      replacement.override := Some(oldPriority);
      SelectedIs(i);
      SwapIn(i, pair, replacement);
      if selectedPair == pair {
        replacement.nominated := true;
        selectedPair := replacement;
        connectionState := Connected;
      }
    }

    lemma SelectedIs(i: nat)
      requires i < |checklist| && Valid()
      ensures selectedPair == checklist[i] <==> Selected() == Some(checklist[i].id)
    {
    }

    /** The list, the index and the nomination; the selection is left to the caller. */
    method SwapIn(i: nat, pair: CandidatePair, replacement: CandidatePair)
      requires i < |checklist| && Valid() && checklist[i] == pair && replacement.id == pair.id
      modifies this`checklist, this`pairsById, this`nominatedPair
      ensures IdsInOrder(checklist, nextPairId) && IsIndex(pairsById, checklist)
      ensures selectedPair != null && selectedPair != pair ==> selectedPair in checklist
      ensures checklist == old(checklist)[i := replacement] && Nominee() == old(Nominee())
    {
      SwapKeeps(pairsById, checklist, nextPairId, i, replacement);
      if selectedPair != null && selectedPair != pair {
        StillListed(checklist, i, replacement, selectedPair);
      }
      checklist := checklist[i := replacement];
      pairsById := pairsById[replacement.id := replacement];
      if nominatedPair == pair {
        nominatedPair := replacement;
      }
    }

    method ReplaceRedundant(known: seq<Candidate>, cand: Candidate) returns (kept: seq<Candidate>)
      requires Valid()
      modifies this`checklist, this`pairsById, this`nominatedPair, this`selectedPair, this`connectionState
      ensures Valid() && kept == NotRedundant(known, cand)
      ensures View() == ReplaceEach(old(View()), Redundant(known, cand), cand)
    {
      kept := [];
      var replaced: seq<Candidate> := [];
      for i := 0 to |known|
        invariant kept == NotRedundant(known[..i], cand) && replaced == Redundant(known[..i], cand)
      {
        assert known[..i + 1][..i] == known[..i];
        if IsRedundant(known[i], cand) {
          replaced := replaced + [known[i]];
        } else {
          kept := kept + [known[i]];
        }
      }
      assert known[..|known|] == known;
      for i := 0 to |replaced|
        invariant Valid() && View() == ReplaceEach(old(View()), replaced[..i], cand)
      {
        assert replaced[..i + 1][..i] == replaced[..i];
        ReplaceRemoteInPairs(replaced[i], cand);
      }
      assert replaced[..|replaced|] == replaced;
    }

    method IsKnown(set_: seq<Candidate>, cand: Candidate) returns (known: bool)
      ensures known == Known(set_, cand)
    {
      for i := 0 to |set_|
        invariant forall k :: 0 <= k < i ==> !SameCandidate(set_[k], cand)
      {
        if SameCandidate(set_[i], cand) {
          return true;
        }
      }
      return false;
    }

    method AddRemoteCandidate(cand: Candidate) returns (accepted: bool)
      requires Valid()
      modifies this
      ensures Valid() && View() == Step(cfg, old(View()), RemoteCandidate(cand))
      ensures accepted == cfg.accepts(cand.address)
      ensures var locals := On(old(localCandidates), cand.network);
              accepted && !Known(On(old(remoteCandidates), cand.network), cand) && !cand.tcp.Passive? ==>
                AllPaired(View().pairs, locals, cand) && OnlyAdds(View().pairs, |old(checklist)|, locals, cand)
    {
      if !Known(On(remoteCandidates, cand.network), cand) {
        NewRemoteIsPaired(View(), cand);
      }
      if !cfg.accepts(cand.address) {
        return false;
      }
      AddAccepted(cand);
      return true;
    }

    /** A candidate the filter let through. */
    method AddAccepted(cand: Candidate)
      requires Valid()
      modifies this
      ensures Valid() && View() == AddRemote(old(View()), cand)
    {
      var known := On(remoteCandidates, cand.network);
      var duplicate := IsKnown(known, cand);
      if duplicate {
        return;
      }
      var kept := known;
      if !cand.kind.PeerReflexive? {
        kept := ReplaceRedundant(known, cand);
      }
      Join(cand, kept);
    }

    method Join(cand: Candidate, kept: seq<Candidate>)
      requires Valid()
      modifies this
      ensures Valid() && View() == Joined(old(View()), cand, kept)
    {
      ListRemote(cand.network, kept + [cand]);
      if cand.tcp.Passive? {
        return;
      }
      var locals := On(localCandidates, cand.network);
      PairWithLocals(locals, cand);
    }

    method PairWithLocals(locals: seq<Candidate>, cand: Candidate)
      requires Valid()
      modifies this`checklist, this`pairsById, this`nextPairId
      ensures Valid() && View() == PairUnpaired(old(View()), locals, cand)
    {
      for i := 0 to |locals|
        invariant Valid() && View() == PairUnpaired(old(View()), locals[..i], cand)
      {
        assert locals[..i + 1][..i] == locals[..i];
        var p, _ := FindPair(locals[i], cand);
        if p == null {
          var added := AddPair(locals[i], cand);
        }
      }
      assert locals[..|locals|] == locals;
    }

    method AddLocalCandidate(cand: Candidate)
      requires Valid()
      modifies this
      ensures Valid() && View() == AddLocal(old(View()), cand)
      ensures !Known(On(old(localCandidates), cand.network), cand) ==> PairsWithAll(old(View()), View(), cand)
    {
      ghost var was := View();
      if !Known(On(localCandidates, cand.network), cand) {
        NewLocalIsPaired(was, cand);
      }
      var known := On(localCandidates, cand.network);
      var duplicate := IsKnown(known, cand);
      if duplicate {
        return;
      }
      ListLocal(cand.network, known + [cand]);
      var remotes := On(remoteCandidates, cand.network);
      PairWithRemotes(cand, remotes);
    }

    method ListLocal(network: nat, set_: seq<Candidate>)
      modifies this`localCandidates
      ensures View() == old(View()).(locals := old(localCandidates)[network := set_])
    {
      localCandidates := localCandidates[network := set_];
    }

    method ListRemote(network: nat, set_: seq<Candidate>)
      modifies this`remoteCandidates
      ensures View() == old(View()).(remotes := old(remoteCandidates)[network := set_])
    {
      remoteCandidates := remoteCandidates[network := set_];
    }

    method PairWithRemotes(cand: Candidate, remotes: seq<Candidate>)
      requires Valid()
      modifies this`checklist, this`pairsById, this`nextPairId
      ensures Valid() && View() == PairAll(old(View()), cand, remotes)
    {
      for i := 0 to |remotes|
        invariant Valid() && View() == PairAll(old(View()), cand, remotes[..i])
      {
        assert remotes[..i + 1][..i] == remotes[..i];
        var added := AddPair(cand, remotes[i]);
      }
      assert remotes[..|remotes|] == remotes;
    }

    // ---- one pair ------------------------------------------------------

    lemma Touched(was: IceChecklist.Agent, at: nat, q: Pair)
      requires at < |checklist| == |was.pairs| && was == View().(pairs := was.pairs)
      requires checklist[at].View() == q && (forall k :: 0 <= k < |checklist| && k != at ==> checklist[k].View() == was.pairs[k])
      ensures View() == Put(was, at, q)
    {
      ViewsAre(checklist, was.pairs[at := q]);
    }

    lemma Distinct(at: nat)
      requires Valid() && at < |checklist|
      ensures forall k :: 0 <= k < |checklist| && k != at ==> checklist[k] != checklist[at]
    {
    }

    method CountReceived(p: CandidatePair, ghost at: nat)
      requires Valid() && at < |checklist| && checklist[at] == p
      modifies p
      ensures Valid() && View() == CountAt(old(View()), at)
    {
      ghost var was := View();
      Distinct(at);
      p.received := p.received + 1;
      Touched(was, at, p.View());
    }

    method MarkSucceeded(p: CandidatePair, ghost at: nat)
      requires Valid() && at < |checklist| && checklist[at] == p
      modifies p
      ensures Valid() && View() == SucceedAt(old(View()), at)
    {
      ghost var was := View();
      Distinct(at);
      p.state := Succeeded;
      Touched(was, at, p.View());
    }

    method MarkOnSuccess(p: CandidatePair, ghost at: nat)
      requires Valid() && at < |checklist| && checklist[at] == p
      modifies p
      ensures Valid() && View() == Put(old(View()), at, old(p.View()).(onSuccess := true))
    {
      ghost var was := View();
      Distinct(at);
      p.onSuccess := true;
      Touched(was, at, p.View());
    }

    method MarkNominated(p: CandidatePair, ghost at: nat)
      requires Valid() && at < |checklist| && checklist[at] == p
      modifies p
      ensures Valid() && View() == Put(old(View()), at, old(p.View()).(nominated := true))
    {
      ghost var was := View();
      Distinct(at);
      p.nominated := true;
      Touched(was, at, p.View());
    }

    /** The two scans for the best pair, which differ in the pairs they look at. */
    method BestPair(considered: Pair -> bool) returns (best: CandidatePair?, ghost at: Option<nat>)
      ensures at == Best(View().pairs, considered)
      ensures best == null <==> at == None
      ensures best != null ==> at.value < |checklist| && checklist[at.value] == best
      ensures best == null <==> NoneConsidered(View().pairs, considered)
      ensures best != null ==> IsBest(View().pairs, considered, at.value)
    {
      ghost var pairs := View().pairs;
      BestIsHighest(pairs, considered);
      best, at := null, None;
      for i := 0 to |checklist|
        invariant at == Best(pairs[..i], considered) && (best == null <==> at == None)
        invariant best != null ==> at.value < i && checklist[at.value] == best
      {
        assert pairs[..i + 1][..i] == pairs[..i] && pairs[i] == checklist[i].View();
        var p := checklist[i];
        if !considered(p.View()) {
          continue;
        }
        if best == null || PriorityOf(best.View()) < PriorityOf(p.View()) {
          best, at := p, Some(i);
        }
      }
      assert pairs[..|pairs|] == pairs;
    }

    method FindOrAdd(local: Candidate, remote: Candidate) returns (p: CandidatePair, isNew: bool, ghost at: nat)
      requires Valid()
      modifies this`checklist, this`pairsById, this`nextPairId
      ensures Valid() && View() == Listed(old(View()), local, remote) && at == PlaceOf(old(View()), local, remote)
      ensures at < |checklist| && checklist[at] == p && (p in old(checklist) || fresh(p))
      ensures isNew == Find(old(View()).pairs, local, remote).None?
    {
      var found, where_ := FindPair(local, remote);
      if found == null {
        p := AddPair(local, remote);
        isNew, at := true, |checklist| - 1;
      } else {
        p, isNew, at := found, false, where_.value;
      }
    }

    /** The pair a request is about, made if it is new, with the request counted. */
    method Locate(local: Candidate, remote: Candidate) returns (p: CandidatePair, isNew: bool, ghost at: nat)
      requires Valid()
      modifies this`checklist, this`pairsById, this`nextPairId, checklist
      ensures Valid() && View() == Located(old(View()), local, remote) && at == PlaceOf(old(View()), local, remote)
      ensures at < |checklist| && checklist[at] == p && (p in old(checklist) || fresh(p))
      ensures isNew == Find(old(View()).pairs, local, remote).None?
    {
      p, isNew, at := FindOrAdd(local, remote);
      CountReceived(p, at);
    }

    // ---- the handlers --------------------------------------------------

    method HandleBindingRequest(local: Candidate, remote: Candidate, nominates: bool, nomination: Option<nat>, nominatable: bool)
      requires Valid()
      modifies this, checklist
      ensures Valid()
      ensures View() == Step(cfg, old(View()), BindingRequest(local, remote, nominates, nomination, nominatable))
    {
      if isControlling {
        ControllingRequested(local, remote, nominatable);
      } else {
        ControlledRequested(local, remote, nominates, nomination);
      }
    }

    method ControllingRequested(local: Candidate, remote: Candidate, nominatable: bool)
      requires Valid()
      modifies this, checklist
      ensures Valid() && View() == ControllingRequest(old(View()), local, remote, nominatable)
    {
      var pair, isNew, at := Locate(local, remote);
      if isNew {
        return;
      }
      Consider(pair, at, nominatable);
    }

    method Consider(pair: CandidatePair, ghost at: nat, nominatable: bool)
      requires Valid() && at < |checklist| && checklist[at] == pair
      modifies this`nominatedPair
      ensures Valid() && View() == ConsiderAt(old(View()), at, nominatable)
    {
      if pair.state == Succeeded && nominatedPair == null && selectedPair == null {
        ConsiderBest(pair, at, nominatable);
      }
    }

    method ConsiderBest(pair: CandidatePair, ghost at: nat, nominatable: bool)
      requires Valid() && at < |checklist| && checklist[at] == pair
      modifies this`nominatedPair
      ensures Valid() && View() == NominateIfBest(old(View()), at, nominatable)
      ensures nominatedPair != old(nominatedPair) ==>
                nominatedPair == pair
                && exists k: nat :: IsBest(old(View()).pairs, IsAvailable, k) && SamePair(old(View()).pairs[k], old(pair.View()))
    {
      var best, _ := BestPair(IsAvailable);
      if best != null && SamePair(best.View(), pair.View()) && nominatable {
        SetNominee(pair);
      }
    }

    method SetNominee(p: CandidatePair)
      modifies this`nominatedPair
      ensures nominatedPair == p && View() == old(View()).(nominee := Some(p.id))
    {
      nominatedPair := p;
    }

    method ControlledRequested(local: Candidate, remote: Candidate, nominates: bool, nomination: Option<nat>)
      requires Valid()
      modifies this, checklist
      ensures Valid() && View() == ControlledRequest(cfg, old(View()), local, remote, nominates, nomination)
    {
      var pair, _, at := Locate(local, remote);
      Requested(pair, at, nominates, nomination);
    }

    method Requested(pair: CandidatePair, ghost at: nat, nominates: bool, nomination: Option<nat>)
      requires Valid() && at < |checklist| && checklist[at] == pair
      modifies this, pair
      ensures Valid() && View() == RequestedAt(cfg, old(View()), at, nominates, nomination)
    {
      if !nominates {
        return;
      }
      var accepted := AcceptNomination(nomination);
      if !accepted {
        return;
      }
      Nominate(pair, at, nomination);
    }

    method Nominate(pair: CandidatePair, ghost at: nat, nomination: Option<nat>)
      requires Valid() && at < |checklist| && checklist[at] == pair
      modifies this, pair
      ensures Valid() && View() == NominateAt(cfg, old(View()), at, nomination)
    {
      if pair.state == Succeeded {
        SelectedPriority();
        if ShouldSwitch(pair, nomination) {
          SetSelectedPair(pair, at);
        }
      } else {
        MarkOnSuccess(pair, at);
      }
    }

    method AcceptNomination(nomination: Option<nat>) returns (accepted: bool)
      modifies this`lastNomination
      ensures accepted == AcceptsNomination(old(lastNomination), nomination)
      ensures View() == if accepted then Remembered(old(View()), nomination) else old(View())
    {
      if nomination.None? {
        return true;
      }
      if lastNomination.None? || nomination.value > lastNomination.value {
        lastNomination := nomination;
        return true;
      }
      return false;
    }

    predicate ShouldSwitch(pair: CandidatePair, nomination: Option<nat>)
      reads this, pair, selectedPair
    {
      if selectedPair == null then true
      else if selectedPair == pair then false
      else if nomination.Some? then true
      else !NeedsCheck(cfg) || PriorityOf(selectedPair.View()) < PriorityOf(pair.View())
    }

    /** The selected pair's own priority is that of its id. */
    lemma SelectedPriority()
      requires Valid()
      ensures selectedPair != null ==>
                PriorityOfId(View().pairs, selectedPair.id) == PriorityOf(selectedPair.View())
      ensures forall i :: 0 <= i < |checklist| ==> (selectedPair == checklist[i] <==> Selected() == Some(checklist[i].id))
    {
      if selectedPair != null {
        var i :| 0 <= i < |checklist| && checklist[i] == selectedPair;
        assert View().pairs[i].id == selectedPair.id;
        PriorityAt(View().pairs, nextPairId, i);
      }
    }

    method HandleSuccessResponse(local: Candidate, remote: Candidate, useCandidate: bool, nomination: Option<nat>)
      requires Valid()
      modifies this, checklist
      ensures Valid() && View() == Step(cfg, old(View()), BindingSuccess(local, remote, useCandidate, nomination))
    {
      ghost var was := View();
      var pair, at := FindPair(local, remote);
      ResponseIs(cfg, was, local, remote, useCandidate, nomination);
      if pair == null {
        return;
      }
      Answered(pair, at.value, useCandidate, nomination);
    }

    method Answered(pair: CandidatePair, ghost at: nat, useCandidate: bool, nomination: Option<nat>)
      requires Valid() && at < |checklist| && checklist[at] == pair
      modifies this, pair
      ensures Valid() && View() == SelectIfDue(cfg, SucceedAt(old(View()), at), at, useCandidate, nomination)
    {
      MarkSucceeded(pair, at);
      if isControlling {
        ControllingAnswered(pair, at, useCandidate, nomination);
      } else {
        ControlledAnswered(pair, at, useCandidate, nomination);
      }
    }

    method ControllingAnswered(pair: CandidatePair, ghost at: nat, useCandidate: bool, nomination: Option<nat>)
      requires Valid() && isControlling && at < |checklist| && checklist[at] == pair
      modifies this, pair
      ensures Valid()
      ensures View() == SelectIfDue(cfg, old(View()), at, useCandidate, nomination)
    {
      if useCandidate {
        if nomination.Some? {
          SetSelectedPair(pair, at);
        } else if selectedPair == null {
          SetSelectedPair(pair, at);
        }
      }
    }

    method ControlledAnswered(pair: CandidatePair, ghost at: nat, ghost useCandidate: bool, ghost nomination: Option<nat>)
      requires Valid() && !isControlling && at < |checklist| && checklist[at] == pair
      modifies this, pair
      ensures Valid()
      ensures View() == SelectIfDue(cfg, old(View()), at, useCandidate, nomination)
    {
      SelectedPriority();
      if pair.onSuccess {
        if selectedPair == null
           || (selectedPair != pair && (!NeedsCheck(cfg) || PriorityOf(selectedPair.View()) <= PriorityOf(pair.View()))) {
          SetSelectedPair(pair, at);
        }
      }
    }

    /** The agent's periodic contact; overdue says that checking has lasted longer than both timeouts. */
    method Contact(overdue: bool, seen: Connection, nominatable: bool)
      requires Valid()
      modifies this, checklist
      ensures Valid() && View() == Step(cfg, old(View()), Tick(overdue, seen, nominatable))
    {
      TickIs(cfg, View(), overdue, seen, nominatable);
      match connectionState {
        case Failed =>
          return;
        case Checking =>
          if overdue {
            UpdateConnectionState(Failed);
            return;
          }
        case _ =>
      }
      ContactCandidates(seen, nominatable);
    }

    /** seen stands for what the silence of the selected pair amounts to by the clock. */
    method ContactCandidates(seen: Connection, nominatable: bool)
      requires Valid()
      modifies this, checklist
      ensures Valid() && View() == ContactPairs(cfg, old(View()), seen, nominatable)
    {
      if selectedPair != null {
        UpdateConnectionState(seen);
        return;
      }
      ContactUnselected(nominatable);
    }

    method ContactUnselected(nominatable: bool)
      requires Valid()
      modifies this`nominatedPair, checklist
      ensures Valid() && View() == Unselected(cfg, old(View()), nominatable)
    {
      if !isControlling {
        if !cfg.lite {
          PingAllCandidates();
        }
        return;
      }
      if nominatedPair != null {
        return;
      }
      NominateOrPing(nominatable);
    }

    method NominateOrPing(nominatable: bool)
      requires Valid() && nominatedPair == null
      modifies this`nominatedPair, checklist
      ensures Valid() && View() == Nominated(cfg, old(View()), nominatable)
      ensures nominatedPair != null ==>
                exists i: nat :: IsBest(old(View()).pairs, IsValid, i) && i < |checklist| && checklist[i] == nominatedPair
    {
      var best, at := BestPair(IsValid);
      if best != null && nominatable {
        SelfNominate(best, at.value);
        return;
      }
      PingAllCandidates();
    }

    method SelfNominate(p: CandidatePair, ghost at: nat)
      requires Valid() && at < |checklist| && checklist[at] == p
      modifies this`nominatedPair, p
      ensures Valid() && nominatedPair == p
      ensures var was := old(View());
              View() == Put(was, at, was.pairs[at].(nominated := true)).(nominee := Some(was.pairs[at].id))
    {
      MarkNominated(p, at);
      SetNominee(p);
    }

    method RestartSession()
      requires Valid()
      modifies this
      ensures Valid() && View() == Step(cfg, old(View()), Restart) && checklist == []
    {
      Clear();
      NewSelector();
      if connectionState != Fresh {
        UpdateConnectionState(Checking);
      }
    }

    /** Either selector starts with no nominee and no nomination seen. */
    method NewSelector()
      modifies this`nominatedPair, this`lastNomination
      ensures View() == old(View()).(nominee := None, lastNomination := None)
    {
      nominatedPair, lastNomination := null, None;
    }

    /** rejected says whether the request is answered with a role-conflict error. */
    method HandleRoleConflict(remoteTieBreaker: nat) returns (rejected: bool)
      requires Valid()
      modifies this`isControlling, this`nominatedPair, this`lastNomination
      ensures Valid() && View() == Step(cfg, old(View()), RoleConflict(remoteTieBreaker))
      ensures rejected == (isControlling == old(isControlling))
    {
      var localIsGreaterOrEqual := cfg.tieBreaker >= remoteTieBreaker;
      if (isControlling && localIsGreaterOrEqual) || (!isControlling && !localIsGreaterOrEqual) {
        return true;
      }
      SwitchRole();
      return false;
    }

    method SwitchRole()
      requires Valid()
      modifies this`isControlling, this`nominatedPair, this`lastNomination
      ensures Valid() && View() == RoleSwitched(old(View()))
    {
      isControlling := !isControlling;
      NewSelector();
    }
  }

  /** The connection state once the pairs have been gone through. */
  function Reported(pairs: seq<Pair>, old_: Candidate, selected: Option<nat>, was: Connection): Connection {
    if SelectedHas(pairs, old_, selected) then Connected else was
  }

  lemma ReportedGrows(pairs: seq<Pair>, i: nat, old_: Candidate, selected: Option<nat>, was: Connection)
    requires i < |pairs|
    ensures Reported(pairs[..i + 1], old_, selected, was)
         == if pairs[i].remote == old_ && selected == Some(pairs[i].id) then Connected
            else Reported(pairs[..i], old_, selected, was)
  {
    SelectedHasGrows(pairs, i, old_, selected);
  }

  predicate ReplacedUpTo(ps: seq<CandidatePair>, pairs: seq<Pair>, i: nat, old_: Candidate, new_: Candidate, selected: Option<nat>)
    reads ps
  {
    && |ps| == |pairs|
    && (forall k :: 0 <= k < |ps| ==>
          ps[k].View() == if k < i then Retargeted(pairs[k], old_, new_, selected) else pairs[k])
  }

  lemma ReplacedOneMore(ps: seq<CandidatePair>, qs: seq<CandidatePair>, pairs: seq<Pair>, i: nat,
                        old_: Candidate, new_: Candidate, selected: Option<nat>)
    requires i < |ps| == |qs| && ReplacedUpTo(ps, pairs, i, old_, new_, selected) && qs == ps[i := qs[i]]
    requires qs[i].View() == Retargeted(pairs[i], old_, new_, selected)
    ensures ReplacedUpTo(qs, pairs, i + 1, old_, new_, selected)
  {
  }

  lemma ReplacedAll(ps: seq<CandidatePair>, pairs: seq<Pair>, old_: Candidate, new_: Candidate, selected: Option<nat>)
    requires ReplacedUpTo(ps, pairs, |ps|, old_, new_, selected)
    ensures Views(ps) == RetargetAll(pairs, old_, new_, selected)
  {
  }

  lemma SelectedHasGrows(pairs: seq<Pair>, i: nat, remote: Candidate, selected: Option<nat>)
    requires i < |pairs|
    ensures SelectedHas(pairs[..i + 1], remote, selected)
       <==> SelectedHas(pairs[..i], remote, selected) || (pairs[i].remote == remote && selected == Some(pairs[i].id))
  {
    var a, b := pairs[..i], pairs[..i + 1];
    assert b == a + [pairs[i]];
    if SelectedHas(a, remote, selected) {
      var k :| 0 <= k < |a| && a[k].remote == remote && selected == Some(a[k].id);
      assert b[k] == a[k];
    } else if pairs[i].remote == remote && selected == Some(pairs[i].id) {
      assert b[i] == pairs[i];
    }
  }
}
