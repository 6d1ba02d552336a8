/** The checklist of an ICE agent as values: every event, and what every run of events keeps. */
module IceChecklist {
  import opened Bytes
  import opened IcePriority

  // ---- what the agent holds --------------------------------------------

  /** ref tells candidate objects apart that are equal as candidates. */
  datatype Candidate = Candidate(ref: nat, kind: Kind, network: nat, address: nat, related: nat, tcp: Tcp, priority: Uint32)

  predicate SameTransport(a: Candidate, b: Candidate) {
    a.network == b.network && a.address == b.address && a.tcp == b.tcp
  }

  predicate SameCandidate(a: Candidate, b: Candidate) {
    SameTransport(a, b) && a.kind == b.kind && a.related == b.related
  }

  datatype PairState = Waiting | InProgress | FailedPair | Succeeded

  datatype Pair = Pair(
    id: nat, local: Candidate, remote: Candidate, controlling: bool, override: Option<nat>,
    requests: nat, state: PairState, nominated: bool, onSuccess: bool, received: nat)

  function PriorityOf(p: Pair): nat {
    if p.override.Some? then p.override.value
    else PairPriority(p.controlling, p.local.priority, p.remote.priority)
  }

  datatype Connection = Fresh | Checking | Connected | Completed | Failed | Disconnected | Closed

  /** accepts is the filter on remote addresses. */
  datatype Config = Config(lite: bool, checkPriority: bool, maxRequests: nat, tieBreaker: nat, accepts: nat -> bool)

  type Sets = map<nat, seq<Candidate>>

  /** nominee is the pair the controlling side is about to nominate; it may outlive its place in the list. */
  datatype Agent = Agent(
    pairs: seq<Pair>, nextId: nat, selected: Option<nat>, nominee: Option<nat>, lastNomination: Option<nat>,
    connection: Connection, controlling: bool, locals: Sets, remotes: Sets)

  function On(sets: Sets, network: nat): seq<Candidate> {
    if network in sets then sets[network] else []
  }

  // ---- pairs -----------------------------------------------------------

  function NewPair(id: nat, local: Candidate, remote: Candidate, controlling: bool): Pair {
    Pair(id, local, remote, controlling, None, 0, Waiting, false, false, 0)
  }

  function AddPair(a: Agent, local: Candidate, remote: Candidate): Agent {
    a.(nextId := a.nextId + 1, pairs := a.pairs + [NewPair(a.nextId + 1, local, remote, a.controlling)])
  }

  /** The first pair with equal candidates. */
  function Find(pairs: seq<Pair>, local: Candidate, remote: Candidate): (i: Option<nat>)
    ensures i.Some? ==> i.value < |pairs|
    decreases |pairs|
  {
    if pairs == [] then None
    else if SameCandidate(pairs[0].local, local) && SameCandidate(pairs[0].remote, remote) then Some(0)
    else
      var rest := Find(pairs[1..], local, remote);
      if rest.Some? then Some(rest.value + 1) else None
  }

  function Put(a: Agent, i: nat, p: Pair): Agent
    requires i < |a.pairs|
  {
    a.(pairs := a.pairs[i := p])
  }

  /** Failing clears the checklist, the selection and all candidates. */
  function Connect(a: Agent, c: Connection): Agent {
    if a.connection == c then a
    else if c == Failed then a.(pairs := [], selected := None, locals := map[], remotes := map[], connection := c)
    else a.(connection := c)
  }

  function Select(a: Agent, i: nat): Agent
    requires i < |a.pairs|
  {
    Connect(Put(a, i, a.pairs[i].(nominated := true)).(selected := Some(a.pairs[i].id)), Connected)
  }

  /** The priority of the pair with this id, or zero if it is not listed. */
  function PriorityOfId(pairs: seq<Pair>, id: nat): nat
    decreases |pairs|
  {
    if pairs == [] then 0
    else if pairs[0].id == id then PriorityOf(pairs[0])
    else PriorityOfId(pairs[1..], id)
  }

  // ---- candidates ------------------------------------------------------

  /** A peer-reflexive remote gives way to the candidate it turned out to be; the pair stays what it was. */
  function Retargeted(p: Pair, old_: Candidate, new_: Candidate, selected: Option<nat>): Pair {
    if p.remote != old_ then p
    else p.(remote := new_, override := Some(PriorityOf(p)), nominated := p.nominated || selected == Some(p.id))
  }

  function RetargetAll(pairs: seq<Pair>, old_: Candidate, new_: Candidate, selected: Option<nat>): (r: seq<Pair>)
    ensures |r| == |pairs| && forall i :: 0 <= i < |pairs| ==> r[i] == Retargeted(pairs[i], old_, new_, selected)
  {
    seq(|pairs|, i requires 0 <= i < |pairs| => Retargeted(pairs[i], old_, new_, selected))
  }

  predicate SelectedHas(pairs: seq<Pair>, remote: Candidate, selected: Option<nat>) {
    exists i :: 0 <= i < |pairs| && pairs[i].remote == remote && selected == Some(pairs[i].id)
  }

  /** Re-selecting the replaced pair also reports the connection up. */
  function Replace(a: Agent, old_: Candidate, new_: Candidate): Agent {
    a.(pairs := RetargetAll(a.pairs, old_, new_, a.selected),
       connection := if SelectedHas(a.pairs, old_, a.selected) then Connected else a.connection)
  }

  function ReplaceEach(a: Agent, olds: seq<Candidate>, new_: Candidate): Agent
    decreases |olds|
  {
    if olds == [] then a else Replace(ReplaceEach(a, olds[..|olds| - 1], new_), olds[|olds| - 1], new_)
  }

  predicate IsRedundant(c: Candidate, cand: Candidate) {
    c.kind.PeerReflexive? && SameTransport(c, cand)
  }

  function Redundant(set_: seq<Candidate>, cand: Candidate): seq<Candidate> {
    if set_ == [] then []
    else Redundant(set_[..|set_| - 1], cand) + if IsRedundant(set_[|set_| - 1], cand) then [set_[|set_| - 1]] else []
  }

  function NotRedundant(set_: seq<Candidate>, cand: Candidate): seq<Candidate> {
    if set_ == [] then []
    else NotRedundant(set_[..|set_| - 1], cand) + if IsRedundant(set_[|set_| - 1], cand) then [] else [set_[|set_| - 1]]
  }

  predicate Known(set_: seq<Candidate>, cand: Candidate) {
    exists i :: 0 <= i < |set_| && SameCandidate(set_[i], cand)
  }

  function PairUnpaired(a: Agent, locals: seq<Candidate>, cand: Candidate): Agent
    decreases |locals|
  {
    if locals == [] then a
    else
      var before := PairUnpaired(a, locals[..|locals| - 1], cand);
      var l := locals[|locals| - 1];
      if Find(before.pairs, l, cand).None? then AddPair(before, l, cand) else before
  }

  function PairAll(a: Agent, cand: Candidate, remotes: seq<Candidate>): Agent
    decreases |remotes|
  {
    if remotes == [] then a else AddPair(PairAll(a, cand, remotes[..|remotes| - 1]), cand, remotes[|remotes| - 1])
  }

  /** The candidate listed beside those kept, and paired unless it is for the other side to connect to. */
  function Joined(a: Agent, cand: Candidate, kept: seq<Candidate>): Agent {
    var listed := a.(remotes := a.remotes[cand.network := kept + [cand]]);
    if cand.tcp.Passive? then listed else PairUnpaired(listed, On(listed.locals, cand.network), cand)
  }

  function AddRemote(a: Agent, cand: Candidate): Agent {
    var known := On(a.remotes, cand.network);
    if Known(known, cand) then a
    else
      var replaced := if cand.kind.PeerReflexive? then a else ReplaceEach(a, Redundant(known, cand), cand);
      var kept := if cand.kind.PeerReflexive? then known else NotRedundant(known, cand);
      Joined(replaced, cand, kept)
  }

  function AddLocal(a: Agent, cand: Candidate): Agent {
    var known := On(a.locals, cand.network);
    if Known(known, cand) then a
    else PairAll(a.(locals := a.locals[cand.network := known + [cand]]), cand, On(a.remotes, cand.network))
  }

  // ---- checks ----------------------------------------------------------

  function Pinged(p: Pair, maxRequests: nat): Pair {
    if !p.state.Waiting? && !p.state.InProgress? then p
    else if p.requests > maxRequests then p.(state := FailedPair)
    else p.(state := InProgress, requests := Wrap16(p.requests + 1))
  }

  function PingEach(pairs: seq<Pair>, maxRequests: nat): (r: seq<Pair>)
    ensures |r| == |pairs| && forall i :: 0 <= i < |pairs| ==> r[i] == Pinged(pairs[i], maxRequests)
  {
    seq(|pairs|, i requires 0 <= i < |pairs| => Pinged(pairs[i], maxRequests))
  }

  /** The first of the highest priority among the pairs considered. */
  function Best(pairs: seq<Pair>, considered: Pair -> bool): (i: Option<nat>)
    ensures i.Some? ==> i.value < |pairs| && considered(pairs[i.value])
  {
    if pairs == [] then None
    else
      var before := Best(pairs[..|pairs| - 1], considered);
      var p := pairs[|pairs| - 1];
      if !considered(p) then before
      else if before.None? || PriorityOf(pairs[before.value]) < PriorityOf(p) then Some(|pairs| - 1)
      else before
  }

  /** Considered, of no lower priority than any considered, and before all of the same. */
  predicate IsBest(pairs: seq<Pair>, considered: Pair -> bool, i: nat) {
    && i < |pairs| && considered(pairs[i])
    && (forall k :: 0 <= k < |pairs| && considered(pairs[k]) ==> PriorityOf(pairs[k]) <= PriorityOf(pairs[i]))
    && (forall k :: 0 <= k < i && considered(pairs[k]) ==> PriorityOf(pairs[k]) < PriorityOf(pairs[i]))
  }

  predicate NoneConsidered(pairs: seq<Pair>, considered: Pair -> bool) {
    forall k :: 0 <= k < |pairs| ==> !considered(pairs[k])
  }

  lemma {:induction false} BestIsHighest(pairs: seq<Pair>, considered: Pair -> bool)
    ensures Best(pairs, considered).None? <==> NoneConsidered(pairs, considered)
    ensures Best(pairs, considered).Some? ==> IsBest(pairs, considered, Best(pairs, considered).value)
    decreases |pairs|
  {
    if pairs != [] {
      BestIsHighest(pairs[..|pairs| - 1], considered);
      assert forall k :: 0 <= k < |pairs| - 1 ==> pairs[..|pairs| - 1][k] == pairs[k];
    }
  }

  lemma BestIsUnique(pairs: seq<Pair>, considered: Pair -> bool, i: nat, j: nat)
    requires IsBest(pairs, considered, i) && IsBest(pairs, considered, j)
    ensures i == j
  {
  }

  predicate IsAvailable(p: Pair) {
    !p.state.FailedPair?
  }

  predicate IsValid(p: Pair) {
    p.state.Succeeded?
  }

  function CountAt(a: Agent, i: nat): Agent
    requires i < |a.pairs|
  {
    Put(a, i, a.pairs[i].(received := a.pairs[i].received + 1))
  }

  /** Where the pair for these candidates is, or will be once it is added. */
  function PlaceOf(a: Agent, local: Candidate, remote: Candidate): nat {
    var found := Find(a.pairs, local, remote);
    if found.Some? then found.value else |a.pairs|
  }

  function Listed(a: Agent, local: Candidate, remote: Candidate): (b: Agent)
    ensures PlaceOf(a, local, remote) < |b.pairs|
  {
    if Find(a.pairs, local, remote).Some? then a else AddPair(a, local, remote)
  }

  /** The pair for these candidates added if there is none, and the request counted. */
  function Located(a: Agent, local: Candidate, remote: Candidate): (b: Agent)
    ensures PlaceOf(a, local, remote) < |b.pairs|
  {
    CountAt(Listed(a, local, remote), PlaceOf(a, local, remote))
  }

  predicate NeedsCheck(cfg: Config) {
    !cfg.lite || cfg.checkPriority
  }

  predicate AcceptsNomination(last: Option<nat>, nomination: Option<nat>) {
    nomination.None? || last.None? || nomination.value > last.value
  }

  /** An unvalued nomination moves the selection only to a pair of higher priority. */
  predicate Switches(cfg: Config, a: Agent, i: nat, nomination: Option<nat>)
    requires i < |a.pairs|
  {
    if a.selected.None? then true
    else if a.selected == Some(a.pairs[i].id) then false
    else if nomination.Some? then true
    else !NeedsCheck(cfg) || PriorityOfId(a.pairs, a.selected.value) < PriorityOf(a.pairs[i])
  }

  function NominateAt(cfg: Config, a: Agent, i: nat, nomination: Option<nat>): Agent
    requires i < |a.pairs|
  {
    if !a.pairs[i].state.Succeeded? then Put(a, i, a.pairs[i].(onSuccess := true))
    else if Switches(cfg, a, i, nomination) then Select(a, i)
    else a
  }

  function Remembered(a: Agent, nomination: Option<nat>): Agent {
    if nomination.Some? then a.(lastNomination := nomination) else a
  }

  function RequestedAt(cfg: Config, a: Agent, i: nat, nominates: bool, nomination: Option<nat>): Agent
    requires i < |a.pairs|
  {
    if !nominates || !AcceptsNomination(a.lastNomination, nomination) then a
    else NominateAt(cfg, Remembered(a, nomination), i, nomination)
  }

  function ControlledRequest(cfg: Config, a: Agent, local: Candidate, remote: Candidate, nominates: bool, nomination: Option<nat>): Agent {
    RequestedAt(cfg, Located(a, local, remote), PlaceOf(a, local, remote), nominates, nomination)
  }

  /** The first nomination: only for a pair that already succeeded and is the best there could be. */
  function ConsiderAt(a: Agent, i: nat, nominatable: bool): Agent
    requires i < |a.pairs|
  {
    if a.pairs[i].state.Succeeded? && a.nominee.None? && a.selected.None? then NominateIfBest(a, i, nominatable) else a
  }

  function NominateIfBest(a: Agent, i: nat, nominatable: bool): Agent
    requires i < |a.pairs|
  {
    var best := Best(a.pairs, IsAvailable);
    if best.Some? && nominatable && SamePair(a.pairs[best.value], a.pairs[i]) then a.(nominee := Some(a.pairs[i].id)) else a
  }

  predicate SamePair(p: Pair, q: Pair) {
    SameCandidate(p.local, q.local) && SameCandidate(p.remote, q.remote)
  }

  /** nominatable says whether both candidates have waited long enough. */
  function ControllingRequest(a: Agent, local: Candidate, remote: Candidate, nominatable: bool): Agent {
    var b := Located(a, local, remote);
    if Find(a.pairs, local, remote).None? then b else ConsiderAt(b, PlaceOf(a, local, remote), nominatable)
  }

  function SucceedAt(a: Agent, i: nat): Agent
    requires i < |a.pairs|
  {
    Put(a, i, a.pairs[i].(state := Succeeded))
  }

  /** Whether a response that arrived for pair i selects it. */
  predicate ResponseSelects(cfg: Config, a: Agent, i: nat, useCandidate: bool, nomination: Option<nat>)
    requires i < |a.pairs|
  {
    if a.controlling then useCandidate && (nomination.Some? || a.selected.None?)
    else
      && a.pairs[i].onSuccess
      && (|| a.selected.None?
          || (&& a.selected != Some(a.pairs[i].id)
              && (!NeedsCheck(cfg) || PriorityOfId(a.pairs, a.selected.value) <= PriorityOf(a.pairs[i]))))
  }

  function SelectIfDue(cfg: Config, a: Agent, i: nat, useCandidate: bool, nomination: Option<nat>): Agent
    requires i < |a.pairs|
  {
    if ResponseSelects(cfg, a, i, useCandidate, nomination) then Select(a, i) else a
  }

  /** A response to one of our requests, which may have carried a nomination. */
  function Response(cfg: Config, a: Agent, local: Candidate, remote: Candidate, useCandidate: bool, nomination: Option<nat>): Agent {
    var found := Find(a.pairs, local, remote);
    if found.None? then a else SelectIfDue(cfg, SucceedAt(a, found.value), found.value, useCandidate, nomination)
  }

  /** Without a selection or a nominee the controlling side nominates the best valid pair, or checks on. */
  function Nominated(cfg: Config, a: Agent, nominatable: bool): Agent {
    var best := Best(a.pairs, IsValid);
    if best.Some? && nominatable
    then Put(a, best.value, a.pairs[best.value].(nominated := true)).(nominee := Some(a.pairs[best.value].id))
    else a.(pairs := PingEach(a.pairs, cfg.maxRequests))
  }

  function Unselected(cfg: Config, a: Agent, nominatable: bool): Agent {
    if !a.controlling then
      if cfg.lite then a else a.(pairs := PingEach(a.pairs, cfg.maxRequests))
    else if a.nominee.Some? then a
    else Nominated(cfg, a, nominatable)
  }

  /** What either selector does; seen is the connection state the silence of the selected pair amounts to. */
  function ContactPairs(cfg: Config, a: Agent, seen: Connection, nominatable: bool): Agent {
    if a.selected.Some? then Connect(a, seen) else Unselected(cfg, a, nominatable)
  }

  /** The periodic contact; overdue says that checking has gone on for longer than both timeouts. */
  function Contact(cfg: Config, a: Agent, overdue: bool, seen: Connection, nominatable: bool): Agent {
    if a.connection == Failed then a
    else if a.connection == Checking && overdue then Connect(a, Failed)
    else ContactPairs(cfg, a, seen, nominatable)
  }

  function Restarted(a: Agent): Agent {
    var b := a.(pairs := [], selected := None, nominee := None, lastNomination := None, locals := map[], remotes := map[]);
    if a.connection == Fresh then b else Connect(b, Checking)
  }

  /** Whether an agent that meets another in its own role answers with an error rather than switch. */
  predicate KeepsRole(controlling: bool, tieBreaker: nat, remote: nat) {
    if controlling then tieBreaker >= remote else tieBreaker < remote
  }

  /** Of two agents in one role exactly one keeps it, as section 7.3.1.1 of RFC 8445 intends, unless they drew alike. */
  lemma ConflictSettlesIff(controlling: bool, x: nat, y: nat)
    ensures KeepsRole(controlling, x, y) != KeepsRole(controlling, y, x) <==> x != y
    ensures x == y ==> KeepsRole(controlling, x, y) == controlling
  {
  }

  /** A role conflict lost: the other selector starts afresh, the pairs stay as they are. */
  function RoleSwitched(a: Agent): Agent {
    a.(controlling := !a.controlling, nominee := None, lastNomination := None)
  }

  // ---- events ----------------------------------------------------------

  datatype Event =
    | RemoteCandidate(cand: Candidate)
    | LocalCandidate(cand: Candidate)
    | BindingRequest(local: Candidate, remote: Candidate, nominates: bool, nomination: Option<nat>, nominatable: bool)
    | BindingSuccess(local: Candidate, remote: Candidate, useCandidate: bool, nomination: Option<nat>)
    | Tick(overdue: bool, seen: Connection, nominatable: bool)
    | Restart
    | RoleConflict(remoteTieBreaker: nat)

  function Step(cfg: Config, a: Agent, e: Event): Agent {
    match e
    case RemoteCandidate(cand) => if cfg.accepts(cand.address) then AddRemote(a, cand) else a
    case LocalCandidate(cand) => AddLocal(a, cand)
    case BindingRequest(l, r, nominates, nomination, nominatable) =>
      if a.controlling then ControllingRequest(a, l, r, nominatable) else ControlledRequest(cfg, a, l, r, nominates, nomination)
    case BindingSuccess(l, r, useCandidate, nomination) => Response(cfg, a, l, r, useCandidate, nomination)
    case Tick(overdue, seen, nominatable) => Contact(cfg, a, overdue, seen, nominatable)
    case Restart => Restarted(a)
    case RoleConflict(t) => if KeepsRole(a.controlling, cfg.tieBreaker, t) then a else RoleSwitched(a)
  }

  function Run(cfg: Config, a: Agent, es: seq<Event>): Agent {
    if es == [] then a else Step(cfg, Run(cfg, a, es[..|es| - 1]), es[|es| - 1])
  }

  function Started(controlling: bool): Agent {
    Agent([], 0, None, None, None, Fresh, controlling, map[], map[])
  }

  // ---- invariant -------------------------------------------------------

  predicate IdsGrow(pairs: seq<Pair>, nextId: nat) {
    && (forall i :: 0 <= i < |pairs| ==> 0 < pairs[i].id <= nextId)
    && (forall i, j :: 0 <= i < j < |pairs| ==> pairs[i].id < pairs[j].id)
  }

  predicate HoldsSelected(pairs: seq<Pair>, id: nat) {
    exists i :: 0 <= i < |pairs| && pairs[i].id == id && pairs[i].state.Succeeded? && pairs[i].nominated
  }

  predicate Inv(a: Agent) {
    && IdsGrow(a.pairs, a.nextId)
    && (a.selected.Some? ==> HoldsSelected(a.pairs, a.selected.value))
  }

  /** Same pairs in the same places, none leaving Succeeded or losing its nomination. */
  predicate Refines(p: seq<Pair>, q: seq<Pair>) {
    && |p| <= |q|
    && forall i :: 0 <= i < |p| ==>
         && q[i].id == p[i].id && PriorityOf(q[i]) == PriorityOf(p[i])
         && (p[i].state.Succeeded? ==> q[i].state.Succeeded?) && (p[i].nominated ==> q[i].nominated)
  }

  lemma RefinesKeepsSelected(p: seq<Pair>, q: seq<Pair>, id: nat)
    requires Refines(p, q) && HoldsSelected(p, id)
    ensures HoldsSelected(q, id)
  {
    var i :| 0 <= i < |p| && p[i].id == id && p[i].state.Succeeded? && p[i].nominated;
    assert q[i].id == id;
  }

  lemma {:induction false} PriorityKept(p: seq<Pair>, q: seq<Pair>, id: nat)
    requires Refines(p, q) && HoldsSelected(p, id)
    ensures PriorityOfId(q, id) == PriorityOfId(p, id)
    decreases |p|
  {
    if p[0].id != id {
      var i :| 0 <= i < |p| && p[i].id == id && p[i].state.Succeeded? && p[i].nominated;
      assert p[1..][i - 1] == p[i];
      PriorityKept(p[1..], q[1..], id);
    }
  }

  /** Nothing but the pairs' details may change, and the selection stays. */
  predicate Calm(a: Agent, b: Agent) {
    && Refines(a.pairs, b.pairs) && IdsGrow(b.pairs, b.nextId) && a.nextId <= b.nextId
    && a.selected == b.selected && a.controlling == b.controlling
  }

  lemma CalmKeepsInv(a: Agent, b: Agent)
    requires Inv(a) && Calm(a, b)
    ensures Inv(b)
    ensures a.selected.Some? ==> PriorityOfId(b.pairs, a.selected.value) == PriorityOfId(a.pairs, a.selected.value)
  {
    if a.selected.Some? {
      RefinesKeepsSelected(a.pairs, b.pairs, a.selected.value);
      PriorityKept(a.pairs, b.pairs, a.selected.value);
    }
  }

  lemma AddPairIsCalm(a: Agent, local: Candidate, remote: Candidate)
    requires IdsGrow(a.pairs, a.nextId)
    ensures Calm(a, AddPair(a, local, remote))
  {
  }

  lemma ReplaceIsCalm(a: Agent, old_: Candidate, new_: Candidate)
    requires IdsGrow(a.pairs, a.nextId)
    ensures Calm(a, Replace(a, old_, new_))
  {
  }

  lemma {:induction false} ReplaceEachIsCalm(a: Agent, olds: seq<Candidate>, new_: Candidate)
    requires IdsGrow(a.pairs, a.nextId)
    ensures Calm(a, ReplaceEach(a, olds, new_))
    decreases |olds|
  {
    if olds != [] {
      ReplaceEachIsCalm(a, olds[..|olds| - 1], new_);
      ReplaceIsCalm(ReplaceEach(a, olds[..|olds| - 1], new_), olds[|olds| - 1], new_);
    }
  }

  lemma {:induction false} PairUnpairedIsCalm(a: Agent, locals: seq<Candidate>, cand: Candidate)
    requires IdsGrow(a.pairs, a.nextId)
    ensures Calm(a, PairUnpaired(a, locals, cand))
    decreases |locals|
  {
    if locals != [] {
      PairUnpairedIsCalm(a, locals[..|locals| - 1], cand);
      AddPairIsCalm(PairUnpaired(a, locals[..|locals| - 1], cand), locals[|locals| - 1], cand);
    }
  }

  lemma {:induction false} PairAllIsCalm(a: Agent, cand: Candidate, remotes: seq<Candidate>)
    requires IdsGrow(a.pairs, a.nextId)
    ensures Calm(a, PairAll(a, cand, remotes))
    decreases |remotes|
  {
    if remotes != [] {
      PairAllIsCalm(a, cand, remotes[..|remotes| - 1]);
      AddPairIsCalm(PairAll(a, cand, remotes[..|remotes| - 1]), cand, remotes[|remotes| - 1]);
    }
  }

  lemma AddRemoteIsCalm(a: Agent, cand: Candidate)
    requires IdsGrow(a.pairs, a.nextId)
    ensures Calm(a, AddRemote(a, cand))
  {
    var known := On(a.remotes, cand.network);
    if !Known(known, cand) {
      var replaced := if cand.kind.PeerReflexive? then a else ReplaceEach(a, Redundant(known, cand), cand);
      var kept := if cand.kind.PeerReflexive? then known else NotRedundant(known, cand);
      if cand.kind.PeerReflexive? {
        JoinedIsCalm(a, a, cand, kept);
      } else {
        ReplaceEachIsCalm(a, Redundant(known, cand), cand);
        JoinedIsCalm(a, replaced, cand, kept);
      }
    } else {
      NothingIsCalm(a);
    }
  }

  lemma JoinedIsCalm(a: Agent, b: Agent, cand: Candidate, kept: seq<Candidate>)
    requires IdsGrow(b.pairs, b.nextId) && (b == a || Calm(a, b))
    ensures Calm(a, Joined(b, cand, kept))
  {
    var listed := b.(remotes := b.remotes[cand.network := kept + [cand]]);
    PairUnpairedIsCalm(listed, On(listed.locals, cand.network), cand);
  }

  lemma AddLocalIsCalm(a: Agent, cand: Candidate)
    requires IdsGrow(a.pairs, a.nextId)
    ensures Calm(a, AddLocal(a, cand))
  {
    var known := On(a.locals, cand.network);
    PairAllIsCalm(a.(locals := a.locals[cand.network := known + [cand]]), cand, On(a.remotes, cand.network));
  }

  lemma LocatedIsCalm(a: Agent, local: Candidate, remote: Candidate)
    requires IdsGrow(a.pairs, a.nextId)
    ensures Calm(a, Located(a, local, remote))
  {
    AddPairIsCalm(a, local, remote);
  }

  // ---- selecting -------------------------------------------------------

  lemma {:induction false} PriorityAt(pairs: seq<Pair>, nextId: nat, i: nat)
    requires IdsGrow(pairs, nextId) && i < |pairs|
    ensures PriorityOfId(pairs, pairs[i].id) == PriorityOf(pairs[i])
    decreases i
  {
    if i > 0 {
      assert pairs[1..][i - 1] == pairs[i];
      PriorityAt(pairs[1..], nextId, i - 1);
    }
  }

  lemma SelectKeepsInv(a: Agent, i: nat)
    requires Inv(a) && i < |a.pairs| && a.pairs[i].state.Succeeded?
    ensures Inv(Select(a, i)) && Select(a, i).selected == Some(a.pairs[i].id)
    ensures PriorityOfId(Select(a, i).pairs, a.pairs[i].id) == PriorityOf(a.pairs[i])
  {
    var b := Select(a, i);
    assert b.pairs == a.pairs[i := a.pairs[i].(nominated := true)];
    assert b.pairs[i].id == a.pairs[i].id;
    PriorityAt(b.pairs, b.nextId, i);
  }

  /** What one event may do to the selection. */
  predicate SelectionMoves(cfg: Config, a: Agent, b: Agent) {
    && Inv(b) && a.controlling == b.controlling
    && (a.selected.Some? && a.selected != b.selected ==>
          b.selected.Some? && !a.controlling
          && (NeedsCheck(cfg) ==> PriorityOfId(a.pairs, a.selected.value) <= PriorityOfId(b.pairs, b.selected.value)))
    && (a.selected.Some? && a.selected == b.selected ==>
          PriorityOfId(a.pairs, a.selected.value) == PriorityOfId(b.pairs, a.selected.value))
  }

  lemma ControlledRequestMoves(cfg: Config, a: Agent, local: Candidate, remote: Candidate, nominates: bool)
    requires Inv(a) && !a.controlling
    ensures SelectionMoves(cfg, a, ControlledRequest(cfg, a, local, remote, nominates, None))
  {
    var b, i := Located(a, local, remote), PlaceOf(a, local, remote);
    LocatedIsCalm(a, local, remote);
    CalmKeepsInv(a, b);
    if nominates {
      NominateAtKeepsInv(cfg, b, i, None);
    }
  }

  lemma NominateAtKeepsInv(cfg: Config, a: Agent, i: nat, nomination: Option<nat>)
    requires Inv(a) && i < |a.pairs|
    ensures Inv(NominateAt(cfg, a, i, nomination))
    ensures !a.controlling && nomination.None? ==> SelectionMoves(cfg, a, NominateAt(cfg, a, i, nomination))
  {
    if !a.pairs[i].state.Succeeded? {
      CalmKeepsInv(a, Put(a, i, a.pairs[i].(onSuccess := true)));
    } else {
      SelectKeepsInv(a, i);
    }
  }

  /** With a nomination value the selection may move to a lower pair, but the invariant holds. */
  lemma ControlledRequestKeepsInv(cfg: Config, a: Agent, local: Candidate, remote: Candidate, nominates: bool, nomination: Option<nat>)
    requires Inv(a)
    ensures Inv(ControlledRequest(cfg, a, local, remote, nominates, nomination))
  {
    var b := Located(a, local, remote);
    LocatedIsCalm(a, local, remote);
    CalmKeepsInv(a, b);
    if nominates && AcceptsNomination(b.lastNomination, nomination) {
      NominateAtKeepsInv(cfg, Remembered(b, nomination), PlaceOf(a, local, remote), nomination);
    }
  }

  lemma ControllingRequestIsCalm(a: Agent, local: Candidate, remote: Candidate, nominatable: bool)
    requires IdsGrow(a.pairs, a.nextId)
    ensures Calm(a, ControllingRequest(a, local, remote, nominatable))
  {
    LocatedIsCalm(a, local, remote);
  }

  lemma ResponseIs(cfg: Config, a: Agent, local: Candidate, remote: Candidate, useCandidate: bool, nomination: Option<nat>)
    ensures var i := Find(a.pairs, local, remote);
            Step(cfg, a, BindingSuccess(local, remote, useCandidate, nomination))
            == if i.None? then a else SelectIfDue(cfg, SucceedAt(a, i.value), i.value, useCandidate, nomination)
  {
  }

  lemma TickIs(cfg: Config, a: Agent, overdue: bool, seen: Connection, nominatable: bool)
    ensures Step(cfg, a, Tick(overdue, seen, nominatable))
         == if a.connection == Failed then a
            else if a.connection == Checking && overdue then Connect(a, Failed)
            else ContactPairs(cfg, a, seen, nominatable)
  {
  }

  lemma SucceedIsCalm(a: Agent, i: nat)
    requires IdsGrow(a.pairs, a.nextId) && i < |a.pairs|
    ensures Calm(a, SucceedAt(a, i)) && SucceedAt(a, i).pairs[i].state.Succeeded?
  {
  }

  /** A response selects only a pair that succeeded. */
  lemma SelectIfDueMoves(cfg: Config, a: Agent, i: nat, useCandidate: bool, nomination: Option<nat>)
    requires Inv(a) && i < |a.pairs| && a.pairs[i].state.Succeeded?
    ensures Inv(SelectIfDue(cfg, a, i, useCandidate, nomination))
    ensures !a.controlling || nomination.None? ==>
              SelectionMoves(cfg, a, SelectIfDue(cfg, a, i, useCandidate, nomination))
  {
    SelectKeepsInv(a, i);
  }

  lemma CalmThenMoves(cfg: Config, a: Agent, b: Agent, c: Agent)
    requires Inv(a) && Calm(a, b) && SelectionMoves(cfg, b, c)
    ensures SelectionMoves(cfg, a, c)
  {
    CalmKeepsInv(a, b);
  }

  lemma ResponseKeepsInv(cfg: Config, a: Agent, local: Candidate, remote: Candidate, useCandidate: bool, nomination: Option<nat>)
    requires Inv(a)
    ensures Inv(Response(cfg, a, local, remote, useCandidate, nomination))
    ensures !a.controlling || nomination.None? ==>
              SelectionMoves(cfg, a, Response(cfg, a, local, remote, useCandidate, nomination))
  {
    var found := Find(a.pairs, local, remote);
    if found.Some? {
      var b := SucceedAt(a, found.value);
      SucceedIsCalm(a, found.value);
      CalmKeepsInv(a, b);
      SelectIfDueMoves(cfg, b, found.value, useCandidate, nomination);
      if !a.controlling || nomination.None? {
        CalmThenMoves(cfg, a, b, SelectIfDue(cfg, b, found.value, useCandidate, nomination));
      }
    }
  }

  lemma PingIsCalm(cfg: Config, a: Agent)
    requires IdsGrow(a.pairs, a.nextId)
    ensures Calm(a, a.(pairs := PingEach(a.pairs, cfg.maxRequests)))
  {
  }

  lemma NominatedIsCalm(cfg: Config, a: Agent, nominatable: bool)
    requires IdsGrow(a.pairs, a.nextId)
    ensures Calm(a, Nominated(cfg, a, nominatable))
  {
    var best := Best(a.pairs, IsValid);
    if best.Some? && nominatable {
      MarkIsCalm(a, best.value);
    } else {
      PingIsCalm(cfg, a);
    }
  }

  lemma NothingIsCalm(a: Agent)
    requires IdsGrow(a.pairs, a.nextId)
    ensures Calm(a, a)
  {
  }

  lemma MarkIsCalm(a: Agent, i: nat)
    requires IdsGrow(a.pairs, a.nextId) && i < |a.pairs|
    ensures Calm(a, Put(a, i, a.pairs[i].(nominated := true)))
  {
  }

  lemma UnselectedIsCalm(cfg: Config, a: Agent, nominatable: bool)
    requires IdsGrow(a.pairs, a.nextId)
    ensures Calm(a, Unselected(cfg, a, nominatable))
  {
    if !a.controlling && !cfg.lite {
      PingIsCalm(cfg, a);
    } else if a.controlling && a.nominee.None? {
      NominatedIsCalm(cfg, a, nominatable);
    } else {
      NothingIsCalm(a);
    }
  }

  /** A tick that does not end in failure. */
  predicate StaysUp(a: Agent, overdue: bool, seen: Connection) {
    a.connection == Failed || (!(a.connection == Checking && overdue) && (seen != Failed || a.selected.None?))
  }

  lemma ContactIsCalm(cfg: Config, a: Agent, overdue: bool, seen: Connection, nominatable: bool)
    requires IdsGrow(a.pairs, a.nextId) && StaysUp(a, overdue, seen)
    ensures Calm(a, Contact(cfg, a, overdue, seen, nominatable))
  {
    NothingIsCalm(a);
    UnselectedIsCalm(cfg, a, nominatable);
  }

  lemma StepKeepsInv(cfg: Config, a: Agent, e: Event)
    requires Inv(a)
    ensures Inv(Step(cfg, a, e))
  {
    match e {
      case RemoteCandidate(cand) =>
        AddRemoteIsCalm(a, cand);
        CalmKeepsInv(a, AddRemote(a, cand));
      case LocalCandidate(cand) => AddLocalIsCalm(a, cand); CalmKeepsInv(a, AddLocal(a, cand));
      case BindingRequest(l, r, nominates, nomination, nominatable) =>
        if a.controlling {
          ControllingRequestIsCalm(a, l, r, nominatable);
          CalmKeepsInv(a, ControllingRequest(a, l, r, nominatable));
        } else {
          ControlledRequestKeepsInv(cfg, a, l, r, nominates, nomination);
        }
      case BindingSuccess(l, r, useCandidate, nomination) => ResponseKeepsInv(cfg, a, l, r, useCandidate, nomination);
      case Tick(overdue, seen, nominatable) =>
        if StaysUp(a, overdue, seen) {
          ContactIsCalm(cfg, a, overdue, seen, nominatable);
          CalmKeepsInv(a, Contact(cfg, a, overdue, seen, nominatable));
        }
      case Restart =>
      case RoleConflict(_) =>
    }
  }

  /** In every reachable state: ids unique and used up in order, and the selected pair listed, succeeded and nominated. */
  lemma {:induction false} RunKeepsInv(cfg: Config, controlling: bool, es: seq<Event>)
    ensures Inv(Run(cfg, Started(controlling), es))
  {
    if es != [] {
      RunKeepsInv(cfg, controlling, es[..|es| - 1]);
      StepKeepsInv(cfg, Run(cfg, Started(controlling), es[..|es| - 1]), es[|es| - 1]);
    }
  }

  // ---- the selection only improves -------------------------------------

  /** No restart, no failure, no change of role, no nomination values. */
  predicate Steady(cfg: Config, a: Agent, e: Event) {
    match e
    case Restart => false
    case RoleConflict(t) => KeepsRole(a.controlling, cfg.tieBreaker, t)
    case Tick(overdue, seen, _) => StaysUp(a, overdue, seen)
    case BindingRequest(_, _, _, nomination, _) => nomination.None?
    case BindingSuccess(_, _, _, nomination) => nomination.None?
    case _ => true
  }

  lemma SteadyMoves(cfg: Config, a: Agent, e: Event)
    requires Inv(a) && Steady(cfg, a, e)
    ensures SelectionMoves(cfg, a, Step(cfg, a, e))
  {
    match e {
      case RemoteCandidate(cand) =>
        AddRemoteIsCalm(a, cand);
        CalmKeepsInv(a, AddRemote(a, cand));
      case LocalCandidate(cand) => AddLocalIsCalm(a, cand); CalmKeepsInv(a, AddLocal(a, cand));
      case BindingRequest(l, r, nominates, nomination, nominatable) =>
        if a.controlling {
          ControllingRequestIsCalm(a, l, r, nominatable);
          CalmKeepsInv(a, ControllingRequest(a, l, r, nominatable));
        } else {
          ControlledRequestMoves(cfg, a, l, r, nominates);
        }
      case BindingSuccess(l, r, useCandidate, nomination) => ResponseKeepsInv(cfg, a, l, r, useCandidate, nomination);
      case Tick(overdue, seen, nominatable) =>
        ContactIsCalm(cfg, a, overdue, seen, nominatable);
        CalmKeepsInv(a, Contact(cfg, a, overdue, seen, nominatable));
      case _ =>
    }
  }

  predicate SteadyAt(cfg: Config, a: Agent, es: seq<Event>, i: nat)
    requires i < |es|
  {
    Steady(cfg, Run(cfg, a, es[..i]), es[i])
  }

  predicate SteadyRun(cfg: Config, a: Agent, es: seq<Event>) {
    forall i :: 0 <= i < |es| ==> SteadyAt(cfg, a, es, i)
  }

  /** Once selected, a pair is only ever left for one no worse while controlled, and never while controlling. */
  lemma {:induction false} SelectionNeverWorsens(cfg: Config, a: Agent, es: seq<Event>)
    requires Inv(a) && a.selected.Some? && NeedsCheck(cfg) && SteadyRun(cfg, a, es)
    ensures var b := Run(cfg, a, es);
            && Inv(b) && b.selected.Some? && b.controlling == a.controlling
            && PriorityOfId(a.pairs, a.selected.value) <= PriorityOfId(b.pairs, b.selected.value)
            && (a.controlling ==> b.selected == a.selected)
  {
    if es != [] {
      var before := es[..|es| - 1];
      forall i | 0 <= i < |before| ensures SteadyAt(cfg, a, before, i) {
        assert SteadyAt(cfg, a, es, i) && before[..i] == es[..i];
      }
      assert SteadyAt(cfg, a, es, |before|);
      SelectionNeverWorsens(cfg, a, before);
      SteadyMoves(cfg, Run(cfg, a, before), es[|es| - 1]);
    }
  }

  /** A replaced remote leaves id, state, counters, priority and selection of every pair as they were. */
  lemma ReplacementKeeps(a: Agent, old_: Candidate, new_: Candidate)
    requires Inv(a)
    ensures var b := Replace(a, old_, new_);
            && |b.pairs| == |a.pairs| && b.selected == a.selected && b.nominee == a.nominee
            && (forall i :: 0 <= i < |a.pairs| ==>
                  var p, q := a.pairs[i], b.pairs[i];
                  && q == p.(remote := q.remote, override := q.override)
                  && PriorityOf(q) == PriorityOf(p)
                  && q.remote == if p.remote == old_ then new_ else p.remote)
  {
    forall i | 0 <= i < |a.pairs| ensures a.selected == Some(a.pairs[i].id) ==> a.pairs[i].nominated {
      if a.selected == Some(a.pairs[i].id) {
        var j :| 0 <= j < |a.pairs| && a.pairs[j].id == a.selected.value && a.pairs[j].nominated;
        assert i == j;
      }
    }
  }
}
