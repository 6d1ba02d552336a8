/** The resettable deadline as a step system of Set, timer, callback and late close. */
module TransportDeadline {
  /** pending is a uint8. */
  const COUNT_MAX := 256

  datatype Phase = Stopped | Started | Exceeded

  /** What Set is asked for: the zero time, or an instant. */
  datatype When = Never | At(time: int)

  /**
    The deadline's fields, and the environment they race with: the timer, callbacks
    that have fired (perhaps for an older deadline) but not yet taken the mutex,
    channels a callback goes on to close once it has released the mutex, and the
    channels already closed. Channels are numbered in order of creation.
   */
  datatype World = World(
    phase: Phase, pending: nat, done: nat, deadline: When,
    armed: bool, inFlight: nat, toClose: multiset<nat>, closed: set<nat>,
    doubleClose: bool, now: int)
  {
    function Outstanding(): nat {
      inFlight + if armed then 1 else 0
    }

    /** The instant last set has come. */
    predicate Passed() {
      deadline.At? && now >= deadline.time
    }
  }

  function Dec(n: nat): nat {
    (n + COUNT_MAX - 1) % COUNT_MAX
  }

  function Inc(n: nat): nat {
    (n + 1) % COUNT_MAX
  }

  function Fresh(now: int): World {
    World(Stopped, 0, 0, Never, false, 0, multiset{}, {}, false, now)
  }

  /** Closing a closed channel panics in Go; the flag remembers it. */
  function CloseChan(w: World, c: nat): World {
    w.(closed := w.closed + {c}, doubleClose := w.doubleClose || c in w.closed)
  }

  /** A timer stopped in time never fires its callback. */
  function TimerStopped(w: World): World {
    if w.phase.Started? && w.armed then w.(armed := false, pending := Dec(w.pending)) else w
  }

  /** The new deadline, counted in; an exceeded one leaves its closed channel behind. */
  function Counted(w: World, when: When): World {
    w.(deadline := when, pending := Inc(w.pending), done := if w.phase.Exceeded? then w.done + 1 else w.done)
  }

  function Settled(w: World, when: When): World {
    match when
    case Never => w.(pending := Dec(w.pending), phase := Stopped)
    case At(t) =>
      if t > w.now then w.(phase := Started, armed := true)
      else CloseChan(w.(pending := Dec(w.pending), phase := Exceeded), w.done)
  }

  function AfterSet(w: World, when: When): World {
    Settled(Counted(TimerStopped(w), when), when)
  }

  function CountedOut(w: World): World
    requires w.inFlight > 0
  {
    w.(inFlight := w.inFlight - 1, pending := Dec(w.pending))
  }

  /** The part of the callback that runs under the mutex. */
  function AfterCallback(w: World): World
    requires w.inFlight > 0
  {
    var w1 := CountedOut(w);
    if w1.pending != 0 || !w1.phase.Started? then w1
    else w1.(phase := Exceeded, toClose := w1.toClose + multiset{w1.done})
  }

  datatype Step = Set(when: When) | Fire | Callback | LateClose(c: nat) | Tick(to: int)

  predicate Enabled(w: World, s: Step) {
    match s
    case Set(_) => true
    case Fire => w.armed && w.Passed()
    case Callback => w.inFlight > 0
    case LateClose(c) => c in w.toClose
    case Tick(to) => to >= w.now
  }

  function After(w: World, s: Step): World
    requires Enabled(w, s)
  {
    match s
    case Set(when) => AfterSet(w, when)
    case Fire => w.(armed := false, inFlight := w.inFlight + 1)
    case Callback => AfterCallback(w)
    case LateClose(c) => CloseChan(w.(toClose := w.toClose - multiset{c}), c)
    case Tick(to) => w.(now := to)
  }

  // ---- the imperative form ---------------------------------------------

  class TransportDeadline {
    var state: Phase
    var pending: nat
    var done: nat
    var deadline: When
    var timerArmed: bool
    ghost var inFlight: nat
    ghost var toClose: multiset<nat>
    ghost var closed: set<nat>
    ghost var doubleClose: bool
    ghost var now: int

    ghost function View(): World
      reads this
    {
      World(state, pending, done, deadline, timerArmed, inFlight, toClose, closed, doubleClose, now)
    }

    constructor (ghost now: int)
      ensures View() == Fresh(now)
    {
      state, pending, done, deadline, timerArmed := Stopped, 0, 0, Never, false;
      inFlight, toClose, closed, doubleClose := 0, multiset{}, {}, false;
      this.now := now;
    }

    /** Stopped, running with its timer, or over with its channel closed. */
    ghost predicate Landed(setTo: When, clock: int)
      reads this
    {
      match setTo
      case Never => state == Stopped
      case At(t) => if t > clock then state == Started && timerArmed else state == Exceeded && done in closed
    }

    /** clock is what time.Now reads under the mutex. */
    method Set(setTo: When, clock: int)
      requires clock == now
      modifies this
      ensures View() == AfterSet(old(View()), setTo)
      ensures deadline == setTo && Landed(setTo, clock)
    {
      StopTimer();
      deadline := setTo;
      pending := Inc(pending);
      if state == Exceeded {
        done := done + 1;
      }
      Settle(setTo, clock);
    }

    method StopTimer()
      modifies this`timerArmed, this`pending
      ensures View() == TimerStopped(old(View()))
    {
      if state == Started {
        var stopped := timerArmed;
        timerArmed := false;
        if stopped {
          pending := Dec(pending);
        }
      }
    }

    method Settle(setTo: When, clock: int)
      requires clock == now
      modifies this`state, this`pending, this`timerArmed, this`closed, this`doubleClose
      ensures View() == Settled(old(View()), setTo) && Landed(setTo, clock)
    {
      if setTo.Never? {
        pending := Dec(pending);
        state := Stopped;
        return;
      }
      if setTo.time > clock {
        state := Started;
        timerArmed := true;
        return;
      }
      pending := Dec(pending);
      state := Exceeded;
      Close(done);
    }

    ghost method Close(c: nat)
      modifies this`closed, this`doubleClose
      ensures View() == CloseChan(old(View()), c)
    {
      doubleClose := doubleClose || c in closed;
      closed := closed + {c};
    }

    method CountOut()
      requires inFlight > 0
      modifies this`inFlight, this`pending
      ensures View() == CountedOut(old(View()))
    {
      inFlight := inFlight - 1;
      pending := Dec(pending);
    }

    /** The locked part of timeout; the result is the channel it goes on to close, if any. */
    method Timeout() returns (expired: bool, chan: nat)
      requires inFlight > 0
      modifies this
      ensures View() == AfterCallback(old(View()))
      ensures expired ==> toClose == old(toClose) + multiset{chan}
      ensures !expired ==> toClose == old(toClose)
    {
      chan := done;
      CountOut();
      if pending != 0 || state != Started {
        return false, chan;
      }
      state := Exceeded;
      toClose := toClose + multiset{done};
      return true, chan;
    }
  }

  // ---- what every step keeps -------------------------------------------

  /** pending counts what is outstanding, and every channel is closed, due to be closed, or open, once. */
  ghost predicate Inv(w: World) {
    && w.pending == w.Outstanding() % COUNT_MAX
    && (w.armed ==> w.phase.Started?)
    && (w.phase.Started? ==> w.Outstanding() > 0)
    && (w.phase.Exceeded? ==> w.Passed())
    && (w.phase.Stopped? <==> w.deadline.Never?)
    && !w.doubleClose
    && (forall c :: c in w.closed || c in w.toClose ==> c <= w.done)
    && (forall c :: c in w.toClose ==> c !in w.closed && w.toClose[c] == 1)
    && (w.done in w.closed || w.done in w.toClose <==> w.phase.Exceeded?)
  }

  /** While the phase is Started and nothing is armed, every outstanding callback came after the deadline. */
  predicate Timely(w: World) {
    w.phase.Started? && !w.armed ==> w.Passed()
  }

  lemma TimerStoppedIs(w: World)
    requires Inv(w)
    ensures var r := TimerStopped(w);
            r == w.(armed := false, pending := r.pending) && r.pending == r.inFlight % COUNT_MAX
  {
  }

  lemma CountsCancel(n: nat)
    requires n < COUNT_MAX
    ensures Dec(Inc(n)) == n
  {
  }

  lemma SetKeepsInv(w: World, when: When)
    requires Inv(w) && Timely(w)
    ensures Inv(AfterSet(w, when)) && Timely(AfterSet(w, when))
  {
    TimerStoppedIs(w);
    CountsCancel(TimerStopped(w).pending);
    assert Inc(w.inFlight % COUNT_MAX) == (w.inFlight + 1) % COUNT_MAX;
  }

  lemma CallbackKeepsInv(w: World)
    requires Inv(w) && Timely(w) && w.inFlight > 0 && w.Outstanding() <= COUNT_MAX
    ensures Inv(AfterCallback(w)) && Timely(AfterCallback(w))
  {
    assert Dec(w.pending) == (w.Outstanding() - 1) % COUNT_MAX;
  }

  lemma LateCloseKeepsInv(w: World, c: nat)
    requires Inv(w) && Timely(w) && c in w.toClose
    ensures Inv(After(w, LateClose(c))) && Timely(After(w, LateClose(c)))
  {
    var r := After(w, LateClose(c));
    assert forall d :: d in r.toClose ==> d in w.toClose && d != c;
    assert forall d :: d in r.closed || d in r.toClose <==> d in w.closed || d in w.toClose;
  }

  lemma StepKeepsInv(w: World, s: Step)
    requires Inv(w) && Timely(w) && Enabled(w, s) && (s.Callback? ==> w.Outstanding() <= COUNT_MAX)
    ensures Inv(After(w, s)) && Timely(After(w, s))
  {
    match s
    case Set(when) => SetKeepsInv(w, when);
    case Callback => CallbackKeepsInv(w);
    case LateClose(c) => LateCloseKeepsInv(w, c);
    case Fire =>
    case Tick(_) =>
  }

  /** A callback expires the deadline exactly when it is the last of its residue class. */
  lemma CallbackExpiresExactly(w: World)
    requires Inv(w) && w.inFlight > 0
    ensures var r := AfterCallback(w);
            r.phase.Exceeded? && !w.phase.Exceeded?
            <==> w.phase.Started? && r.Outstanding() % COUNT_MAX == 0
  {
    assert Dec(w.pending) == (w.Outstanding() - 1) % COUNT_MAX;
  }

  // ---- whole runs ------------------------------------------------------

  predicate IsRun(w: World, steps: seq<Step>)
    decreases |steps|
  {
    steps == [] || (Enabled(w, steps[0]) && IsRun(After(w, steps[0]), steps[1..]))
  }

  function Final(w: World, steps: seq<Step>): World
    requires IsRun(w, steps)
    decreases |steps|
  {
    if steps == [] then w else Final(After(w, steps[0]), steps[1..])
  }

  /** No more than COUNT_MAX callbacks and timers are outstanding at any moment of the run. */
  predicate Bounded(w: World, steps: seq<Step>)
    requires IsRun(w, steps)
    decreases |steps|
  {
    w.Outstanding() <= COUNT_MAX && (steps == [] || Bounded(After(w, steps[0]), steps[1..]))
  }

  lemma {:induction false} RunKeepsInv(w: World, steps: seq<Step>)
    requires Inv(w) && Timely(w) && IsRun(w, steps) && Bounded(w, steps)
    ensures Inv(Final(w, steps)) && Timely(Final(w, steps)) && Final(w, steps).Outstanding() <= COUNT_MAX
    decreases |steps|
  {
    if steps != [] {
      StepKeepsInv(w, steps[0]);
      RunKeepsInv(After(w, steps[0]), steps[1..]);
    }
  }

  /**
    Over every bounded run from a fresh deadline: no channel is closed twice, the current
    one is closed or about to be exactly when the deadline is exceeded, an exceeded
    deadline has passed, only a stopped one is not set, a running one still has its timer
    or a callback to come, and a callback that expires it leaves nothing outstanding and
    comes after the deadline.
   */
  lemma DeadlineIsSafe(start: int, steps: seq<Step>)
    requires IsRun(Fresh(start), steps) && Bounded(Fresh(start), steps)
    ensures var w := Final(Fresh(start), steps);
            && !w.doubleClose && (w.phase.Exceeded? <==> w.done in w.closed || w.done in w.toClose)
            && (w.phase.Exceeded? ==> w.Passed()) && (w.phase.Stopped? <==> w.deadline.Never?)
            && (w.phase.Started? ==> w.armed || w.inFlight > 0)
            && w.pending == w.Outstanding() % COUNT_MAX
            && (w.inFlight > 0 && w.phase.Started? && AfterCallback(w).phase.Exceeded? ==>
                  AfterCallback(w).Outstanding() == 0 && w.Passed())
  {
    RunKeepsInv(Fresh(start), steps);
    var w := Final(Fresh(start), steps);
    if w.inFlight > 0 {
      CallbackExpiresExactly(w);
    }
  }

  // ---- what was last set -----------------------------------------------

  lemma {:induction false} RunJoins(w: World, steps: seq<Step>, s: Step)
    requires IsRun(w, steps) && Enabled(Final(w, steps), s)
    ensures IsRun(w, steps + [s]) && Final(w, steps + [s]) == After(Final(w, steps), s)
    decreases |steps|
  {
    if steps == [] {
      assert [] + [s] == [s] && [s][1..] == [];
    } else {
      assert (steps + [s])[1..] == steps[1..] + [s];
      RunJoins(After(w, steps[0]), steps[1..], s);
    }
  }

  /** What has been asked for last, or what the deadline was to start with. */
  function LastSet(was: When, steps: seq<Step>): When
    decreases |steps|
  {
    if steps == [] then was else LastSet(if steps[0].Set? then steps[0].when else was, steps[1..])
  }

  /** In every reachable state, bounded or not, the deadline held is the one last set. */
  lemma {:induction false} HoldsLastSet(w: World, steps: seq<Step>)
    requires IsRun(w, steps)
    ensures Final(w, steps).deadline == LastSet(w.deadline, steps)
    decreases |steps|
  {
    if steps != [] {
      HoldsLastSet(After(w, steps[0]), steps[1..]);
    }
  }

  /**
    Right after a Set at the end of any bounded run: an instant that has come has expired, its channel
    closed; one still to come is waited for with the timer armed and the channel open; none is stopped.
   */
  lemma SetTakesEffect(start: int, steps: seq<Step>, when: When)
    requires IsRun(Fresh(start), steps) && Bounded(Fresh(start), steps)
    ensures IsRun(Fresh(start), steps + [Set(when)])
    ensures var w := Final(Fresh(start), steps + [Set(when)]);
            && w.deadline == when && w.now == Final(Fresh(start), steps).now
            && (w.phase.Exceeded? <==> when.At? && when.time <= w.now)
            && (w.phase.Exceeded? <==> w.done in w.closed)
            && (w.phase.Started? <==> when.At? && when.time > w.now) && (w.armed <==> w.phase.Started?)
            && (w.phase.Stopped? <==> when.Never?) && w.done !in w.toClose
  {
    var w := Final(Fresh(start), steps);
    RunKeepsInv(Fresh(start), steps);
    RunJoins(Fresh(start), steps, Set(when));
    SetKeepsInv(w, when);
  }

  // ---- beyond the bound ------------------------------------------------

  /** Arms a timer one tick ahead and lets it fire, k times over, no callback ever getting the mutex. */
  function Pileup(start: int, k: nat): (steps: seq<Step>)
    decreases k
  {
    if k == 0 then []
    else Round(start) + Pileup(start + 1, k - 1)
  }

  lemma RunStep(w: World, s: Step, rest: seq<Step>)
    requires Enabled(w, s)
    ensures IsRun(w, [s] + rest) <==> IsRun(After(w, s), rest)
    ensures IsRun(After(w, s), rest) ==> Final(w, [s] + rest) == Final(After(w, s), rest)
  {
    assert ([s] + rest)[1..] == rest;
  }

  /** One timer armed and fired. */
  function Round(start: int): seq<Step> {
    [Set(At(start + 1)), Tick(start + 1), Fire]
  }

  predicate Ready(w: World) {
    !w.armed && !w.phase.Exceeded?
  }

  lemma RoundRuns(w: World, rest: seq<Step>) returns (r: World)
    requires Inv(w) && Timely(w) && Ready(w)
    ensures Inv(r) && Timely(r) && Ready(r) && r.inFlight == w.inFlight + 1 && r.now == w.now + 1
    ensures IsRun(w, Round(w.now) + rest) <==> IsRun(r, rest)
    ensures IsRun(r, rest) ==> Final(w, Round(w.now) + rest) == Final(r, rest)
  {
    var arm, tick := Set(At(w.now + 1)), Tick(w.now + 1);
    var a := After(w, arm);
    StepKeepsInv(w, arm);
    var b := After(a, tick);
    StepKeepsInv(a, tick);
    r := After(b, Fire);
    StepKeepsInv(b, Fire);
    assert Round(w.now) + rest == [arm] + ([tick] + ([Fire] + rest));
    RunStep(w, arm, [tick] + ([Fire] + rest));
    RunStep(a, tick, [Fire] + rest);
    RunStep(b, Fire, rest);
  }

  lemma {:induction false} PileupRuns(w: World, k: nat, rest: seq<Step>) returns (r: World)
    requires Inv(w) && Timely(w) && Ready(w)
    ensures Inv(r) && Timely(r) && Ready(r) && r.inFlight == w.inFlight + k && r.now == w.now + k
    ensures IsRun(w, Pileup(w.now, k) + rest) <==> IsRun(r, rest)
    ensures IsRun(r, rest) ==> Final(w, Pileup(w.now, k) + rest) == Final(r, rest)
    decreases k
  {
    if k == 0 {
      assert [] + rest == rest;
      return w;
    }
    var tail := Pileup(w.now + 1, k - 1) + rest;
    assert Pileup(w.now, k) + rest == Round(w.now) + tail;
    var c := RoundRuns(w, tail);
    r := PileupRuns(c, k - 1, rest);
  }

  predicate ExpiredEarly(w: World) {
    w.phase.Exceeded? && !w.Passed() && w.armed && w.Outstanding() == COUNT_MAX
  }

  /** The bound is needed: one callback beyond it expires a deadline whose timer has not even fired. */
  lemma BoundIsTight(start: int)
    ensures exists steps :: IsRun(Fresh(start), steps) && ExpiredEarly(Final(Fresh(start), steps))
  {
    var w := Fresh(start);
    var arm := Set(At(start + COUNT_MAX + 1));
    var steps := Pileup(start, COUNT_MAX) + [arm, Callback];
    var r := PileupRuns(w, COUNT_MAX, [arm, Callback]);
    var a := After(r, arm);
    StepKeepsInv(r, arm);
    assert a.armed && a.Outstanding() == COUNT_MAX + 1 && a.pending == 1;
    RunStep(r, arm, [Callback]);
    RunStep(a, Callback, []);
    assert [arm] + [Callback] == [arm, Callback] && [Callback] + [] == [Callback];
    assert Final(w, steps) == After(a, Callback) && ExpiredEarly(After(a, Callback));
  }
}
