/** Readers blocked on the packet buffer, and the one-place channel that wakes them. */
module TransportWakeups {
  import opened Bytes
  import opened TransportBuffer

  /** A reader is away, about to look under the mutex, or waiting for a notification. */
  datatype Phase = Away | Looking | Waiting

  datatype World = World(packets: nat, token: bool, closed: bool, readers: seq<Phase>)

  datatype Step = Put | Shut | Arrive(i: nat) | Look(i: nat) | Wake(i: nat) | GiveUp(i: nat)

  predicate Enabled(w: World, s: Step) {
    match s
    case Put => !w.closed
    case Shut => true
    case Arrive(i) => i < |w.readers| && w.readers[i].Away?
    case Look(i) => i < |w.readers| && w.readers[i].Looking?
    case Wake(i) => i < |w.readers| && w.readers[i].Waiting? && (w.token || w.closed)
    case GiveUp(i) => i < |w.readers| && w.readers[i].Waiting?
  }

  /** A notification that finds the channel full is dropped; a closed channel wakes everyone. */
  function After(w: World, s: Step): World
    requires Enabled(w, s)
  {
    match s
    case Put => w.(packets := w.packets + 1, token := true)
    case Shut => w.(closed := true)
    case Arrive(i) => w.(readers := w.readers[i := Looking])
    case Look(i) =>
      if w.packets > 0 then w.(packets := w.packets - 1, readers := w.readers[i := Away])
      else w.(readers := w.readers[i := if w.closed then Away else Waiting])
    case Wake(i) => w.(token := false, readers := w.readers[i := Looking])
    case GiveUp(i) => w.(readers := w.readers[i := Away])
  }

  function Start(readers: nat): World {
    World(0, false, false, seq(readers, _ => Away))
  }

  /** Where a run leads, if each of its steps can be taken. */
  function Run(w: World, steps: seq<Step>): Option<World>
    decreases |steps|
  {
    if steps == [] then Some(w)
    else if Enabled(w, steps[0]) then Run(After(w, steps[0]), steps[1..])
    else None
  }

  /** A packet is held and a reader waits, but nothing will wake it before the next write, read or close. */
  predicate Stuck(w: World) {
    && !w.closed && w.packets > 0 && !w.token
    && (exists i :: 0 <= i < |w.readers| && w.readers[i].Waiting?)
    && (forall i :: 0 <= i < |w.readers| ==> !w.readers[i].Looking?)
  }

  /** A lone reader that waits does so on an empty buffer, or is about to be woken. */
  predicate Alert(w: World) {
    |w.readers| <= 1 && (|w.readers| == 1 && w.readers[0].Waiting? ==> w.packets == 0 || w.token || w.closed)
  }

  lemma {:induction false} StaysAlert(w: World, steps: seq<Step>)
    requires Alert(w) && Run(w, steps).Some?
    ensures Alert(Run(w, steps).value)
    decreases |steps|
  {
    if steps != [] {
      StaysAlert(After(w, steps[0]), steps[1..]);
    }
  }

  lemma {:induction false} RunsOn(w: World, steps: seq<Step>, more: seq<Step>)
    requires Run(w, steps).Some?
    ensures Run(w, steps + more) == Run(Run(w, steps).value, more)
    decreases |steps|
  {
    if steps == [] {
      assert steps + more == more;
    } else {
      assert (steps + more)[1..] == steps[1..] + more;
      RunsOn(After(w, steps[0]), steps[1..], more);
    }
  }

  lemma TwoSteps(w: World, s: Step, t: Step)
    requires Enabled(w, s) && Enabled(After(w, s), t)
    ensures Run(w, [s, t]) == Some(After(After(w, s), t))
  {
    assert [s, t][1..] == [t] && [t][1..] == [];
    assert Run(After(w, s), [t]) == Run(After(After(w, s), t), []) == Some(After(After(w, s), t));
  }

  /** On an empty buffer a reader that arrives falls asleep. */
  lemma FallsAsleep(w: World, i: nat)
    requires i < |w.readers| && w.readers[i].Away? && w.packets == 0 && !w.closed
    ensures Run(w, [Arrive(i), Look(i)]) == Some(w.(readers := w.readers[i := Waiting]))
  {
    TwoSteps(w, Arrive(i), Look(i));
    assert w.readers[i := Looking][i := Waiting] == w.readers[i := Waiting];
  }

  /** Woken, a reader takes one packet and the notification with it. */
  lemma TakesOne(w: World, i: nat)
    requires i < |w.readers| && w.readers[i].Waiting? && w.packets > 0 && w.token
    ensures Run(w, [Wake(i), Look(i)])
         == Some(World(w.packets - 1, false, w.closed, w.readers[i := Away]))
  {
    TwoSteps(w, Wake(i), Look(i));
    assert w.readers[i := Looking][i := Away] == w.readers[i := Away];
  }

  /** Two readers wait, two packets come with one notification between them, and one reader is left behind. */
  lemma LeftBehind(readers: nat) returns (steps: seq<Step>)
    requires readers >= 2
    ensures Run(Start(readers), steps).Some? && Stuck(Run(Start(readers), steps).value)
  {
    var w0 := Start(readers);
    var w1 := w0.(readers := w0.readers[0 := Waiting]);
    var w2 := w1.(readers := w1.readers[1 := Waiting]);
    var w3 := w2.(packets := 2, token := true);
    FallsAsleep(w0, 0);
    FallsAsleep(w1, 1);
    TwoSteps(w2, Put, Put);
    TakesOne(w3, 0);
    RunsOn(w2, [Put, Put], [Wake(0), Look(0)]);
    RunsOn(w1, [Arrive(1), Look(1)], [Put, Put] + [Wake(0), Look(0)]);
    RunsOn(w0, [Arrive(0), Look(0)], [Arrive(1), Look(1)] + ([Put, Put] + [Wake(0), Look(0)]));
    steps := [Arrive(0), Look(0)] + ([Arrive(1), Look(1)] + ([Put, Put] + [Wake(0), Look(0)]));
    assert w3.readers[0 := Away][1].Waiting?;
  }

  ghost predicate NeverStuck(readers: nat) {
    forall steps :: Run(Start(readers), steps).Some? ==> !Stuck(Run(Start(readers), steps).value)
  }

  /** No waiting reader is ever left behind a held packet, exactly if there is at most one reader. */
  lemma NeverStuckIff(readers: nat)
    ensures NeverStuck(readers) <==> readers <= 1
  {
    if readers <= 1 {
      forall steps | Run(Start(readers), steps).Some?
        ensures !Stuck(Run(Start(readers), steps).value)
      {
        StaysAlert(Start(readers), steps);
      }
    } else {
      var steps := LeftBehind(readers);
    }
  }

  // ---- the steps are the buffer's own ----------------------------------

  /** The world counts the packets this buffer holds, and knows whether it is closed. */
  ghost predicate Mirrors(w: World, b: TransportBuffer)
    reads b
  {
    w.packets == |b.queue| && w.closed == b.closed
  }

  /** A write that succeeds is a Put, notification included; one that is refused is no step. */
  method WriteIsPut(b: TransportBuffer, packet: seq<byte>, ghost w: World) returns (r: WriteResult)
    requires b.Valid() && Mirrors(w, b)
    modifies b`data, b`head, b`tail, b`notified, b`queue, b`accepted, b.data
    ensures b.Valid()
    ensures r.Written? ==> Enabled(w, Put) && Mirrors(After(w, Put), b) && b.notified && After(w, Put).token
    ensures !r.Written? ==> Mirrors(w, b)
    ensures !Enabled(w, Put) ==> r.ClosedPipe? || r.TooBig?
  {
    r := b.Write(packet);
  }

  /** One pass of a reader through the mutex is a Look: it leaves with a packet or the end, or waits. */
  method ReadIsLook(b: TransportBuffer, packet: array<byte>, ghost w: World, ghost i: nat) returns (r: ReadResult)
    requires b.Valid() && packet != b.data && Mirrors(w, b) && Enabled(w, Look(i))
    modifies b`head, b`tail, b`queue, b`removed, packet
    ensures b.Valid() && Mirrors(After(w, Look(i)), b)
    ensures r.WouldBlock? <==> After(w, Look(i)).readers[i].Waiting?
    ensures r.Data? || r.ShortBuffer? || r.Eof? <==> After(w, Look(i)).readers[i].Away?
    ensures After(w, Look(i)).packets < w.packets <==> r.Data? || r.ShortBuffer?
  {
    r := b.Read(packet, false);
  }

  method CloseIsShut(b: TransportBuffer, ghost w: World)
    requires b.Valid() && Mirrors(w, b)
    modifies b`closed
    ensures b.Valid() && Mirrors(After(w, Shut), b)
  {
    b.Close();
  }
}
