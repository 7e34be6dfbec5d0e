/** The concurrent dial of several endpoints: one connection is returned, all others are closed. */
module DialRace {

  /** The life of one dialing leg: its delay, the dial, the result before and after the check for
      an earlier winner, the result in the channel, and the result received. */
  datatype Phase = Waiting | Dialing | Dialed | Checked | Queued | Taken

  /** `conn`: the backend returned a connection; `ok`: it returned no error; `passed`: the result
      carries the connection; `closes`: how often the connection was closed. */
  datatype Leg = Leg(phase: Phase, conn: bool, ok: bool, passed: bool, closes: nat)

  datatype Caller = Running(pending: nat) | Returned(winner: nat, draining: nat) | Failed

  datatype State = State(legs: seq<Leg>, queue: seq<nat>, won: bool, canceled: bool, caller: Caller)

  datatype Step =
    | Abandon(i: nat)
    | StartDial(i: nat)
    | FinishDial(i: nat, conn: bool, ok: bool)
    | Check(i: nat)
    | Send(i: nat)
    | Receive
    | Drain
    | Cancel

  ghost predicate Initial(s: State) {
    && s.legs != [] && s.queue == [] && !s.won && s.caller == Running(|s.legs|)
    && forall i :: 0 <= i < |s.legs| ==>
         s.legs[i] == Leg(Waiting, false, false, false, 0) || s.legs[i] == Leg(Dialing, false, false, false, 0)
  }

  predicate At(s: State, i: nat, phase: Phase) {
    i < |s.legs| && s.legs[i].phase == phase
  }

  predicate Enabled(s: State, step: Step) {
    match step
    case Abandon(i) => At(s, i, Waiting) && s.canceled
    case StartDial(i) => At(s, i, Waiting)
    case FinishDial(i, conn, ok) => At(s, i, Dialing) && (ok ==> conn)
    case Check(i) => At(s, i, Dialed)
    case Send(i) => At(s, i, Checked)
    case Receive => s.caller.Running? && s.caller.pending > 0 && s.queue != [] && s.queue[0] < |s.legs|
    case Drain => s.caller.Returned? && s.caller.draining > 0 && s.queue != [] && s.queue[0] < |s.legs|
    case Cancel => !s.canceled
  }

  /** The connection of a result, closed when the result carries one. */
  function Discarded(l: Leg): Leg {
    l.(phase := Taken, closes := if l.passed then l.closes + 1 else l.closes)
  }

  function Next(s: State, step: Step): State
    requires Enabled(s, step)
  {
    match step
    case Abandon(i) => s.(legs := s.legs[i := s.legs[i].(phase := Queued)], queue := s.queue + [i])
    case StartDial(i) => s.(legs := s.legs[i := s.legs[i].(phase := Dialing)])
    case FinishDial(i, conn, ok) => s.(legs := s.legs[i := s.legs[i].(phase := Dialed, conn := conn, ok := ok)])
    case Check(i) =>
      var l := s.legs[i];
      var late := l.ok && s.won;
      s.(legs := s.legs[i := l.(phase := Checked, passed := l.conn && !late,
                                closes := if late then l.closes + 1 else l.closes)])
    case Send(i) => s.(legs := s.legs[i := s.legs[i].(phase := Queued)], queue := s.queue + [i])
    case Receive =>
      var i := s.queue[0];
      var l := s.legs[i];
      var left := s.caller.pending - 1;
      if l.ok && !s.won then
        State(s.legs[i := l.(phase := Taken)], s.queue[1..], true, true, Returned(i, left))
      else
        s.(legs := s.legs[i := Discarded(l)], queue := s.queue[1..],
           won := s.won || l.ok, caller := if left == 0 then Failed else Running(left))
    case Drain =>
      var i := s.queue[0];
      s.(legs := s.legs[i := Discarded(s.legs[i])], queue := s.queue[1..],
         caller := s.caller.(draining := s.caller.draining - 1))
    case Cancel => s.(canceled := true)
  }

  // ---------------------------------------------------------------------------------------
  // What every run keeps
  // ---------------------------------------------------------------------------------------

  /** The legs whose result is not received yet. */
  function Outstanding(legs: seq<Leg>): nat {
    if legs == [] then 0
    else Outstanding(legs[..|legs| - 1]) + if legs[|legs| - 1].phase == Taken then 0 else 1
  }

  lemma {:induction false} OutstandingChange(legs: seq<Leg>, i: nat, l: Leg)
    requires i < |legs|
    ensures Outstanding(legs[i := l])
         == Outstanding(legs) - (if legs[i].phase == Taken then 0 else 1) + if l.phase == Taken then 0 else 1
  {
    var last := |legs| - 1;
    var after := legs[i := l];
    if i == last {
      assert after[..last] == legs[..last];
    } else {
      OutstandingChange(legs[..last], i, l);
      assert after[..last] == legs[..last][i := l];
    }
  }

  lemma {:induction false} AllOutstanding(legs: seq<Leg>)
    requires forall i :: 0 <= i < |legs| ==> legs[i].phase != Taken
    ensures Outstanding(legs) == |legs|
  {
    if legs != [] {
      AllOutstanding(legs[..|legs| - 1]);
    }
  }

  lemma {:induction false} SomeOutstanding(legs: seq<Leg>) returns (i: nat)
    requires Outstanding(legs) > 0
    ensures i < |legs| && legs[i].phase != Taken
  {
    var last := |legs| - 1;
    if legs[last].phase != Taken {
      i := last;
    } else {
      i := SomeOutstanding(legs[..last]);
    }
  }

  lemma {:induction false} NoneOutstanding(legs: seq<Leg>, i: nat)
    requires Outstanding(legs) == 0 && i < |legs|
    ensures legs[i].phase == Taken
  {
    if i < |legs| - 1 {
      NoneOutstanding(legs[..|legs| - 1], i);
    }
  }

  /** A connection is closed at most once, by whoever holds it last; the winner's never. */
  ghost predicate LegFine(l: Leg, won: bool, winner: bool) {
    match l.phase
    case Waiting => l == Leg(Waiting, false, false, false, 0)
    case Dialing => l == Leg(Dialing, false, false, false, 0)
    case Dialed => (l.ok ==> l.conn) && !l.passed && l.closes == 0
    case Taken =>
      && (winner ==> l.conn && l.ok && l.passed) && (l.ok && !winner ==> won)
      && l.closes == if l.conn && !winner then 1 else 0
    case _ =>
      && (l.ok ==> l.conn) && (l.passed ==> l.conn)
      && l.closes == (if l.conn && !l.passed then 1 else 0)
      && (l.ok && !l.passed ==> won)
  }

  ghost predicate Wins(c: Caller, i: nat) {
    c.Returned? && c.winner == i
  }

  ghost predicate QueueFine(legs: seq<Leg>, queue: seq<nat>) {
    && (forall k :: 0 <= k < |queue| ==> queue[k] < |legs| && legs[queue[k]].phase == Queued)
    && (forall j, k :: 0 <= j < k < |queue| ==> queue[j] != queue[k])
    && (forall i: nat :: i < |legs| && legs[i].phase == Queued ==> i in queue)
  }

  ghost predicate CallerFine(s: State) {
    match s.caller
    case Running(pending) => pending == Outstanding(s.legs) && pending > 0 && !s.won
    case Returned(winner, draining) =>
      draining == Outstanding(s.legs) && s.won && s.canceled && At(s, winner, Taken)
    case Failed => Outstanding(s.legs) == 0 && !s.won
  }

  ghost predicate Inv(s: State) {
    && (forall i: nat :: i < |s.legs| ==> LegFine(s.legs[i], s.won, Wins(s.caller, i)))
    && QueueFine(s.legs, s.queue) && CallerFine(s)
  }

  lemma InitialInv(s: State)
    requires Initial(s)
    ensures Inv(s)
  {
    AllOutstanding(s.legs);
  }

  /** Changing one leg leaves the others fine. */
  lemma OthersFine(s: State, t: State, i: nat)
    requires |s.legs| == |t.legs| && i < |s.legs| && t.legs == s.legs[i := t.legs[i]]
    requires forall j: nat :: j < |s.legs| ==> LegFine(s.legs[j], s.won, Wins(s.caller, j))
    requires LegFine(t.legs[i], t.won, Wins(t.caller, i))
    requires s.won ==> t.won
    requires forall j: nat :: j < |s.legs| && j != i ==> Wins(t.caller, j) == Wins(s.caller, j)
    ensures forall j: nat :: j < |t.legs| ==> LegFine(t.legs[j], t.won, Wins(t.caller, j))
  {
    forall j: nat | j < |t.legs|
      ensures LegFine(t.legs[j], t.won, Wins(t.caller, j))
    {
      assert LegFine(s.legs[j], s.won, Wins(s.caller, j));
    }
  }

  lemma QueueMoved(legs: seq<Leg>, queue: seq<nat>, i: nat, l: Leg)
    requires QueueFine(legs, queue) && i < |legs| && legs[i].phase != Queued
    ensures l.phase != Queued ==> QueueFine(legs[i := l], queue)
    ensures l.phase == Queued ==> QueueFine(legs[i := l], queue + [i])
  {}

  /** A leg moves on by itself. */
  lemma LegStepKeeps(s: State, step: Step, i: nat)
    requires Inv(s) && Enabled(s, step)
    requires step == StartDial(i) || (step.FinishDial? && step.i == i) || step == Check(i)
    ensures Inv(Next(s, step))
  {
    hide Outstanding, QueueFine;
    var t := Next(s, step);
    OutstandingChange(s.legs, i, t.legs[i]);
    QueueMoved(s.legs, s.queue, i, t.legs[i]);
    assert LegFine(s.legs[i], s.won, Wins(s.caller, i));
    OthersFine(s, t, i);
  }

  /** A leg hands in its result. */
  lemma HandInKeeps(s: State, step: Step, i: nat)
    requires Inv(s) && Enabled(s, step) && (step == Abandon(i) || step == Send(i))
    ensures Inv(Next(s, step))
  {
    hide Outstanding, QueueFine;
    var t := Next(s, step);
    OutstandingChange(s.legs, i, t.legs[i]);
    QueueMoved(s.legs, s.queue, i, t.legs[i]);
    assert LegFine(s.legs[i], s.won, Wins(s.caller, i));
    OthersFine(s, t, i);
  }

  lemma QueueTaken(legs: seq<Leg>, queue: seq<nat>, l: Leg)
    requires QueueFine(legs, queue) && queue != [] && l.phase == Taken
    ensures legs[queue[0]].phase == Queued
    ensures QueueFine(legs[queue[0] := l], queue[1..])
  {
    var after, rest := legs[queue[0] := l], queue[1..];
    forall i: nat | i < |after| && after[i].phase == Queued
      ensures i in rest
    {
      var k :| 0 <= k < |queue| && queue[k] == i;
      assert rest[k - 1] == i;
    }
  }

  /** A result is received, by the caller or while draining. */
  lemma TakeKeeps(s: State, step: Step)
    requires Inv(s) && Enabled(s, step) && (step == Receive || step == Drain)
    ensures Inv(Next(s, step))
  {
    hide Outstanding, QueueFine;
    var i, t := s.queue[0], Next(s, step);
    OutstandingChange(s.legs, i, t.legs[i]);
    QueueTaken(s.legs, s.queue, t.legs[i]);
    assert LegFine(s.legs[i], s.won, Wins(s.caller, i));
    OthersFine(s, t, i);
  }

  lemma StepKeeps(s: State, step: Step)
    requires Inv(s) && Enabled(s, step)
    ensures Inv(Next(s, step))
  {
    match step
    case Abandon(i) => HandInKeeps(s, step, i);
    case StartDial(i) => LegStepKeeps(s, step, i);
    case FinishDial(i, _, _) => LegStepKeeps(s, step, i);
    case Check(i) => LegStepKeeps(s, step, i);
    case Send(i) => HandInKeeps(s, step, i);
    case Receive => TakeKeeps(s, step);
    case Drain => TakeKeeps(s, step);
    case Cancel =>
  }

  // ---------------------------------------------------------------------------------------
  // Whole runs
  // ---------------------------------------------------------------------------------------

  ghost predicate Run(states: seq<State>, steps: seq<Step>) {
    && |states| == |steps| + 1 && Initial(states[0])
    && forall k :: 0 <= k < |steps| ==>
         Enabled(states[k], steps[k]) && states[k + 1] == Next(states[k], steps[k])
  }

  lemma {:induction false} RunInv(states: seq<State>, steps: seq<Step>, k: nat)
    requires Run(states, steps) && k < |states|
    ensures Inv(states[k])
  {
    if k == 0 {
      InitialInv(states[0]);
    } else {
      RunInv(states, steps, k - 1);
      hide Inv, Next, Initial;
      StepKeeps(states[k - 1], steps[k - 1]);
    }
  }

  /** At any time: no connection is closed twice; a connection the caller returned is never closed,
      was dialed without an error, and ends the other dials; and a caller that still waits has
      received nothing but errors, so it returns the first connection that comes without one. */
  lemma RaceSafety(states: seq<State>, steps: seq<Step>, k: nat)
    requires Run(states, steps) && k < |states|
    ensures forall i :: 0 <= i < |states[k].legs| ==> states[k].legs[i].closes <= 1
    ensures states[k].caller.Returned? ==>
              var w := states[k].caller.winner;
              w < |states[k].legs| && states[k].legs[w].conn && states[k].legs[w].ok && states[k].legs[w].closes == 0
    ensures states[k].caller.Returned? ==> states[k].canceled
    ensures states[k].caller.Running? ==>
              forall i :: 0 <= i < |states[k].legs| && states[k].legs[i].phase == Taken ==> !states[k].legs[i].ok
  {
    RunInv(states, steps, k);
    var s := states[k];
    assert forall i: nat :: i < |s.legs| ==> LegFine(s.legs[i], s.won, Wins(s.caller, i));
  }

  /** The race is over when the caller has its result and nothing is left to drain. */
  predicate Over(s: State) {
    s.caller.Failed? || (s.caller.Returned? && s.caller.draining == 0)
  }

  /** When it is over, every connection that any leg dialed is closed exactly once, except the
      one that was returned; and without a winner no leg dialed without an error. */
  lemma NothingLeaks(states: seq<State>, steps: seq<Step>, k: nat, i: nat)
    requires Run(states, steps) && k < |states| && Over(states[k]) && i < |states[k].legs|
    ensures states[k].legs[i].phase == Taken
    ensures states[k].legs[i].closes == if states[k].legs[i].conn && !Wins(states[k].caller, i) then 1 else 0
    ensures states[k].caller.Failed? ==> !states[k].legs[i].ok
  {
    RunInv(states, steps, k);
    var s := states[k];
    NoneOutstanding(s.legs, i);
    assert LegFine(s.legs[i], s.won, Wins(s.caller, i));
  }

  // ---------------------------------------------------------------------------------------
  // Every race ends
  // ---------------------------------------------------------------------------------------

  function Weight(p: Phase): nat {
    match p
    case Waiting => 5
    case Dialing => 4
    case Dialed => 3
    case Checked => 2
    case Queued => 1
    case Taken => 0
  }

  function Weights(legs: seq<Leg>): nat {
    if legs == [] then 0 else Weights(legs[..|legs| - 1]) + Weight(legs[|legs| - 1].phase)
  }

  lemma {:induction false} WeightsChange(legs: seq<Leg>, i: nat, l: Leg)
    requires i < |legs|
    ensures Weights(legs[i := l]) == Weights(legs) - Weight(legs[i].phase) + Weight(l.phase)
  {
    var last := |legs| - 1;
    var after := legs[i := l];
    if i == last {
      assert after[..last] == legs[..last];
    } else {
      WeightsChange(legs[..last], i, l);
      assert after[..last] == legs[..last][i := l];
    }
  }

  lemma {:induction false} WeightsBound(legs: seq<Leg>)
    ensures Weights(legs) <= 5 * |legs|
  {
    if legs != [] {
      WeightsBound(legs[..|legs| - 1]);
    }
  }

  function Measure(s: State): nat {
    Weights(s.legs) + if s.canceled then 0 else 1
  }

  /** Every step brings the race nearer to its end. */
  lemma StepDecreases(s: State, step: Step)
    requires Inv(s) && Enabled(s, step)
    ensures Measure(Next(s, step)) < Measure(s)
  {
    hide Weights, Inv;
    var t := Next(s, step);
    if step != Cancel {
      var i := if step == Receive || step == Drain then s.queue[0] else step.i;
      FrontQueued(s);
      WeightsChange(s.legs, i, t.legs[i]);
    }
  }

  lemma FrontQueued(s: State)
    requires Inv(s)
    ensures s.queue != [] ==> s.queue[0] < |s.legs| && s.legs[s.queue[0]].phase == Queued
  {}

  /** A race that is not over can go on, whatever has happened so far. */
  lemma NeverStuck(s: State) returns (step: Step)
    requires Inv(s) && !Over(s)
    ensures Enabled(s, step)
  {
    var i := SomeOutstanding(s.legs);
    match s.legs[i].phase {
      case Waiting => step := StartDial(i);
      case Dialing => step := FinishDial(i, false, false);
      case Dialed => step := Check(i);
      case Checked => step := Send(i);
      case Queued =>
        assert i in s.queue;
        step := if s.caller.Running? then Receive else Drain;
    }
  }

  lemma {:induction false} RunDecreases(states: seq<State>, steps: seq<Step>, k: nat)
    requires Run(states, steps) && k < |states|
    ensures Measure(states[k]) + k <= Measure(states[0])
  {
    hide Measure, Inv, Next, Initial;
    if k > 0 {
      RunDecreases(states, steps, k - 1);
      RunInv(states, steps, k - 1);
      StepDecreases(states[k - 1], steps[k - 1]);
    }
  }

  /** No run has more than five steps for each leg and one more. */
  lemma RunBounded(states: seq<State>, steps: seq<Step>, k: nat)
    requires Run(states, steps) && k < |states|
    ensures k <= 5 * |states[0].legs| + 1
  {
    hide Run, Weights;
    RunDecreases(states, steps, k);
    WeightsBound(states[0].legs);
  }
}
