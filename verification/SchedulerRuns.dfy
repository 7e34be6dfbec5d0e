/** Scheduler runs: the order in which events run, and in which a link delivers. */
module SchedulerRuns {
  import opened Scheduler
  import opened LinkOrder

  /** The clock, the queue, the batch being run, the events run so far, and one link with the
      delivery events and the sizes of all that was sent on it: segments of any stream, connection
      requests and datagrams. */
  datatype State = State(
    now: int, seqno: nat, events: set<Event>, batch: seq<Event>, done: seq<Event>, link: Link,
    sent: seq<Event>, sizes: seq<nat>)

  /** `Waste` is a datagram that takes its time on the wire and is then dropped; `Schedule` is any
      event that is not a delivery over the link. */
  datatype Step =
    | Tick(d: nat)
    | Number
    | Schedule(delay: nat)
    | Send(bytes: nat, sample: int)
    | Waste(bytes: nat)
    | Pop(ready: seq<Event>)
    | RunOne

  ghost predicate Initial(s: State) {
    s.seqno == 0 && s.events == {} && s.batch == [] && s.done == [] && s.sent == [] && s.sizes == []
  }

  ghost function Later(events: set<Event>, now: int): set<Event> {
    set e | e in events && e.due > now
  }

  ghost predicate Enabled(s: State, step: Step) {
    match step
    case Send(bytes, sample) => Sampled(s.link.cfg, sample)
    case Pop(ready) => s.batch == [] && Popped(s.events, s.now, ready, Later(s.events, s.now))
    case RunOne => s.batch != []
    case _ => true
  }

  ghost function Queued(s: State, due: int): State {
    s.(seqno := s.seqno + 1, events := s.events + {Event(due, s.seqno + 1)})
  }

  ghost function Next(s: State, step: Step): State
    requires Enabled(s, step)
  {
    match step
    case Tick(d) => s.(now := s.now + d)
    case Number => s.(seqno := s.seqno + 1)
    case Schedule(delay) => Queued(s, s.now + delay)
    case Send(bytes, sample) =>
      var due := Arrival(s.link, s.now, bytes, sample);
      Queued(s, due).(link := Busy(s.link, s.now, bytes), sent := s.sent + [Event(due, s.seqno + 1)],
                      sizes := s.sizes + [bytes])
    case Waste(bytes) => s.(link := Busy(s.link, s.now, bytes))
    case Pop(ready) => s.(batch := ready, events := Later(s.events, s.now))
    case RunOne => s.(batch := s.batch[1..], done := s.done + [s.batch[0]])
  }

  /** Events leave the queue in order and on time, and whatever is still queued comes later. */
  ghost predicate Timely(s: State) {
    var out := s.done + s.batch;
    && Unique(s.events) && (forall e :: e in s.events ==> e.seqno <= s.seqno)
    && Sorted(out) && AllBefore(out, s.events)
    && (forall i :: 0 <= i < |out| ==> out[i].due <= s.now && out[i].seqno <= s.seqno)
  }

  lemma QueuedTimely(s: State, due: int)
    requires Timely(s) && due >= s.now
    ensures Timely(Queued(s, due))
  {}

  lemma PopTimely(s: State, ready: seq<Event>)
    requires Timely(s) && Enabled(s, Pop(ready))
    ensures Timely(Next(s, Pop(ready)))
  {
    var t := Next(s, Pop(ready));
    var out := t.done + t.batch;
    assert s.done + s.batch == s.done;
    forall i | 0 <= i < |ready|
      ensures ready[i] in s.events && ready[i].due <= s.now
    {
      assert ready[i] in ready;
    }
    forall i | 0 <= i < |out|
      ensures out[i] == if i < |s.done| then s.done[i] else ready[i - |s.done|]
    {}
  }

  lemma StepTimely(s: State, step: Step)
    requires Timely(s) && Enabled(s, step)
    ensures Timely(Next(s, step))
  {
    match step
    case Tick(d) =>
    case Number =>
    case Waste(_) =>
    case Schedule(delay) => QueuedTimely(s, s.now + delay);
    case Send(bytes, sample) => QueuedTimely(s, Arrival(s.link, s.now, bytes, sample));
    case Pop(ready) => PopTimely(s, ready);
    case RunOne =>
      var t := Next(s, step);
      assert t.done + t.batch == s.done + s.batch;
  }

  // ---------------------------------------------------------------------------------------
  // The link's traffic
  // ---------------------------------------------------------------------------------------

  /** Every event sent on the link is queued, about to run, or done. */
  ghost predicate Traffic(s: State) {
    && |s.sizes| == |s.sent|
    && (forall i :: 0 <= i < |s.sent| ==> s.sent[i] in s.events || s.sent[i] in s.done + s.batch)
    && (forall i :: 0 <= i < |s.sent| ==> s.sent[i].seqno <= s.seqno)
  }

  /** What is not empty arrives after all that was sent before it. */
  ghost predicate Ordered(s: State) {
    && KeepsOrder(s.link.cfg) && |s.sizes| == |s.sent|
    && (forall i, j :: 0 <= i < j < |s.sent| && s.sizes[j] >= 1 ==> Less(s.sent[i], s.sent[j]))
    && forall i :: 0 <= i < |s.sent| ==> s.sent[i].due <= Limit(s.link, s.now) && s.sent[i].seqno <= s.seqno
  }

  lemma StepTraffic(s: State, step: Step)
    requires Traffic(s) && Enabled(s, step)
    ensures Traffic(Next(s, step))
  {
    var t := Next(s, step);
    match step
    case Pop(ready) =>
      assert s.done + s.batch == s.done;
      forall e | e in s.events
        ensures e in t.events || e in t.done + t.batch
      {
        assert e.due <= s.now ==> e in ready;
      }
      assert forall e :: e in s.done ==> e in t.done + t.batch;
    case RunOne => assert t.done + t.batch == s.done + s.batch;
    case _ =>
  }

  lemma StepOrdered(s: State, step: Step)
    requires Ordered(s) && Enabled(s, step)
    ensures Ordered(Next(s, step))
  {
    match step
    case Tick(d) => LimitRises(s.link, s.now, s.now + d);
    case Send(bytes, sample) => AtLimit(s.link, s.now, bytes, sample);
    case Waste(bytes) => AtLimit(s.link, s.now, bytes, 0);
    case _ =>
  }

  // ---------------------------------------------------------------------------------------
  // Whole runs
  // ---------------------------------------------------------------------------------------

  ghost predicate Run(states: seq<State>, steps: seq<Step>) {
    && |states| == |steps| + 1 && Initial(states[0])
    && forall k :: 0 <= k < |steps| ==>
         Enabled(states[k], steps[k]) && states[k + 1] == Next(states[k], steps[k])
  }

  lemma {:induction false} RunInv(states: seq<State>, steps: seq<Step>, k: nat)
    requires Run(states, steps) && k < |states|
    ensures Timely(states[k]) && Traffic(states[k])
    ensures states[k].link.cfg == states[0].link.cfg
    ensures KeepsOrder(states[0].link.cfg) ==> Ordered(states[k])
  {
    if k > 0 {
      RunInv(states, steps, k - 1);
      StepTimely(states[k - 1], steps[k - 1]);
      StepTraffic(states[k - 1], steps[k - 1]);
      hide Timely, Traffic, Limit;
      if KeepsOrder(states[0].link.cfg) {
        StepOrdered(states[k - 1], steps[k - 1]);
      }
    }
  }

  /** In every run, events run in the order of due time and then of scheduling, never early. */
  lemma RunsInOrder(states: seq<State>, steps: seq<Step>, k: nat)
    requires Run(states, steps) && k < |states|
    ensures Sorted(states[k].done) && AllBefore(states[k].done, states[k].events)
    ensures forall e :: e in states[k].done ==> e.due <= states[k].now
    ensures forall i, j :: 0 <= i < j < |states[k].done| ==>
              var a, b := states[k].done[i], states[k].done[j];
              a.due <= b.due && (a.due == b.due ==> a.seqno < b.seqno)
    ensures forall e, f :: e in states[k].done && f in states[k].events ==>
              e.due <= f.due && (e.due == f.due ==> e.seqno < f.seqno)
  {
    RunInv(states, steps, k);
    var s := states[k];
    assert forall i :: 0 <= i < |s.done| ==> (s.done + s.batch)[i] == s.done[i];
  }

  /** On a link that keeps the order, whatever was sent before something not empty has run before
      it. */
  lemma DeliversInOrder(states: seq<State>, steps: seq<Step>, k: nat, i: nat, j: nat, b: nat) returns (a: nat)
    requires Run(states, steps) && k < |states| && KeepsOrder(states[0].link.cfg)
    requires |states[k].sizes| == |states[k].sent| && i < j < |states[k].sent| && states[k].sizes[j] >= 1
    requires b < |states[k].done| && states[k].done[b] == states[k].sent[j]
    ensures a < b && states[k].done[a] == states[k].sent[i]
  {
    RunInv(states, steps, k);
    var s := states[k];
    var out := s.done + s.batch;
    var early, late := s.sent[i], s.sent[j];
    assert Less(early, late) && out[b] == late;
    assert early !in s.events;
    a :| 0 <= a < |out| && out[a] == early;
    assert a < |s.done| ==> out[a] == s.done[a];
  }
}
