/** A loss-free stream whose segments the scheduler delivers over a link that it shares with any
    other traffic. */
module StreamOverLink {
  import Q = Scheduler
  import L = LinkOrder
  import S = SchedulerRuns
  import T = SimStreamRuns
  import opened SimStream

  /** Segment `i` of the stream is delivered by the event `sched.sent[at[i]]`; the other events of
      the link are those of other streams, connection requests and datagrams. */
  datatype State = State(sched: S.State, stream: T.State, at: seq<nat>)

  datatype Step =
    | Clock(s: S.Step)
    | Local(t: T.Step)
    | Commit(w: nat, sample: int)
    | Deliver(i: nat)

  ghost predicate Initial(s: State) {
    S.Initial(s.sched) && s.stream == T.START && s.at == []
  }

  function Chunk(s: State, w: nat): nat
    requires w < |s.stream.writers| && s.stream.writers[w].phase.Reserved?
  {
    s.stream.writers[w].phase.n
  }

  /** The event is the delivery of segment `i`. */
  ghost predicate Delivers(s: State, e: Q.Event, i: nat) {
    i < |s.at| && s.at[i] < |s.sched.sent| && s.sched.sent[s.at[i]] == e
  }

  /** `Clock` is any step of the scheduler and of the other traffic of the link. */
  ghost predicate Enabled(cfg: Config, s: State, step: Step) {
    match step
    case Clock(t) =>
      && S.Enabled(s.sched, t)
      && (t.RunOne? ==> forall i: nat :: !Delivers(s, s.sched.batch[0], i))
    case Local(t) =>
      && (t.Begin? || t.Reserve? || t.Read? || t.PeerClose?) && T.Enabled(cfg, s.stream, t)
    case Commit(w, sample) =>
      && T.Enabled(cfg, s.stream, T.Commit(w, false))
      && S.Enabled(s.sched, S.Send(Chunk(s, w), sample))
    case Deliver(i) =>
      && s.sched.batch != [] && Delivers(s, s.sched.batch[0], i)
      && T.Enabled(cfg, s.stream, T.Deliver(i, false))
  }

  ghost function Next(cfg: Config, s: State, step: Step): State
    requires Enabled(cfg, s, step)
  {
    match step
    case Clock(t) => s.(sched := S.Next(s.sched, t))
    case Local(t) => s.(stream := T.Next(cfg, s.stream, t))
    case Commit(w, sample) =>
      State(S.Next(s.sched, S.Send(Chunk(s, w), sample)), T.Next(cfg, s.stream, T.Commit(w, false)),
            s.at + [|s.sched.sent|])
    case Deliver(i) => s.(sched := S.Next(s.sched, S.RunOne), stream := T.Next(cfg, s.stream, T.Deliver(i, false)))
  }

  /** The segments are not empty and in the order of the link. */
  ghost predicate Placed(s: State) {
    && |s.at| == |s.stream.log| && |s.sched.sizes| == |s.sched.sent|
    && (forall i :: 0 <= i < |s.at| ==> s.at[i] < |s.sched.sent| && s.sched.sizes[s.at[i]] >= 1)
    && (forall i, j :: 0 <= i < j < |s.at| ==> s.at[i] < s.at[j])
  }

  /** The received segments are those whose event has run, and they are the oldest ones. */
  ghost predicate Tied(s: State) {
    && Placed(s) && T.InOrder(s.stream)
    && (forall i :: 0 <= i < s.stream.rx.recvSeq ==> s.sched.sent[s.at[i]] in s.sched.done)
    && (forall i :: s.stream.rx.recvSeq <= i < |s.at| ==> s.sched.sent[s.at[i]] !in s.sched.done)
  }

  ghost predicate Inv(cfg: Config, s: State) {
    && S.Timely(s.sched) && S.Traffic(s.sched) && S.Ordered(s.sched)
    && T.Inv(cfg, s.stream) && Tied(s)
  }

  lemma SegmentsOrdered(s: State, i: nat, j: nat)
    requires S.Ordered(s.sched) && Placed(s) && i < j < |s.at|
    ensures Q.Less(s.sched.sent[s.at[i]], s.sched.sent[s.at[j]])
  {
    assert s.at[i] < s.at[j] && s.sched.sizes[s.at[j]] >= 1;
  }

  /** The next delivery is always that of the oldest segment on the wire. */
  lemma OldestFirst(cfg: Config, s: State, i: nat)
    requires Inv(cfg, s) && Enabled(cfg, s, Deliver(i))
    ensures i == s.stream.rx.recvSeq && T.Orderly(s.stream, T.Deliver(i, false))
  {
    hide T.Inv, S.Ordered;
    var r, batch, out := s.stream.rx.recvSeq, s.sched.batch, s.sched.done + s.sched.batch;
    assert r <= i && out[|s.sched.done|] == batch[0];
    if r < i {
      SegmentsOrdered(s, r, i);
      assert false;
    }
  }

  lemma DeliverTied(cfg: Config, s: State, i: nat)
    requires Inv(cfg, s) && Enabled(cfg, s, Deliver(i))
    ensures Tied(Next(cfg, s, Deliver(i)))
  {
    hide T.Inv, S.Timely, S.Traffic, S.Ordered;
    OldestFirst(cfg, s, i);
    T.OrderlyKeeps(cfg, s.stream, T.Deliver(i, false));
    var t := Next(cfg, s, Deliver(i));
    assert t.stream.rx.recvSeq == i + 1;
    forall j | i < j < |s.at|
      ensures t.sched.sent[t.at[j]] !in t.sched.done
    {
      SegmentsOrdered(s, i, j);
    }
  }

  /** A new event has not run. */
  lemma LatestNotRun(s: S.State, due: int)
    requires S.Timely(s)
    ensures Q.Event(due, s.seqno + 1) !in s.done
  {
    forall d | 0 <= d < |s.done|
      ensures s.done[d].seqno <= s.seqno
    {
      assert (s.done + s.batch)[d] == s.done[d];
    }
  }

  lemma ChunkNotEmpty(cfg: Config, s: State, w: nat)
    requires T.Inv(cfg, s.stream) && w < |s.stream.writers| && s.stream.writers[w].phase.Reserved?
    ensures Chunk(s, w) >= 1
  {
    assert T.WriterFits(s.stream.writers[w]);
  }

  lemma CommitTied(cfg: Config, s: State, w: nat, sample: int)
    requires Inv(cfg, s) && Enabled(cfg, s, Commit(w, sample))
    ensures Tied(Next(cfg, s, Commit(w, sample)))
  {
    hide T.Inv, S.Timely, S.Traffic, S.Ordered;
    ChunkNotEmpty(cfg, s, w);
    LatestNotRun(s.sched, L.Arrival(s.sched.link, s.sched.now, Chunk(s, w), sample));
    T.OrderlyKeeps(cfg, s.stream, T.Commit(w, false));
    var t := Next(cfg, s, Commit(w, sample));
    assert t.stream.rx.recvSeq == s.stream.rx.recvSeq;
    assert forall i :: 0 <= i < |s.at| ==> t.at[i] == s.at[i] && t.sched.sent[s.at[i]] == s.sched.sent[s.at[i]];
  }

  lemma ClockTied(cfg: Config, s: State, step: S.Step)
    requires Inv(cfg, s) && Enabled(cfg, s, Clock(step))
    ensures Tied(Next(cfg, s, Clock(step)))
  {
    assert s.stream.rx.recvSeq <= |s.at|;
    hide T.InOrder, T.Inv, S.Timely, S.Traffic, S.Ordered;
    var t := Next(cfg, s, Clock(step));
    assert |t.sched.sizes| == |t.sched.sent| >= |s.sched.sent| && t.at == s.at && t.stream == s.stream;
    forall i: nat | i < |s.at|
      ensures t.sched.sizes[s.at[i]] == s.sched.sizes[s.at[i]] && t.sched.sent[s.at[i]] == s.sched.sent[s.at[i]]
      ensures t.sched.sent[s.at[i]] in t.sched.done <==> s.sched.sent[s.at[i]] in s.sched.done
    {
      assert step.RunOne? ==> !Delivers(s, s.sched.batch[0], i);
    }
  }

  lemma SchedKeeps(s: S.State, step: S.Step)
    requires S.Timely(s) && S.Traffic(s) && S.Ordered(s) && S.Enabled(s, step)
    ensures S.Timely(S.Next(s, step)) && S.Traffic(S.Next(s, step)) && S.Ordered(S.Next(s, step))
  {
    hide S.Timely, S.Traffic, S.Ordered;
    S.StepTimely(s, step);
    S.StepTraffic(s, step);
    S.StepOrdered(s, step);
  }

  lemma StepKeeps(cfg: Config, s: State, step: Step)
    requires Inv(cfg, s) && Enabled(cfg, s, step)
    ensures Inv(cfg, Next(cfg, s, step))
  {
    hide T.Inv, S.Timely, S.Traffic, S.Ordered;
    match step
    case Clock(t) =>
      SchedKeeps(s.sched, t);
      ClockTied(cfg, s, t);
    case Local(t) =>
      T.OrderlyKeeps(cfg, s.stream, t);
      T.StepKeeps(cfg, s.stream, t);
    case Commit(w, sample) =>
      SchedKeeps(s.sched, S.Send(Chunk(s, w), sample));
      T.StepKeeps(cfg, s.stream, T.Commit(w, false));
      CommitTied(cfg, s, w, sample);
    case Deliver(i) =>
      SchedKeeps(s.sched, S.RunOne);
      T.StepKeeps(cfg, s.stream, T.Deliver(i, false));
      DeliverTied(cfg, s, i);
  }

  ghost predicate Run(cfg: Config, states: seq<State>, steps: seq<Step>) {
    && |states| == |steps| + 1 && Initial(states[0])
    && forall k :: 0 <= k < |steps| ==>
         Enabled(cfg, states[k], steps[k]) && states[k + 1] == Next(cfg, states[k], steps[k])
  }

  lemma StartInv(cfg: Config, s: State)
    requires Initial(s) && L.KeepsOrder(s.sched.link.cfg)
    ensures Inv(cfg, s)
  {
    T.StartInv(cfg);
    hide T.Inv;
  }

  lemma {:induction false} RunInv(cfg: Config, states: seq<State>, steps: seq<Step>, k: nat)
    requires Run(cfg, states, steps) && k < |states| && L.KeepsOrder(states[0].sched.link.cfg)
    ensures Inv(cfg, states[k])
  {
    hide Inv, Next, Initial, Enabled;
    if k == 0 {
      StartInv(cfg, states[0]);
    } else {
      RunInv(cfg, states, steps, k - 1);
      StepKeeps(cfg, states[k - 1], steps[k - 1]);
    }
  }

  /** Over a link that keeps the order, whatever else it carries, a loss-free stream never holds a
      segment back: its reorder buffer stays empty and nothing is lost. */
  lemma NeverReorders(cfg: Config, states: seq<State>, steps: seq<Step>, k: nat)
    requires Run(cfg, states, steps) && k < |states| && L.KeepsOrder(states[0].sched.link.cfg)
    ensures states[k].stream.rx.pending == map[] && states[k].stream.lost == {}
  {
    RunInv(cfg, states, steps, k);
  }
}
