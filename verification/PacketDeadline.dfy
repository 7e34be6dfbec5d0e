/** Deadlines of packet socket operations: timers that fire late, early or after a change. */
module PacketDeadline {

  datatype Option<T> = None | Some(value: T)

  /** Why an operation's context ended. */
  datatype Cause = Live | DeadlineExceeded | SocketClosed | OwnerClosed | Finished

  datatype Op = Op(write: bool, registered: bool, cause: Cause, timer: Option<nat>)

  /** `Fired`: the runtime has started the callback, which waits for the socket's lock. */
  datatype Status = Pending | Fired | Stopped | Done

  datatype Timer = Timer(op: nat, fireAt: int, status: Status)

  datatype State = State(
    now: int, readDeadline: Option<int>, writeDeadline: Option<int>, closed: bool, ownerClosed: bool,
    ops: seq<Op>, timers: seq<Timer>)

  datatype Step =
    | Tick(d: nat)
    | SetDeadline(t: Option<int>, read: bool, write: bool)
    | Begin(write: bool)
    | Unregister(i: nat)
    | EndContext(i: nat)
    | Fire(k: nat)
    | Callback(k: nat)
    | Close
    | OwnerClose

  predicate Initial(s: State) {
    s.readDeadline == None && s.writeDeadline == None && !s.closed && !s.ownerClosed && s.ops == [] && s.timers == []
  }

  function Deadline(s: State, write: bool): Option<int> {
    if write then s.writeDeadline else s.readDeadline
  }

  /** The first cause wins. */
  function Ended(op: Op, cause: Cause): Op {
    if op.cause == Live then op.(cause := cause) else op
  }

  /** Stopping a timer has no effect once it has fired. */
  function StopTimer(timers: seq<Timer>, timer: Option<nat>): seq<Timer> {
    if timer.Some? && timer.value < |timers| && timers[timer.value].status == Pending
    then timers[timer.value := timers[timer.value].(status := Stopped)]
    else timers
  }

  /** armLocked: drop the old timer, then cancel at once or set a new timer, by the deadline in
      force. */
  function Arm(s: State, i: nat): State
    requires i < |s.ops|
  {
    var op := s.ops[i].(timer := None);
    var timers := StopTimer(s.timers, s.ops[i].timer);
    var deadline := Deadline(s, op.write);
    if deadline == None || op.cause != Live then s.(ops := s.ops[i := op], timers := timers)
    else if s.now >= deadline.value then s.(ops := s.ops[i := op.(cause := DeadlineExceeded)], timers := timers)
    else
      s.(ops := s.ops[i := op.(timer := Some(|timers|))],
         timers := timers + [Timer(i, deadline.value, Pending)])
  }

  /** Arms the first `n` registered operations of the given directions. */
  function ArmAll(s: State, read: bool, write: bool, n: nat): (t: State)
    requires n <= |s.ops|
    ensures |t.ops| == |s.ops|
  {
    if n == 0 then s
    else
      var t := ArmAll(s, read, write, n - 1);
      var op := t.ops[n - 1];
      if op.registered && (if op.write then write else read) then Arm(t, n - 1) else t
  }

  /** Close cancels every registered operation and stops its timer. */
  function CloseAll(s: State, n: nat): (t: State)
    requires n <= |s.ops|
    ensures |t.ops| == |s.ops|
  {
    if n == 0 then s
    else
      var t := CloseAll(s, n - 1);
      var op := t.ops[n - 1];
      if op.registered then
        t.(ops := t.ops[n - 1 := Ended(op, SocketClosed)], timers := StopTimer(t.timers, op.timer))
      else t
  }

  predicate Enabled(s: State, step: Step) {
    match step
    case Unregister(i) => i < |s.ops| && s.ops[i].registered
    case EndContext(i) => i < |s.ops| && !s.ops[i].registered
    case Fire(k) => k < |s.timers| && s.timers[k].status == Pending && s.timers[k].fireAt <= s.now
    case Callback(k) => k < |s.timers| && s.timers[k].status == Fired && s.timers[k].op < |s.ops|
    case _ => true
  }

  function Next(s: State, step: Step): State
    requires Enabled(s, step)
  {
    match step
    case Tick(d) => s.(now := s.now + d)
    case SetDeadline(t, read, write) =>
      if s.closed || s.ownerClosed then s
      else
        var changed := s.(readDeadline := if read then t else s.readDeadline,
                          writeDeadline := if write then t else s.writeDeadline);
        ArmAll(changed, read, write, |s.ops|)
    case Begin(write) =>
      if s.closed || s.ownerClosed then s
      else Arm(s.(ops := s.ops + [Op(write, true, Live, None)]), |s.ops|)
    case Unregister(i) =>
      s.(ops := s.ops[i := s.ops[i].(registered := false)], timers := StopTimer(s.timers, s.ops[i].timer))
    case EndContext(i) => s.(ops := s.ops[i := Ended(s.ops[i], Finished)])
    case Fire(k) => s.(timers := s.timers[k := s.timers[k].(status := Fired)])
    case Callback(k) =>
      var t := s.(timers := s.timers[k := s.timers[k].(status := Done)]);
      if s.ops[s.timers[k].op].registered then Arm(t, s.timers[k].op) else t
    case Close => if s.closed then s else CloseAll(s, |s.ops|).(closed := true)
    case OwnerClose => s.(ownerClosed := true, ops := seq(|s.ops|, i requires 0 <= i < |s.ops| => Ended(s.ops[i], OwnerClosed)))
  }

  // ---------------------------------------------------------------------------------------
  // What a step does to each operation, in any state
  // ---------------------------------------------------------------------------------------

  /** How arming leaves an operation whose deadline in force is `deadline`: one that was live has
      ended if and only if the deadline is over, and otherwise has a timer if there is a deadline. */
  ghost predicate Decided(op: Op, after: Op, deadline: Option<int>, now: int) {
    var over := deadline.Some? && deadline.value <= now;
    && after.write == op.write && after.registered == op.registered
    && after.cause == (if op.cause == Live && over then DeadlineExceeded else op.cause)
    && (after.timer.Some? <==> op.cause == Live && deadline.Some? && !over)
  }

  /** Only the armed operation changes, by the deadline of its own direction. */
  lemma ArmExactly(s: State, i: nat)
    requires i < |s.ops|
    ensures var t := Arm(s, i);
      && |t.ops| == |s.ops| && t == s.(ops := t.ops, timers := t.timers)
      && Decided(s.ops[i], t.ops[i], if s.ops[i].write then s.writeDeadline else s.readDeadline, s.now)
      && forall j :: 0 <= j < |s.ops| && j != i ==> t.ops[j] == s.ops[j]
  {}

  /** The first `n` operations after a change of the deadlines of some directions. */
  ghost predicate Reset(s: State, t: State, read: bool, write: bool, n: nat)
    requires n <= |s.ops| == |t.ops|
  {
    && (forall i :: 0 <= i < n && s.ops[i].registered && (if s.ops[i].write then write else read) ==>
          Decided(s.ops[i], t.ops[i], if s.ops[i].write then s.writeDeadline else s.readDeadline, s.now))
    && (forall i :: 0 <= i < |s.ops| && (n <= i || !s.ops[i].registered || !(if s.ops[i].write then write else read)) ==>
          t.ops[i] == s.ops[i])
  }

  lemma {:induction false} ArmAllExactly(s: State, read: bool, write: bool, n: nat)
    requires n <= |s.ops|
    ensures var t := ArmAll(s, read, write, n);
      t == s.(ops := t.ops, timers := t.timers) && Reset(s, t, read, write, n)
  {
    if n > 0 {
      var t := ArmAll(s, read, write, n - 1);
      ArmAllExactly(s, read, write, n - 1);
      ArmExactly(t, n - 1);
      hide Arm, Decided;
      ResetOneMore(s, t, Arm(t, n - 1), read, write, n - 1);
    }
  }

  lemma ResetOneMore(s: State, t: State, u: State, read: bool, write: bool, n: nat)
    requires n < |s.ops| == |t.ops| == |u.ops| && Reset(s, t, read, write, n)
    requires Decided(t.ops[n], u.ops[n], if t.ops[n].write then s.writeDeadline else s.readDeadline, s.now)
    requires forall j :: 0 <= j < |t.ops| && j != n ==> u.ops[j] == t.ops[j]
    ensures Reset(s, if s.ops[n].registered && (if s.ops[n].write then write else read) then u else t, read, write, n + 1)
  {
    hide Decided;
  }

  /** Setting deadlines: the chosen directions get the new one and the others keep theirs; a live
      registered operation of a chosen direction has ended if and only if the new deadline is over;
      every other operation is as it was. */
  lemma SetDeadlineExactly(s: State, t: Option<int>, read: bool, write: bool)
    requires !s.closed && !s.ownerClosed
    ensures var after := Next(s, SetDeadline(t, read, write));
      && after.readDeadline == (if read then t else s.readDeadline)
      && after.writeDeadline == (if write then t else s.writeDeadline)
      && SetOn(s.ops, after.ops, t, read, write, s.now)
  {
    var changed := s.(readDeadline := if read then t else s.readDeadline,
                      writeDeadline := if write then t else s.writeDeadline);
    ArmAllExactly(changed, read, write, |s.ops|);
    hide ArmAll, Decided;
  }

  ghost predicate SetOn(ops: seq<Op>, after: seq<Op>, t: Option<int>, read: bool, write: bool, now: int) {
    && |after| == |ops|
    && forall i :: 0 <= i < |ops| ==>
         if ops[i].registered && ((read && !ops[i].write) || (write && ops[i].write))
         then Decided(ops[i], after[i], t, now)
         else after[i] == ops[i]
  }

  /** A new operation is registered, and ends at once exactly if its direction's deadline is over. */
  lemma BeginExactly(s: State, write: bool)
    requires !s.closed && !s.ownerClosed
    ensures var after := Next(s, Begin(write)).ops;
      && |after| == |s.ops| + 1 && s.ops <= after
      && Decided(Op(write, true, Live, None), after[|s.ops|], if write then s.writeDeadline else s.readDeadline, s.now)
  {
    ArmExactly(s.(ops := s.ops + [Op(write, true, Live, None)]), |s.ops|);
    hide Arm, Decided;
  }

  /** Closing ends exactly the live registered operations. */
  ghost predicate ClosedOn(ops: seq<Op>, after: seq<Op>, n: nat) {
    && |after| == |ops|
    && forall i :: 0 <= i < |ops| ==>
         after[i] == if i < n && ops[i].registered && ops[i].cause == Live then ops[i].(cause := SocketClosed) else ops[i]
  }

  lemma {:induction false} CloseExactly(s: State, n: nat)
    requires n <= |s.ops|
    ensures ClosedOn(s.ops, CloseAll(s, n).ops, n)
  {
    if n > 0 {
      CloseExactly(s, n - 1);
      hide StopTimer;
    }
  }

  // ---------------------------------------------------------------------------------------
  // What every run keeps
  // ---------------------------------------------------------------------------------------

  /** A timer that runs, or whose callback waits, for this deadline. */
  ghost predicate Watched(timers: seq<Timer>, timer: Option<nat>, i: nat, deadline: int) {
    && timer.Some? && timer.value < |timers|
    && timers[timer.value].op == i && timers[timer.value].fireAt == deadline
    && (timers[timer.value].status == Pending || timers[timer.value].status == Fired)
  }

  /** A live operation with a deadline is watched for exactly that deadline. */
  ghost predicate Guarded(s: State, i: nat)
    requires i < |s.ops|
  {
    var op := s.ops[i];
    op.registered && op.cause == Live ==>
      && !s.closed && !s.ownerClosed
      && match Deadline(s, op.write)
         case None => op.timer == None
         case Some(d) => Watched(s.timers, op.timer, i, d)
  }

  ghost predicate OwnTimer(s: State, i: nat)
    requires i < |s.ops|
  {
    s.ops[i].timer.Some? ==> s.ops[i].timer.value < |s.timers| && s.timers[s.ops[i].timer.value].op == i
  }

  /** A pending timer is the current timer of a registered operation; a fired one is due. */
  ghost predicate TimerFine(s: State, k: nat)
    requires k < |s.timers|
  {
    var timer := s.timers[k];
    && timer.op < |s.ops|
    && (timer.status == Pending ==> s.ops[timer.op].registered && s.ops[timer.op].timer == Some(k))
    && (timer.status == Fired ==> timer.fireAt <= s.now)
  }

  ghost predicate Shape(s: State) {
    && (forall i: nat :: i < |s.ops| ==> OwnTimer(s, i))
    && (forall k: nat :: k < |s.timers| ==> TimerFine(s, k))
  }

  ghost predicate Inv(s: State) {
    Shape(s) && forall i: nat :: i < |s.ops| ==> Guarded(s, i)
  }

  /** Stopping an operation's timer leaves no timer pending for it. */
  lemma StopFine(s: State, i: nat, k: nat)
    requires Shape(s) && i < |s.ops| && k < |s.timers|
    ensures var t := StopTimer(s.timers, s.ops[i].timer);
            && |t| == |s.timers| && t[k].op == s.timers[k].op && t[k].fireAt == s.timers[k].fireAt
            && (t[k].status == s.timers[k].status || t[k].status == Stopped)
            && (t[k].status == Pending ==> t[k].op != i)
            && (t[k].op != i ==> t[k] == s.timers[k])
  {
    assert TimerFine(s, k) && OwnTimer(s, i);
  }

  lemma ArmShape(s: State, i: nat)
    requires Shape(s) && i < |s.ops| && s.ops[i].registered
    ensures Shape(Arm(s, i))
  {
    var t := Arm(s, i);
    forall k: nat | k < |t.timers|
      ensures TimerFine(t, k)
    {
      if k < |s.timers| {
        StopFine(s, i, k);
        hide StopTimer, Shape;
        assert TimerFine(s, k);
      }
    }
    forall j: nat | j < |t.ops|
      ensures OwnTimer(t, j)
    {
      assert OwnTimer(s, j);
    }
  }

  /** A live operation whose deadline is over. */
  ghost predicate Passed(s: State, i: nat)
    requires i < |s.ops|
  {
    && s.ops[i].cause == Live
    && Deadline(s, s.ops[i].write).Some? && Deadline(s, s.ops[i].write).value <= s.now
  }

  /** Arming decides by the deadline in force and nothing else. */
  lemma ArmGuards(s: State, i: nat)
    requires Shape(s) && i < |s.ops| && !s.closed && !s.ownerClosed
    ensures Guarded(Arm(s, i), i)
    ensures !Passed(s, i) ==> Arm(s, i).ops[i].cause == s.ops[i].cause
    ensures Arm(s, i).ops[i].write == s.ops[i].write && Arm(s, i).ops[i].registered == s.ops[i].registered
    ensures Arm(s, i) == s.(ops := Arm(s, i).ops, timers := Arm(s, i).timers)
    ensures Passed(s, i) ==> Arm(s, i).ops[i].cause == DeadlineExceeded
  {}

  lemma ArmOthers(s: State, i: nat, j: nat)
    requires Shape(s) && i < |s.ops| && j < |s.ops| && i != j
    ensures Arm(s, i).ops[j] == s.ops[j]
    ensures Guarded(s, j) ==> Guarded(Arm(s, i), j)
  {
    assert OwnTimer(s, i) && OwnTimer(s, j);
  }

  /** The operations before `n` are guarded; the others are as they were. */
  lemma {:induction false} ArmAllGuards(s: State, read: bool, write: bool, n: nat)
    requires Shape(s) && n <= |s.ops| && !s.closed && !s.ownerClosed
    requires forall i: nat :: i < |s.ops| ==> Guarded(s, i) || (if s.ops[i].write then write else read)
    ensures var t := ArmAll(s, read, write, n);
            && Shape(t) && t == s.(ops := t.ops, timers := t.timers)
            && (forall i: nat :: i < n ==> Guarded(t, i) && Rearmed(s, t, i))
            && (forall i: nat :: n <= i < |s.ops| ==> t.ops[i] == s.ops[i] && (Guarded(s, i) ==> Guarded(t, i)))
  {
    if n > 0 {
      ArmAllGuards(s, read, write, n - 1);
      var t := ArmAll(s, read, write, n - 1);
      var op := t.ops[n - 1];
      assert op == s.ops[n - 1] && (Guarded(s, n - 1) ==> Guarded(t, n - 1));
      assert !op.registered ==> Guarded(t, n - 1);
      hide Arm, Shape, Guarded;
      if op.registered && (if op.write then write else read) {
        ArmShape(t, n - 1);
        ArmGuards(t, n - 1);
        ArmOneMore(s, t, n - 1);
      } else {
        assert Guarded(t, n - 1) && Rearmed(s, t, n - 1);
      }
    }
  }

  lemma ArmOneMore(s: State, t: State, n: nat)
    requires Shape(t) && |s.ops| == |t.ops| && n < |s.ops| && t == s.(ops := t.ops, timers := t.timers)
    requires !s.closed && !s.ownerClosed && t.ops[n] == s.ops[n] && s.ops[n].registered
    requires forall i: nat :: i < n ==> Guarded(t, i) && Rearmed(s, t, i)
    requires forall i: nat :: n < i < |s.ops| ==> t.ops[i] == s.ops[i] && (Guarded(s, i) ==> Guarded(t, i))
    ensures var u := Arm(t, n);
            && (forall i: nat :: i < n + 1 ==> Guarded(u, i) && Rearmed(s, u, i))
            && (forall i: nat :: n < i < |s.ops| ==> u.ops[i] == s.ops[i] && (Guarded(s, i) ==> Guarded(u, i)))
  {
    ArmGuards(t, n);
    hide Arm, Shape;
    var u := Arm(t, n);
    forall i: nat | i < |s.ops| && i != n
      ensures u.ops[i] == t.ops[i] && (Guarded(t, i) ==> Guarded(u, i))
    {
      ArmOthers(t, n, i);
    }
    hide Guarded;
    assert Rearmed(s, u, n);
    forall i: nat | i < n
      ensures Rearmed(s, u, i)
    {
      assert Rearmed(s, t, i);
    }
  }

  /** An operation is cancelled only because the deadline in force has passed. */
  ghost predicate Rearmed(s: State, t: State, i: nat)
    requires i < |s.ops| && i < |t.ops|
  {
    var op, after := s.ops[i], t.ops[i];
    && after.write == op.write && after.registered == op.registered
    && (after.cause == op.cause
        || (op.cause == Live && op.registered && after.cause == DeadlineExceeded
            && Deadline(t, op.write).Some? && Deadline(t, op.write).value <= t.now))
  }

  // ---------------------------------------------------------------------------------------
  // Steps
  // ---------------------------------------------------------------------------------------

  lemma ShapeKept(s: State, t: State)
    requires Shape(s) && s.ops <= t.ops && s.timers == t.timers && s.now <= t.now
    requires forall i: nat :: |s.ops| <= i < |t.ops| ==> t.ops[i].timer == None
    ensures Shape(t)
  {
    forall k: nat | k < |t.timers|
      ensures TimerFine(t, k)
    {
      assert TimerFine(s, k);
    }
    forall i: nat | i < |t.ops|
      ensures OwnTimer(t, i)
    {
      assert i < |s.ops| ==> OwnTimer(s, i);
    }
  }

  lemma SetDeadlineKeeps(s: State, t: Option<int>, read: bool, write: bool)
    requires Inv(s)
    ensures Inv(Next(s, SetDeadline(t, read, write)))
    ensures forall i: nat :: i < |s.ops| ==> Rearmed(s, Next(s, SetDeadline(t, read, write)), i)
    ensures !s.closed && !s.ownerClosed ==>
              SetOn(s.ops, Next(s, SetDeadline(t, read, write)).ops, t, read, write, s.now)
  {
    if !s.closed && !s.ownerClosed {
      SetDeadlineExactly(s, t, read, write);
    }
    hide SetOn;
    if !s.closed && !s.ownerClosed {
      var changed := s.(readDeadline := if read then t else s.readDeadline,
                        writeDeadline := if write then t else s.writeDeadline);
      ShapeKept(s, changed);
      forall i: nat | i < |s.ops|
        ensures Guarded(changed, i) || (if s.ops[i].write then write else read)
      {
        assert Guarded(s, i);
      }
      ArmAllGuards(changed, read, write, |s.ops|);
      hide ArmAll;
      forall i: nat | i < |s.ops|
        ensures Rearmed(s, ArmAll(changed, read, write, |s.ops|), i)
      {
        assert Rearmed(changed, ArmAll(changed, read, write, |s.ops|), i);
      }
    }
  }

  lemma BeginKeeps(s: State, write: bool)
    requires Inv(s)
    ensures Inv(Next(s, Begin(write)))
    ensures forall i: nat :: i < |s.ops| ==> Next(s, Begin(write)).ops[i] == s.ops[i]
  {
    if !s.closed && !s.ownerClosed {
      var added := s.(ops := s.ops + [Op(write, true, Live, None)]);
      ShapeKept(s, added);
      forall i: nat | i < |s.ops|
        ensures Guarded(added, i)
      {
        assert Guarded(s, i);
      }
      ArmOneKeeps(added, |s.ops|);
    }
  }

  lemma ArmOneKeeps(s: State, i: nat)
    requires Shape(s) && i < |s.ops| && s.ops[i].registered && !s.closed && !s.ownerClosed
    requires forall j: nat :: j < |s.ops| && j != i ==> Guarded(s, j)
    ensures Inv(Arm(s, i))
    ensures forall j: nat :: j < |s.ops| && j != i ==> Arm(s, i).ops[j] == s.ops[j]
  {
    ArmShape(s, i);
    ArmGuards(s, i);
    hide Arm, Shape;
    forall j: nat | j < |s.ops| && j != i
      ensures Arm(s, i).ops[j] == s.ops[j] && Guarded(Arm(s, i), j)
    {
      ArmOthers(s, i, j);
    }
  }

  /** Ending or unregistering operations needs no new timers. */
  lemma StoppedKeeps(s: State, t: State, i: nat)
    requires Inv(s) && i < |s.ops| == |t.ops|
    requires t == s.(ops := t.ops, timers := t.timers) && t.ops == s.ops[i := t.ops[i]]
    requires t.timers == StopTimer(s.timers, s.ops[i].timer)
    requires t.ops[i].timer == s.ops[i].timer && (t.ops[i].registered ==> t.ops[i].cause != Live)
    ensures Inv(t)
  {
    forall k: nat | k < |t.timers|
      ensures TimerFine(t, k)
    {
      StopFine(s, i, k);
      assert TimerFine(s, k);
    }
    hide StopTimer;
    forall j: nat | j < |t.ops|
      ensures OwnTimer(t, j) && Guarded(t, j)
    {
      assert OwnTimer(s, j) && Guarded(s, j);
      if s.ops[j].timer.Some? {
        StopFine(s, i, s.ops[j].timer.value);
      }
    }
  }

  lemma FireKeeps(s: State, k: nat)
    requires Inv(s) && Enabled(s, Fire(k))
    ensures Inv(Next(s, Fire(k)))
  {
    var t := Next(s, Fire(k));
    forall m: nat | m < |t.timers|
      ensures TimerFine(t, m)
    {
      assert TimerFine(s, m);
    }
    forall i: nat | i < |t.ops|
      ensures OwnTimer(t, i) && Guarded(t, i)
    {
      assert OwnTimer(s, i) && Guarded(s, i);
    }
  }

  /** A callback looks at the deadline in force, not at the one its timer was set for. */
  lemma CallbackKeeps(s: State, k: nat)
    requires Inv(s) && Enabled(s, Callback(k))
    ensures Inv(Next(s, Callback(k)))
    ensures forall i: nat :: i < |s.ops| ==> Rearmed(s, Next(s, Callback(k)), i)
    ensures Passed(s, s.timers[k].op) && s.ops[s.timers[k].op].registered ==>
              Next(s, Callback(k)).ops[s.timers[k].op].cause == DeadlineExceeded
  {
    var i := s.timers[k].op;
    var ran := s.(timers := s.timers[k := s.timers[k].(status := Done)]);
    RanFine(s, k);
    if s.ops[i].registered {
      assert Guarded(s, i);
      if s.closed || s.ownerClosed {
        ArmEnded(ran, i);
      } else {
        ArmOneKeeps(ran, i);
        ArmGuards(ran, i);
      }
    }
  }

  lemma RanFine(s: State, k: nat)
    requires Inv(s) && Enabled(s, Callback(k))
    ensures var ran := s.(timers := s.timers[k := s.timers[k].(status := Done)]);
            Shape(ran) && forall j: nat :: j < |s.ops| && (j != s.timers[k].op || !s.ops[j].registered) ==> Guarded(ran, j)
  {
    var ran := s.(timers := s.timers[k := s.timers[k].(status := Done)]);
    forall m: nat | m < |s.timers|
      ensures TimerFine(ran, m)
    {
      assert TimerFine(s, m);
    }
    forall j: nat | j < |s.ops|
      ensures OwnTimer(ran, j)
      ensures j != s.timers[k].op || !s.ops[j].registered ==> Guarded(ran, j)
    {
      assert OwnTimer(s, j) && Guarded(s, j);
    }
  }

  lemma ArmEnded(s: State, i: nat)
    requires Shape(s) && i < |s.ops| && s.ops[i].registered && s.ops[i].cause != Live
    requires forall j: nat :: j < |s.ops| && j != i ==> Guarded(s, j)
    ensures Inv(Arm(s, i))
    ensures forall j: nat :: j < |s.ops| ==> Rearmed(s, Arm(s, i), j)
  {
    ArmShape(s, i);
    var t := Arm(s, i);
    assert t.ops[i].cause == s.ops[i].cause;
    forall j: nat | j < |s.ops| && j != i
      ensures t.ops[j] == s.ops[j] && Guarded(t, j)
    {
      ArmOthers(s, i, j);
    }
  }

  /** Stopping an operation's timer leaves pending only timers of others, that were pending. */
  lemma StoppedPending(s: State, i: nat, k: nat)
    requires Shape(s) && i < |s.ops| && k < |StopTimer(s.timers, s.ops[i].timer)|
    requires StopTimer(s.timers, s.ops[i].timer)[k].status == Pending
    ensures k < |s.timers| && s.timers[k].status == Pending && s.timers[k].op != i
    ensures StopTimer(s.timers, s.ops[i].timer)[k].op == s.timers[k].op
  {
    StopFine(s, i, k);
  }

  lemma {:induction false} CloseAllKeeps(s: State, n: nat)
    requires Inv(s) && n <= |s.ops|
    ensures var t := CloseAll(s, n);
            && Inv(t) && t == s.(ops := t.ops, timers := t.timers)
            && (forall i: nat :: i < n ==> !(t.ops[i].registered && t.ops[i].cause == Live))
            && (forall i: nat :: i < |s.ops| ==> t.ops[i] == s.ops[i] || t.ops[i] == Ended(s.ops[i], SocketClosed))
            && (forall i: nat :: n <= i < |s.ops| ==> t.ops[i] == s.ops[i])
            && (forall k: nat :: k < |t.timers| && t.timers[k].status == Pending ==> t.timers[k].op >= n)
  {
    if n > 0 {
      CloseAllKeeps(s, n - 1);
      var before, after := CloseAll(s, n - 1), CloseAll(s, n);
      hide StopTimer;
      if before.ops[n - 1].registered {
        StoppedKeeps(before, after, n - 1);
        forall k: nat | k < |after.timers| && after.timers[k].status == Pending
          ensures after.timers[k].op >= n
        {
          StoppedPending(before, n - 1, k);
        }
      } else {
        forall k: nat | k < |after.timers| && after.timers[k].status == Pending
          ensures after.timers[k].op >= n
        {
          assert TimerFine(before, k);
        }
      }
    }
  }

  lemma CloseKeeps(s: State)
    requires Inv(s)
    ensures Inv(Next(s, Close))
    ensures forall i: nat :: i < |s.ops| ==> |Next(s, Close).ops| == |s.ops| && Justified(s, Next(s, Close), i)
    ensures !s.closed ==> forall i: nat :: i < |s.ops| && s.ops[i].registered ==> Next(s, Close).ops[i].cause != Live
    ensures !s.closed ==> forall k: nat :: k < |Next(s, Close).timers| ==> Next(s, Close).timers[k].status != Pending
  {
    if !s.closed {
      CloseAllKeeps(s, |s.ops|);
      hide CloseAll;
      var all := CloseAll(s, |s.ops|);
      var t := all.(closed := true);
      ShapeKept(all, t);
      forall k: nat | k < |t.timers|
        ensures t.timers[k].status != Pending
      {
        assert TimerFine(t, k);
      }
    }
  }

  lemma OwnerCloseKeeps(s: State)
    requires Inv(s)
    ensures Inv(Next(s, OwnerClose))
  {
    var t := Next(s, OwnerClose);
    forall k: nat | k < |t.timers|
      ensures TimerFine(t, k)
    {
      assert TimerFine(s, k);
    }
    forall i: nat | i < |t.ops|
      ensures OwnTimer(t, i) && Guarded(t, i)
    {
      assert OwnTimer(s, i);
    }
  }

  lemma EndContextKeeps(s: State, i: nat)
    requires Inv(s) && Enabled(s, EndContext(i))
    ensures Inv(Next(s, EndContext(i)))
  {
    var t := Next(s, EndContext(i));
    forall k: nat | k < |t.timers|
      ensures TimerFine(t, k)
    {
      assert TimerFine(s, k);
    }
    forall j: nat | j < |t.ops|
      ensures OwnTimer(t, j) && Guarded(t, j)
    {
      assert OwnTimer(s, j) && Guarded(s, j);
    }
  }

  lemma TickKeeps(s: State, d: nat)
    requires Inv(s)
    ensures Inv(Next(s, Tick(d)))
  {
    var t := Next(s, Tick(d));
    ShapeKept(s, t);
    assert forall i: nat :: i < |t.ops| ==> Guarded(s, i) == Guarded(t, i);
  }

  /** What a step may do to an operation: an ended one stays as it ended, and it ends by deadline
      only while registered and with the deadline in force over. */
  ghost predicate Justified(s: State, t: State, i: nat)
    requires i < |s.ops| && i < |t.ops|
  {
    var op, after := s.ops[i], t.ops[i];
    && after.write == op.write
    && (op.cause != Live ==> after.cause == op.cause)
    && (op.cause == Live && after.cause == DeadlineExceeded ==>
          op.registered && Deadline(t, op.write).Some? && Deadline(t, op.write).value <= t.now)
  }

  lemma StepKeeps(s: State, step: Step)
    requires Inv(s) && Enabled(s, step)
    ensures Inv(Next(s, step))
  {
    match step
    case Tick(d) => TickKeeps(s, d);
    case SetDeadline(t, read, write) => SetDeadlineKeeps(s, t, read, write);
    case Begin(write) => BeginKeeps(s, write);
    case Unregister(i) => StoppedKeeps(s, Next(s, step), i);
    case EndContext(i) => EndContextKeeps(s, i);
    case Fire(k) => FireKeeps(s, k);
    case Callback(k) => CallbackKeeps(s, k);
    case Close => CloseKeeps(s);
    case OwnerClose => OwnerCloseKeeps(s);
  }

  /** No step ends an operation by deadline unless the deadline in force is over: a timer set for
      an earlier deadline never does. */
  lemma StepJustified(s: State, step: Step, i: nat)
    requires Inv(s) && Enabled(s, step) && i < |s.ops|
    ensures |s.ops| <= |Next(s, step).ops| && Justified(s, Next(s, step), i)
  {
    hide Inv, ArmAll, CloseAll, StopTimer;
    match step
    case SetDeadline(t, read, write) =>
      SetDeadlineKeeps(s, t, read, write);
      assert Rearmed(s, Next(s, step), i);
    case Begin(write) => BeginKeeps(s, write);
    case Callback(k) => CallbackKeeps(s, k);
    case Close => CloseKeeps(s);
    case _ =>
  }

  /** A new operation ends at once only if the deadline of its direction is over. */
  lemma BeginJustified(s: State, write: bool)
    requires Inv(s) && |Next(s, Begin(write)).ops| > |s.ops|
    ensures var op := Next(s, Begin(write)).ops[|s.ops|];
            && op.registered && op.write == write
            && (op.cause != Live ==>
                  op.cause == DeadlineExceeded && Deadline(s, write).Some? && Deadline(s, write).value <= s.now)
  {
    hide Inv;
  }

  // ---------------------------------------------------------------------------------------
  // Whole runs
  // ---------------------------------------------------------------------------------------

  ghost predicate Run(states: seq<State>, steps: seq<Step>) {
    && |states| == |steps| + 1 && Initial(states[0])
    && forall k :: 0 <= k < |steps| ==>
         Enabled(states[k], steps[k]) && states[k + 1] == Next(states[k], steps[k])
  }

  lemma {:induction false} RunInv(states: seq<State>, steps: seq<Step>, k: nat)
    requires Run(states, steps) && k < |states|
    ensures Inv(states[k])
  {
    if k > 0 {
      RunInv(states, steps, k - 1);
      hide Inv, Next, Initial;
      StepKeeps(states[k - 1], steps[k - 1]);
    }
  }

  /** An operation that ended by deadline did so at a time when the deadline then in force for
      its direction was over. */
  lemma {:induction false} EndedByDeadline(states: seq<State>, steps: seq<Step>, k: nat, i: nat) returns (m: nat)
    requires Run(states, steps) && k < |states| && i < |states[k].ops|
    requires states[k].ops[i].cause == DeadlineExceeded
    ensures m <= k && i < |states[m].ops| && states[m].ops[i].cause == DeadlineExceeded
    ensures states[m].ops[i].write == states[k].ops[i].write
    ensures var d := Deadline(states[m], states[m].ops[i].write); d.Some? && d.value <= states[m].now
  {
    var was, now := states[k - 1], states[k];
    RunInv(states, steps, k - 1);
    hide Inv;
    assert now == Next(was, steps[k - 1]);
    if i < |was.ops| {
      StepJustified(was, steps[k - 1], i);
      hide Next;
      if was.ops[i].cause == DeadlineExceeded {
        m := EndedByDeadline(states, steps, k - 1, i);
      } else {
        m := k;
      }
    } else {
      NewOperation(was, steps[k - 1], i);
      BeginJustified(was, now.ops[i].write);
      m := k;
    }
  }

  lemma NewOperation(s: State, step: Step, i: nat)
    requires Inv(s) && Enabled(s, step) && |s.ops| <= i < |Next(s, step).ops|
    ensures i == |s.ops| && step == Begin(Next(s, step).ops[i].write)
    ensures Deadline(Next(s, step), Next(s, step).ops[i].write) == Deadline(s, Next(s, step).ops[i].write)
    ensures Next(s, step).now == s.now
  {
    if step == Close {
      CloseKeeps(s);
    }
  }

  /** No deadline is missed: once the deadline of a live operation is over, its timer fires, and
      the callback ends the operation. */
  lemma DeadlineEnforced(states: seq<State>, steps: seq<Step>, k: nat, i: nat)
    requires Run(states, steps) && k < |states| && i < |states[k].ops|
    requires states[k].ops[i].registered && Passed(states[k], i)
    ensures var s := states[k];
            && s.ops[i].timer.Some?
            && var timer := s.ops[i].timer.value;
               && (Enabled(s, Fire(timer)) || Enabled(s, Callback(timer)))
               && var fired := if Enabled(s, Fire(timer)) then Next(s, Fire(timer)) else s;
                  && Enabled(fired, Callback(timer))
                  && Next(fired, Callback(timer)).ops[i].cause == DeadlineExceeded
  {
    RunInv(states, steps, k);
    var s := states[k];
    assert Guarded(s, i);
    var timer := s.ops[i].timer.value;
    assert TimerFine(s, timer);
    var fired := if Enabled(s, Fire(timer)) then Next(s, Fire(timer)) else s;
    if Enabled(s, Fire(timer)) {
      FireKeeps(s, timer);
    }
    CallbackKeeps(fired, timer);
  }

  /** Once every operation is unregistered no timer is pending. */
  lemma NoTimerLeft(states: seq<State>, steps: seq<Step>, k: nat, timer: nat)
    requires Run(states, steps) && k < |states| && timer < |states[k].timers|
    requires forall i :: 0 <= i < |states[k].ops| ==> !states[k].ops[i].registered
    ensures states[k].timers[timer].status != Pending
  {
    RunInv(states, steps, k);
    assert TimerFine(states[k], timer);
  }
}
