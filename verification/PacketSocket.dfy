/** The packet socket whose fields the deadline steps update in place. */
module PacketSocket {
  import opened PacketDeadline

  class Socket {
    var readDeadline: Option<int>
    var writeDeadline: Option<int>
    var closed: bool
    var ownerClosed: bool
    var ops: seq<Op>
    var timers: seq<Timer>

    /** The socket at a time of the clock. */
    function View(now: int): State
      reads this
    {
      State(now, readDeadline, writeDeadline, closed, ownerClosed, ops, timers)
    }

    constructor ()
      ensures forall now :: Initial(View(now))
    {
      readDeadline, writeDeadline, closed, ownerClosed := None, None, false, false;
      ops, timers := [], [];
    }

    method StopTimerOf(i: nat)
      requires i < |ops|
      modifies `timers
      ensures timers == StopTimer(old(timers), ops[i].timer)
    {
      var timer := ops[i].timer;
      if timer.Some? && timer.value < |timers| && timers[timer.value].status == Pending {
        timers := timers[timer.value := timers[timer.value].(status := Stopped)];
      }
    }

    method ArmLocked(i: nat, now: int)
      requires i < |ops|
      modifies `ops, `timers
      ensures View(now) == Arm(old(View(now)), i)
      ensures |ops| == |old(ops)| && ops == old(ops)[i := ops[i]]
      ensures Decided(old(ops)[i], ops[i], if ops[i].write then writeDeadline else readDeadline, now)
    {
      StopTimerOf(i);
      ops := ops[i := ops[i].(timer := None)];
      var deadline := readDeadline;
      if ops[i].write {
        deadline := writeDeadline;
      }
      if deadline == None || ops[i].cause != Live {
        return;
      }
      if now >= deadline.value {
        ops := ops[i := ops[i].(cause := DeadlineExceeded)];
        return;
      }
      ops := ops[i := ops[i].(timer := Some(|timers|))];
      timers := timers + [Timer(i, deadline.value, Pending)];
    }

    method SetDeadlines(t: Option<int>, read: bool, write: bool, now: int) returns (ok: bool)
      modifies `readDeadline, `writeDeadline, `ops, `timers
      ensures ok <==> !closed && !ownerClosed
      ensures View(now) == Next(old(View(now)), SetDeadline(t, read, write))
      ensures ok ==> readDeadline == if read then t else old(readDeadline)
      ensures ok ==> writeDeadline == if write then t else old(writeDeadline)
      ensures ok ==> SetOn(old(ops), ops, t, read, write, now)
    {
      if closed || ownerClosed {
        return false;
      }
      if read {
        readDeadline := t;
      }
      if write {
        writeDeadline := t;
      }
      ghost var changed := View(now);
      SetDeadlineExactly(old(View(now)), t, read, write);
      hide SetOn;
      for i := 0 to |ops|
        invariant |ops| == |changed.ops| && View(now) == ArmAll(changed, read, write, i)
      {
        if ops[i].registered && (if ops[i].write then write else read) {
          ArmLocked(i, now);
        }
      }
      ok := true;
    }

    method BeginOperation(write: bool, now: int) returns (op: Option<nat>)
      modifies `ops, `timers
      ensures View(now) == Next(old(View(now)), Begin(write))
      ensures op == if closed || ownerClosed then None else Some(|old(ops)|)
      ensures op.Some? ==>
                && |ops| == |old(ops)| + 1 && old(ops) <= ops
                && Decided(Op(write, true, Live, None), ops[|old(ops)|], if write then writeDeadline else readDeadline, now)
    {
      if closed || ownerClosed {
        return None;
      }
      op := Some(|ops|);
      ops := ops + [Op(write, true, Live, None)];
      ArmLocked(|ops| - 1, now);
    }

    /** The locked part of finish. */
    method FinishOperation(i: nat, ghost now: int)
      requires i < |ops| && ops[i].registered
      modifies `ops, `timers
      ensures View(now) == Next(old(View(now)), Unregister(i))
      ensures ops == old(ops)[i := old(ops)[i].(registered := false)]
    {
      StopTimerOf(i);
      ops := ops[i := ops[i].(registered := false)];
    }

    /** The callback of a fired timer, once it has the lock. */
    method TimerCallback(k: nat, now: int)
      requires k < |timers| && timers[k].status == Fired && timers[k].op < |ops|
      modifies `ops, `timers
      ensures View(now) == Next(old(View(now)), Callback(k))
      ensures var i := old(timers)[k].op;
        && |ops| == |old(ops)| && ops == old(ops)[i := ops[i]]
        && if old(ops)[i].registered
           then Decided(old(ops)[i], ops[i], if ops[i].write then writeDeadline else readDeadline, now)
           else ops == old(ops)
    {
      hide Decided;
      var i := timers[k].op;
      timers := timers[k := timers[k].(status := Done)];
      if ops[i].registered {
        ArmLocked(i, now);
      }
    }

    /** The locked part of Close. */
    method CloseLocked(ghost now: int)
      modifies `closed, `ops, `timers
      ensures View(now) == Next(old(View(now)), Close)
      ensures closed && ClosedOn(old(ops), ops, if old(closed) then 0 else |old(ops)|)
    {
      if closed {
        return;
      }
      ghost var before := View(now);
      for i := 0 to |ops|
        invariant |ops| == |before.ops| && View(now) == CloseAll(before, i)
      {
        if ops[i].registered {
          StopTimerOf(i);
          ops := ops[i := Ended(ops[i], SocketClosed)];
        }
      }
      closed := true;
      CloseExactly(before, |before.ops|);
    }
  }
}
