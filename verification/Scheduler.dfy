/** The simulator's event queue: events leave it by due time and then by number. */
module Scheduler {

  datatype Event = Event(due: int, seqno: nat)

  predicate Less(a: Event, b: Event) {
    if a.due == b.due then a.seqno < b.seqno else a.due < b.due
  }

  ghost predicate Sorted(s: seq<Event>) {
    forall i, j :: 0 <= i < j < |s| ==> Less(s[i], s[j])
  }

  ghost predicate Unique(events: set<Event>) {
    forall a, b :: a in events && b in events && a.seqno == b.seqno ==> a == b
  }

  ghost predicate AllBefore(s: seq<Event>, events: set<Event>) {
    forall i, e :: 0 <= i < |s| && e in events ==> Less(s[i], e)
  }

  lemma Inhabited(events: set<Event>)
    requires events != {}
    ensures exists e: Event :: e in events
  {
    assert (forall e: Event :: e !in events) ==> events == {};
  }

  lemma {:induction false} HasFirst(events: set<Event>) returns (first: Event)
    requires events != {} && Unique(events)
    ensures first in events && forall e :: e in events && e != first ==> Less(first, e)
    decreases |events|
  {
    Inhabited(events);
    var x: Event :| x in events;
    var rest := events - {x};
    assert forall e :: e in events ==> e == x || e in rest;
    if rest == {} {
      first := x;
    } else {
      var y := HasFirst(rest);
      first := if Less(x, y) then x else y;
    }
  }

  /** What is due, in order, and what stays. */
  ghost predicate Popped(before: set<Event>, now: int, ready: seq<Event>, after: set<Event>) {
    && Sorted(ready)
    && after <= before
    && (forall e :: e in before ==> (e in after <==> e.due > now))
    && (forall e :: e in ready <==> e in before && e.due <= now)
  }

  class Queue {
    var seqno: nat
    var events: set<Event>

    ghost predicate Valid()
      reads this
    {
      Unique(events) && forall e :: e in events ==> e.seqno <= seqno
    }

    constructor ()
      ensures Valid() && events == {} && seqno == 0
    {
      seqno, events := 0, {};
    }

    method Schedule(due: int)
      requires Valid()
      modifies this
      ensures Valid() && seqno == old(seqno) + 1
      ensures events == old(events) + {Event(due, seqno)} && Event(due, seqno) !in old(events)
    {
      seqno := seqno + 1;
      events := events + {Event(due, seqno)};
    }

    /** heap.Pop: the least event. */
    method PopMin() returns (e: Event)
      requires Valid() && events != {}
      modifies `events
      ensures Valid() && e in old(events) && events == old(events) - {e}
      ensures forall f :: f in events ==> Less(e, f)
      ensures forall f :: f in events ==> e.due <= f.due && (e.due == f.due ==> e.seqno < f.seqno)
    {
      ghost var first := HasFirst(events);
      e :| e in events && forall f :: f in events && f != e ==> Less(e, f);
      events := events - {e};
    }

    /** The due part of a scheduler step. */
    method PopReady(now: int) returns (ready: seq<Event>)
      requires Valid()
      modifies `events
      ensures Valid() && Popped(old(events), now, ready, events)
      ensures forall i, j :: 0 <= i < j < |ready| ==>
                ready[i].due <= ready[j].due && (ready[i].due == ready[j].due ==> ready[i].seqno < ready[j].seqno)
    {
      ready := [];
      while exists e | e in events :: e.due <= now
        invariant Valid() && events <= old(events)
        invariant Sorted(ready) && AllBefore(ready, events)
        invariant forall e :: e in ready <==> e in old(events) && e !in events
        invariant forall e :: e in ready ==> e.due <= now
        decreases events
      {
        ghost var due: Event :| due in events && due.due <= now;
        var e := PopMin();
        assert due == e || due in events;
        ready := ready + [e];
      }
    }
  }
}
