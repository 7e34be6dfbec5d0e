/** Runs of one direction of a simulated stream with any number of concurrent writers. */
module SimStreamRuns {
  import opened SimStream

  /** A segment with its sequence number as position in the log. */
  datatype Segment = Segment(owner: nat, data: Bytes)

  /** Where a writer is in its loop: between chunks, with room reserved for one, or with a
      dropped one whose room is not given back yet. */
  datatype Phase = Ready | Reserved(n: nat) | Dropped(n: nat)

  datatype Writer = Writer(buf: Bytes, written: nat, phase: Phase)

  datatype State = State(
    rx: Rx, log: seq<Segment>, wire: set<nat>, lost: set<nat>, writers: seq<Writer>, read: Bytes,
    closed: bool, reset: bool, peerDone: bool)

  datatype Step =
    | Begin(buf: Bytes)
    | Reserve(w: nat)
    | Commit(w: nat, dropped: bool)
    | Release(w: nat)
    | Deliver(i: nat, down: bool)
    | Read(max: nat)
    | Close
    | Abort
    | PeerClose

  const START: State := State(Rx([], 0, map[], 0, 0, 0), [], {}, {}, [], [], false, false, false)

  predicate Enabled(cfg: Config, s: State, step: Step) {
    match step
    case Reserve(w) =>
      && w < |s.writers| && s.writers[w].phase.Ready?
      && s.writers[w].written < |s.writers[w].buf| && Space(s.rx, cfg) > 0
    case Commit(w, _) =>
      && w < |s.writers| && s.writers[w].phase.Reserved?
      && s.writers[w].written + s.writers[w].phase.n <= |s.writers[w].buf|
    case Release(w) => w < |s.writers| && s.writers[w].phase.Dropped?
    case Deliver(i, _) => i in s.wire && i < |s.log|
    case Read(_) => s.rx.recv != []
    case _ => true
  }

  /** The room a write reserves: the free space, the rest of its data or a whole segment. */
  function Room(cfg: Config, s: State, w: Writer): int {
    Min(Min(Space(s.rx, cfg), |w.buf| - w.written), MAX_SEGMENT)
  }

  /** A segment that arrives and is thrown away. */
  predicate Discarded(cfg: Config, s: State, i: nat, down: bool) {
    || s.closed || s.reset || down || i < s.rx.recvSeq || i in s.rx.pending
    || (i > s.rx.recvSeq && i >= s.rx.recvSeq + cfg.window)
  }

  function Next(cfg: Config, s: State, step: Step): State
    requires Enabled(cfg, s, step)
  {
    match step
    case Begin(buf) => s.(writers := s.writers + [Writer(buf, 0, Ready)])
    case Reserve(w) =>
      var n := Room(cfg, s, s.writers[w]);
      s.(rx := s.rx.(inflight := s.rx.inflight + n),
         writers := s.writers[w := s.writers[w].(phase := Reserved(n))])
    case Commit(w, dropped) =>
      var was := s.writers[w];
      var upto := was.written + was.phase.n;
      var chunk := was.buf[was.written..upto];
      s.(log := s.log + [Segment(w, chunk)],
         wire := if dropped then s.wire else s.wire + {|s.log|},
         lost := if dropped then s.lost + {|s.log|} else s.lost,
         writers := s.writers[w := Writer(was.buf, upto, if dropped then Dropped(was.phase.n) else Ready)])
    case Release(w) =>
      s.(rx := s.rx.(inflight := s.rx.inflight - s.writers[w].phase.n),
         writers := s.writers[w := s.writers[w].(phase := Ready)])
    case Deliver(i, down) =>
      s.(rx := Arrived(s.rx, cfg, i, s.log[i].data, s.closed || s.reset, down),
         wire := s.wire - {i},
         lost := if Discarded(cfg, s, i, down) then s.lost + {i} else s.lost)
    case Read(max) => s.(rx := AfterRead(s.rx, max), read := s.read + Taken(s.rx, max))
    case Close => s.(closed := true)
    case Abort => s.(reset := true)
    case PeerClose => s.(peerDone := true)
  }

  // ---------------------------------------------------------------------------------------
  // Sums and concatenations
  // ---------------------------------------------------------------------------------------

  /** The bytes of the segments below `n` that are among the keys. */
  function Sum(log: seq<Segment>, keys: set<nat>, n: nat): nat
    requires n <= |log|
  {
    if n == 0 then 0
    else Sum(log, keys, n - 1) + if n - 1 in keys then |log[n - 1].data| else 0
  }

  lemma {:induction false} SumTake(log: seq<Segment>, keys: set<nat>, i: nat, n: nat)
    requires n <= |log| && i in keys
    ensures Sum(log, keys - {i}, n) == Sum(log, keys, n) - if i < n then |log[i].data| else 0
  {
    if n > 0 {
      SumTake(log, keys, i, n - 1);
    }
  }

  lemma {:induction false} SumExtend(log: seq<Segment>, seg: Segment, keys: set<nat>, n: nat)
    requires n <= |log|
    ensures Sum(log + [seg], keys, n) == Sum(log, keys, n)
  {
    if n > 0 {
      SumExtend(log, seg, keys, n - 1);
    }
  }

  lemma {:induction false} SumBeyond(log: seq<Segment>, keys: set<nat>, i: nat, n: nat)
    requires n <= |log| && n <= i
    ensures Sum(log, keys + {i}, n) == Sum(log, keys, n)
  {
    if n > 0 {
      SumBeyond(log, keys, i, n - 1);
    }
  }

  lemma {:induction false} SumPositive(log: seq<Segment>, keys: set<nat>, i: nat, n: nat)
    requires i < n <= |log| && i in keys && |log[i].data| > 0
    ensures Sum(log, keys, n) > 0
  {
    if i < n - 1 {
      SumPositive(log, keys, i, n - 1);
    }
  }

  function Claimed(p: Phase): nat {
    match p
    case Ready => 0
    case Reserved(n) => n
    case Dropped(n) => n
  }

  /** The room the writers hold. */
  function Holds(writers: seq<Writer>): nat {
    if writers == [] then 0
    else Holds(writers[..|writers| - 1]) + Claimed(writers[|writers| - 1].phase)
  }

  lemma {:induction false} HoldsChange(writers: seq<Writer>, w: nat, writer: Writer)
    requires w < |writers|
    ensures Holds(writers[w := writer]) == Holds(writers) - Claimed(writers[w].phase) + Claimed(writer.phase)
    ensures Claimed(writers[w].phase) <= Holds(writers)
  {
    var last := |writers| - 1;
    var changed := writers[w := writer];
    if w == last {
      assert changed[..last] == writers[..last];
    } else {
      HoldsChange(writers[..last], w, writer);
      assert changed[..last] == writers[..last][w := writer];
    }
  }

  function Total(chunks: seq<Bytes>): nat {
    if chunks == [] then 0 else Total(chunks[..|chunks| - 1]) + |chunks[|chunks| - 1]|
  }

  function Join(chunks: seq<Bytes>): Bytes {
    if chunks == [] then [] else Join(chunks[..|chunks| - 1]) + chunks[|chunks| - 1]
  }

  lemma JoinAppend(chunks: seq<Bytes>, c: Bytes)
    ensures Join(chunks + [c]) == Join(chunks) + c && Total(chunks + [c]) == Total(chunks) + |c|
  {
    assert (chunks + [c])[..|chunks|] == chunks;
  }

  lemma {:induction false} JoinFront(c: Bytes, chunks: seq<Bytes>)
    ensures Join([c] + chunks) == c + Join(chunks) && Total([c] + chunks) == |c| + Total(chunks)
  {
    if chunks == [] {
      JoinAppend([], c);
      assert [c] + chunks == [] + [c];
    } else {
      var rest, last := chunks[..|chunks| - 1], chunks[|chunks| - 1];
      JoinFront(c, rest);
      JoinAppend([c] + rest, last);
      JoinAppend(rest, last);
      assert [c] + chunks == ([c] + rest) + [last];
      assert chunks == rest + [last];
    }
  }

  /** The bytes of the first `n` segments. */
  function Flat(log: seq<Segment>, n: nat): Bytes
    requires n <= |log|
  {
    if n == 0 then [] else Flat(log, n - 1) + log[n - 1].data
  }

  lemma {:induction false} FlatExtend(log: seq<Segment>, seg: Segment, n: nat)
    requires n <= |log|
    ensures Flat(log + [seg], n) == Flat(log, n)
  {
    if n > 0 {
      FlatExtend(log, seg, n - 1);
    }
  }

  lemma {:induction false} FlatGrows(log: seq<Segment>, m: nat, n: nat)
    requires m <= n <= |log|
    ensures Flat(log, m) <= Flat(log, n)
    ensures m < n && (forall i :: 0 <= i < |log| ==> |log[i].data| > 0) ==> |Flat(log, m)| < |Flat(log, n)|
  {
    if m < n {
      FlatGrows(log, m, n - 1);
    }
  }

  /** The bytes of one writer's segments. */
  function Owned(log: seq<Segment>, w: nat): Bytes {
    if log == [] then []
    else
      var last := log[|log| - 1];
      Owned(log[..|log| - 1], w) + if last.owner == w then last.data else []
  }

  lemma OwnedExtend(log: seq<Segment>, seg: Segment, w: nat)
    ensures Owned(log + [seg], w) == Owned(log, w) + if seg.owner == w then seg.data else []
  {
    assert (log + [seg])[..|log|] == log;
  }

  lemma {:induction false} OwnedByNobody(log: seq<Segment>, w: nat)
    requires forall i :: 0 <= i < |log| ==> log[i].owner < w
    ensures Owned(log, w) == []
  {
    if log != [] {
      OwnedByNobody(log[..|log| - 1], w);
    }
  }

  // ---------------------------------------------------------------------------------------
  // What every run keeps
  // ---------------------------------------------------------------------------------------

  /** Every segment from `recvSeq` on is in exactly one place: on the wire, in the reorder
      buffer, or lost; and nothing below it is anywhere. */
  ghost predicate Placed(rx: Rx, n: nat, wire: set<nat>, lost: set<nat>) {
    && rx.recvSeq <= n
    && (forall i :: rx.recvSeq <= i < n <==> i in wire || i in rx.pending || i in lost)
    && wire !! rx.pending.Keys && wire !! lost && lost !! rx.pending.Keys
  }

  /** The reader has, and can read, exactly the first `recvSeq` segments. */
  ghost predicate Assembled(rx: Rx, log: seq<Segment>, read: Bytes) {
    && rx.recvSeq <= |log|
    && read + Join(rx.recv) == Flat(log, rx.recvSeq)
    && rx.recvBytes == Total(rx.recv)
    && (forall i :: i in rx.pending && i < |log| ==> rx.pending[i] == log[i].data)
    && rx.pendingLen == Sum(log, rx.pending.Keys, |log|)
  }

  /** A writer's segments are what it has written of its data, in order. */
  ghost predicate Conserved(log: seq<Segment>, writers: seq<Writer>) {
    && (forall i :: 0 <= i < |log| ==> log[i].owner < |writers| && |log[i].data| > 0)
    && (forall w :: 0 <= w < |writers| ==> WriterFits(writers[w]) && Owned(log, w) == writers[w].buf[..writers[w].written])
  }

  ghost predicate WriterFits(w: Writer) {
    && w.written <= |w.buf|
    && (w.phase.Reserved? ==> 0 < w.phase.n && w.written + w.phase.n <= |w.buf|)
    && (w.phase.Dropped? ==> 0 < w.phase.n)
  }

  /** The reorder buffer holds nothing at or beyond the window. */
  ghost predicate Windowed(cfg: Config, rx: Rx) {
    forall i :: i in rx.pending ==> i < rx.recvSeq + cfg.window
  }

  ghost predicate Inv(cfg: Config, s: State) {
    && Placed(s.rx, |s.log|, s.wire, s.lost)
    && Assembled(s.rx, s.log, s.read)
    && Conserved(s.log, s.writers)
    && s.rx.recvSeq !in s.rx.pending && Windowed(cfg, s.rx)
    && s.rx.inflight == Sum(s.log, s.wire, |s.log|) + Holds(s.writers)
    && s.rx.recvBytes + s.rx.pendingLen + s.rx.inflight <= cfg.buffer
  }

  lemma StartInv(cfg: Config)
    ensures Inv(cfg, START)
  {}

  lemma BeginKeeps(cfg: Config, s: State, buf: Bytes)
    requires Inv(cfg, s)
    ensures Inv(cfg, Next(cfg, s, Begin(buf)))
  {
    hide Placed, Assembled;
    OwnedByNobody(s.log, |s.writers|);
    var t := Next(cfg, s, Begin(buf));
    assert t.writers[..|s.writers|] == s.writers;
  }

  lemma ReserveKeeps(cfg: Config, s: State, w: nat)
    requires Inv(cfg, s) && Enabled(cfg, s, Reserve(w))
    ensures Inv(cfg, Next(cfg, s, Reserve(w)))
  {
    var n := Room(cfg, s, s.writers[w]);
    HoldsChange(s.writers, w, s.writers[w].(phase := Reserved(n)));
  }

  /** A reservation takes all the room it can use. */
  lemma ReserveFills(cfg: Config, s: State, w: nat)
    requires Inv(cfg, s) && Enabled(cfg, s, Reserve(w))
    ensures var t := Next(cfg, s, Reserve(w));
      && t.writers[w].phase.Reserved? && 0 < t.writers[w].phase.n <= MAX_SEGMENT
      && t.writers[w].phase.n == Space(s.rx, cfg) - Space(t.rx, cfg)
      && s.writers[w].written + t.writers[w].phase.n <= |s.writers[w].buf| && Space(t.rx, cfg) >= 0
      && (|| s.writers[w].written + t.writers[w].phase.n == |s.writers[w].buf|
          || t.writers[w].phase.n == MAX_SEGMENT || Space(t.rx, cfg) == 0)
  {
    hide Placed, Assembled, Conserved, Sum, Holds;
  }

  lemma ReleaseKeeps(cfg: Config, s: State, w: nat)
    requires Inv(cfg, s) && Enabled(cfg, s, Release(w))
    ensures Inv(cfg, Next(cfg, s, Release(w)))
  {
    HoldsChange(s.writers, w, s.writers[w].(phase := Ready));
  }

  lemma SplitFront(first: Bytes, n: nat, rest: Bytes)
    requires n <= |first|
    ensures first[..n] + (first[n..] + rest) == first + rest
    ensures n == |first| ==> first[..n] == first
  {}

  /** A read moves bytes from the front of the readable ones. */
  lemma ReadMoves(rx: Rx, max: nat)
    requires rx.recv != []
    ensures Taken(rx, max) + Join(AfterRead(rx, max).recv) == Join(rx.recv)
    ensures |Taken(rx, max)| + Total(AfterRead(rx, max).recv) == Total(rx.recv)
  {
    hide Join, Total;
    var first, rest := rx.recv[0], rx.recv[1..];
    var n := Min(max, |first|);
    assert rx.recv == [first] + rest;
    JoinFront(first, rest);
    JoinFront(first[n..], rest);
    SplitFront(first, n, Join(rest));
  }

  lemma Regroup(a: Bytes, b: Bytes, c: Bytes)
    ensures (a + b) + c == a + (b + c)
  {}

  lemma ReadAssembled(rx: Rx, log: seq<Segment>, read: Bytes, max: nat)
    requires Assembled(rx, log, read) && rx.recv != []
    ensures Assembled(AfterRead(rx, max), log, read + Taken(rx, max))
  {
    ReadMoves(rx, max);
    hide Join, Total, Flat, Sum;
    Regroup(read, Taken(rx, max), Join(AfterRead(rx, max).recv));
  }

  /** A read touches nothing but the readable bytes. */
  lemma ReadTouches(rx: Rx, max: nat)
    requires rx.recv != []
    ensures var after := AfterRead(rx, max);
      after == rx.(recv := after.recv, recvBytes := after.recvBytes) && after.recvBytes <= rx.recvBytes
  {}

  lemma ReadKeeps(cfg: Config, s: State, max: nat)
    requires Inv(cfg, s) && Enabled(cfg, s, Read(max))
    ensures Inv(cfg, Next(cfg, s, Read(max)))
  {
    ReadAssembled(s.rx, s.log, s.read, max);
    ReadTouches(s.rx, max);
    hide AfterRead, Taken, Assembled, Sum, Conserved, Holds;
  }

  // ---------------------------------------------------------------------------------------
  // Sending
  // ---------------------------------------------------------------------------------------

  lemma CommitConserves(log: seq<Segment>, writers: seq<Writer>, w: nat, phase: Phase)
    requires Conserved(log, writers) && w < |writers| && writers[w].phase.Reserved?
    requires phase == Ready || phase == Dropped(writers[w].phase.n)
    ensures var was := writers[w];
            var upto := was.written + was.phase.n;
            Conserved(log + [Segment(w, was.buf[was.written..upto])], writers[w := Writer(was.buf, upto, phase)])
  {
    var was := writers[w];
    var upto := was.written + was.phase.n;
    var seg := Segment(w, was.buf[was.written..upto]);
    var after := writers[w := Writer(was.buf, upto, phase)];
    assert was.buf[..upto] == was.buf[..was.written] + seg.data;
    forall v: nat | v < |writers|
      ensures WriterFits(after[v]) && Owned(log + [seg], v) == after[v].buf[..after[v].written]
    {
      OwnedExtend(log, seg, v);
    }
  }

  lemma ExtendAssembled(rx: Rx, log: seq<Segment>, seg: Segment, read: Bytes)
    requires Assembled(rx, log, read) && (forall i :: i in rx.pending ==> i < |log|)
    ensures Assembled(rx, log + [seg], read)
  {
    hide Join, Total;
    FlatExtend(log, seg, rx.recvSeq);
    SumExtend(log, seg, rx.pending.Keys, |log|);
  }

  lemma ExtendWire(log: seq<Segment>, seg: Segment, wire: set<nat>)
    requires forall i :: i in wire ==> i < |log|
    ensures Sum(log + [seg], wire, |log| + 1) == Sum(log, wire, |log|)
    ensures Sum(log + [seg], wire + {|log|}, |log| + 1) == Sum(log, wire, |log|) + |seg.data|
  {
    SumExtend(log, seg, wire, |log|);
    SumBeyond(log + [seg], wire, |log|, |log|);
  }

  lemma CommitKeeps(cfg: Config, s: State, w: nat, dropped: bool)
    requires Inv(cfg, s) && Enabled(cfg, s, Commit(w, dropped))
    ensures Inv(cfg, Next(cfg, s, Commit(w, dropped)))
  {
    hide Join, Total, Flat, Sum, Holds, Owned, Assembled, Conserved;
    var was, t := s.writers[w], Next(cfg, s, Commit(w, dropped));
    CommitConserves(s.log, s.writers, w, t.writers[w].phase);
    HoldsChange(s.writers, w, t.writers[w]);
    var seg := t.log[|s.log|];
    ExtendAssembled(s.rx, s.log, seg, s.read);
    ExtendWire(s.log, seg, s.wire);
  }

  // ---------------------------------------------------------------------------------------
  // Arriving
  // ---------------------------------------------------------------------------------------

  /** Draining keeps the bytes, and stops before the first hole. */
  lemma {:induction false} DrainKeeps(rx: Rx, log: seq<Segment>, wire: set<nat>, lost: set<nat>, read: Bytes)
    requires Placed(rx, |log|, wire, lost) && Assembled(rx, log, read)
    ensures Placed(Drain(rx), |log|, wire, lost) && Assembled(Drain(rx), log, read)
    ensures Drain(rx).recvSeq !in Drain(rx).pending && Drain(rx).inflight == rx.inflight
    ensures Drain(rx).recvBytes + Drain(rx).pendingLen == rx.recvBytes + rx.pendingLen
    ensures Drain(rx).recvSeq >= rx.recvSeq && Drain(rx).pending.Keys <= rx.pending.Keys
    decreases rx.pending.Keys
  {
    hide Join, Total, Flat, Sum;
    if rx.recvSeq in rx.pending {
      var next := rx.pending[rx.recvSeq];
      var after := Rx(rx.recv + [next], rx.recvBytes + |next|, rx.pending - {rx.recvSeq},
                      rx.pendingLen - |next|, rx.recvSeq + 1, rx.inflight);
      OneInOrder(rx, log, wire, lost, read);
      hide Placed, Assembled;
      assert Drain(rx) == Drain(after);
      hide Drain;
      DrainKeeps(after, log, wire, lost, read);
    }
  }

  lemma AppendNext(rx: Rx, log: seq<Segment>, read: Bytes)
    requires Assembled(rx, log, read) && rx.recvSeq < |log|
    ensures var data := log[rx.recvSeq].data;
            read + Join(rx.recv + [data]) == Flat(log, rx.recvSeq + 1)
            && Total(rx.recv + [data]) == rx.recvBytes + |data|
  {
    var data := log[rx.recvSeq].data;
    JoinAppend(rx.recv, data);
    assert Flat(log, rx.recvSeq + 1) == Flat(log, rx.recvSeq) + data;
    hide Join, Total, Sum, Flat;
    assert read + (Join(rx.recv) + data) == (read + Join(rx.recv)) + data;
  }

  lemma OneInOrder(rx: Rx, log: seq<Segment>, wire: set<nat>, lost: set<nat>, read: Bytes)
    requires Placed(rx, |log|, wire, lost) && Assembled(rx, log, read) && rx.recvSeq in rx.pending
    ensures
      var next := rx.pending[rx.recvSeq];
      var after := Rx(rx.recv + [next], rx.recvBytes + |next|, rx.pending - {rx.recvSeq},
                      rx.pendingLen - |next|, rx.recvSeq + 1, rx.inflight);
      Placed(after, |log|, wire, lost) && Assembled(after, log, read)
  {
    hide Join, Total, Sum, Flat;
    AppendNext(rx, log, read);
    SumTake(log, rx.pending.Keys, rx.recvSeq, |log|);
    var pending := rx.pending - {rx.recvSeq};
    assert pending.Keys == rx.pending.Keys - {rx.recvSeq};
  }

  /** A segment on its way has a number the receiver has not passed and does not hold: a duplicate
      never arrives. */
  lemma NeverDuplicate(cfg: Config, s: State, i: nat)
    requires Inv(cfg, s) && i in s.wire
    ensures s.rx.recvSeq <= i < |s.log| && i !in s.rx.pending && |s.log[i].data| > 0
  {}

  /** What is thrown away on arrival, and where everything else goes. */
  lemma ArrivalExactly(cfg: Config, s: State, i: nat, down: bool)
    requires Inv(cfg, s) && Enabled(cfg, s, Deliver(i, down))
    ensures var t := Next(cfg, s, Deliver(i, down));
            var kept := !s.closed && !s.reset && !down && (i == s.rx.recvSeq || i < s.rx.recvSeq + cfg.window);
            && (kept ==> t.lost == s.lost && (i < t.rx.recvSeq || i in t.rx.pending))
            && (!kept ==> t.lost == s.lost + {i} && t.rx == s.rx.(inflight := s.rx.inflight - |s.log[i].data|))
            && (i != s.rx.recvSeq ==> t.rx.recvSeq == s.rx.recvSeq)
  {
    NeverDuplicate(cfg, s, i);
    if i == s.rx.recvSeq && !Discarded(cfg, s, i, down) {
      InOrderKeeps(cfg, s, i);
    }
  }

  lemma LostKeeps(cfg: Config, s: State, i: nat, down: bool)
    requires Inv(cfg, s) && Enabled(cfg, s, Deliver(i, down)) && Discarded(cfg, s, i, down)
    ensures Inv(cfg, Next(cfg, s, Deliver(i, down)))
  {
    hide Join, Total, Flat, Sum, Holds, Conserved;
    NeverDuplicate(cfg, s, i);
    SumTake(s.log, s.wire, i, |s.log|);
    var t := Next(cfg, s, Deliver(i, down));
    assert t.rx == s.rx.(inflight := s.rx.inflight - |s.log[i].data|);
  }

  lemma HeldKeeps(cfg: Config, s: State, i: nat)
    requires Inv(cfg, s) && Enabled(cfg, s, Deliver(i, false)) && !Discarded(cfg, s, i, false)
    requires i != s.rx.recvSeq
    ensures Inv(cfg, Next(cfg, s, Deliver(i, false)))
  {
    hide Join, Total, Flat, Sum, Holds, Conserved;
    NeverDuplicate(cfg, s, i);
    SumTake(s.log, s.wire, i, |s.log|);
    var keys := s.rx.pending.Keys;
    SumTake(s.log, keys + {i}, i, |s.log|);
    assert (keys + {i}) - {i} == keys;
    var t := Next(cfg, s, Deliver(i, false));
    assert t.rx.pending.Keys == keys + {i};
  }

  lemma InOrderKeeps(cfg: Config, s: State, i: nat)
    requires Inv(cfg, s) && Enabled(cfg, s, Deliver(i, false)) && !Discarded(cfg, s, i, false)
    requires i == s.rx.recvSeq
    ensures Inv(cfg, Next(cfg, s, Deliver(i, false)))
  {
    hide Holds, Conserved, Drain, Join, Total, Sum, Flat;
    var data := s.log[i].data;
    var landed := Rx(s.rx.recv + [data], s.rx.recvBytes + |data|, s.rx.pending, s.rx.pendingLen,
                     s.rx.recvSeq + 1, s.rx.inflight - |data|);
    SumTake(s.log, s.wire, i, |s.log|);
    AppendNext(s.rx, s.log, s.read);
    assert Assembled(landed, s.log, s.read) && Placed(landed, |s.log|, s.wire - {i}, s.lost);
    DrainKeeps(landed, s.log, s.wire - {i}, s.lost, s.read);
  }

  /** Every step of every writer, of the network and of the reader keeps the invariant. */
  lemma StepKeeps(cfg: Config, s: State, step: Step)
    requires Inv(cfg, s) && Enabled(cfg, s, step)
    ensures Inv(cfg, Next(cfg, s, step))
  {
    match step
    case Begin(buf) => BeginKeeps(cfg, s, buf);
    case Reserve(w) => ReserveKeeps(cfg, s, w);
    case Commit(w, dropped) => CommitKeeps(cfg, s, w, dropped);
    case Release(w) => ReleaseKeeps(cfg, s, w);
    case Deliver(i, down) =>
      if Discarded(cfg, s, i, down) {
        LostKeeps(cfg, s, i, down);
      } else if i == s.rx.recvSeq {
        InOrderKeeps(cfg, s, i);
      } else {
        HeldKeeps(cfg, s, i);
      }
    case Read(max) => ReadKeeps(cfg, s, max);
    case Close =>
    case Abort =>
    case PeerClose =>
  }

  // ---------------------------------------------------------------------------------------
  // Whole runs
  // ---------------------------------------------------------------------------------------

  ghost predicate Run(cfg: Config, states: seq<State>, steps: seq<Step>) {
    && |states| == |steps| + 1 && states[0] == START
    && forall k :: 0 <= k < |steps| ==>
         Enabled(cfg, states[k], steps[k]) && states[k + 1] == Next(cfg, states[k], steps[k])
  }

  lemma {:induction false} RunInv(cfg: Config, states: seq<State>, steps: seq<Step>, k: nat)
    requires Run(cfg, states, steps) && k < |states|
    ensures Inv(cfg, states[k])
  {
    if k == 0 {
      StartInv(cfg);
    } else {
      RunInv(cfg, states, steps, k - 1);
      hide Inv, Next;
      StepKeeps(cfg, states[k - 1], steps[k - 1]);
    }
  }

  /** At any time in any run: the reader has a prefix of the sent segments; each writer's part of
      them is the start of its data, in order; and the buffered and travelling bytes fit the
      receive buffer. */
  lemma StreamSafety(cfg: Config, states: seq<State>, steps: seq<Step>, k: nat)
    requires Run(cfg, states, steps) && k < |states|
    ensures var s := states[k];
            && s.read <= Flat(s.log, |s.log|)
            && (forall w :: 0 <= w < |s.writers| ==>
                  s.writers[w].written <= |s.writers[w].buf|
                  && Owned(s.log, w) == s.writers[w].buf[..s.writers[w].written])
            && s.rx.recvBytes + s.rx.pendingLen + s.rx.inflight <= cfg.buffer
            && s.rx.recvBytes >= 0 && s.rx.pendingLen >= 0 && s.rx.inflight >= 0
            && (forall i :: i in s.rx.pending ==> s.rx.recvSeq < i < s.rx.recvSeq + cfg.window)
  {
    RunInv(cfg, states, steps, k);
    var s := states[k];
    FlatGrows(s.log, s.rx.recvSeq, |s.log|);
  }

  /** What a reader has when it is told that the stream ended: everything that was sent, exactly
      when nothing was lost; otherwise everything before the first lost segment. No segment is
      still travelling, and no writer holds room for one. */
  lemma EndOfStreamExactly(cfg: Config, states: seq<State>, steps: seq<Step>, k: nat)
    requires Run(cfg, states, steps) && k < |states|
    requires states[k].rx.recv == [] && states[k].rx.inflight == 0
    ensures var s := states[k];
            && s.wire == {}
            && (forall w :: 0 <= w < |s.writers| ==> s.writers[w].phase.Ready?)
            && (s.read == Flat(s.log, |s.log|) <==> s.lost == {})
            && (s.lost != {} ==>
                  s.rx.recvSeq in s.lost && (forall i :: i in s.lost ==> s.rx.recvSeq <= i < |s.log|)
                  && s.read == Flat(s.log, s.rx.recvSeq))
  {
    RunInv(cfg, states, steps, k);
    var s := states[k];
    Idle(s);
    assert s.read == Flat(s.log, s.rx.recvSeq);
    FlatGrows(s.log, s.rx.recvSeq, |s.log|);
    hide Flat;
    assert s.rx.recvSeq < |s.log| ==> s.rx.recvSeq in s.lost;
    assert s.rx.recvSeq == |s.log| ==> s.lost == {};
  }

  lemma Idle(s: State)
    requires Placed(s.rx, |s.log|, s.wire, s.lost) && Conserved(s.log, s.writers)
    requires Sum(s.log, s.wire, |s.log|) + Holds(s.writers) == 0
    ensures s.wire == {}
    ensures forall w :: 0 <= w < |s.writers| ==> s.writers[w].phase.Ready?
  {
    forall i: nat
      ensures i !in s.wire
    {
      if i in s.wire {
        SumPositive(s.log, s.wire, i, |s.log|);
      }
    }
    forall w: nat | w < |s.writers|
      ensures s.writers[w].phase.Ready?
    {
      HoldsChange(s.writers, w, s.writers[w]);
      assert WriterFits(s.writers[w]);
    }
  }

  lemma LostStays(cfg: Config, s: State, step: Step)
    requires Enabled(cfg, s, step)
    ensures s.lost <= Next(cfg, s, step).lost
  {}

  /** A lost segment is a hole for good: nothing from it on is ever read or readable. */
  lemma {:induction false} HoleForever(cfg: Config, states: seq<State>, steps: seq<Step>, j: nat, k: nat, i: nat)
    requires Run(cfg, states, steps) && j <= k < |states| && i in states[j].lost
    ensures i in states[k].lost && i < |states[k].log|
    ensures states[k].read + Join(states[k].rx.recv) <= Flat(states[k].log, i)
    decreases k - j
  {
    hide Next, Inv, Flat, Join;
    RunInv(cfg, states, steps, k);
    if j < k {
      HoleForever(cfg, states, steps, j, k - 1, i);
      LostStays(cfg, states[k - 1], steps[k - 1]);
    }
    ReadBeforeHole(cfg, states[k], i);
  }

  lemma ReadBeforeHole(cfg: Config, s: State, i: nat)
    requires Inv(cfg, s) && i in s.lost
    ensures i < |s.log| && s.read + Join(s.rx.recv) <= Flat(s.log, i)
  {
    FlatGrows(s.log, s.rx.recvSeq, i);
  }

  // ---------------------------------------------------------------------------------------
  // Every step of a writer, of the network or of the reader is progress
  // ---------------------------------------------------------------------------------------

  /** No readable segment is empty. */
  ghost predicate Filled(chunks: seq<Bytes>) {
    forall i :: 0 <= i < |chunks| ==> |chunks[i]| > 0
  }

  lemma {:induction false} DrainFilled(rx: Rx)
    requires Filled(rx.recv) && forall i :: i in rx.pending ==> |rx.pending[i]| > 0
    ensures Filled(Drain(rx).recv)
    ensures Drain(rx).recvBytes + Drain(rx).pendingLen == rx.recvBytes + rx.pendingLen
    decreases rx.pending.Keys
  {
    if rx.recvSeq in rx.pending {
      var next := rx.pending[rx.recvSeq];
      DrainFilled(Rx(rx.recv + [next], rx.recvBytes + |next|, rx.pending - {rx.recvSeq},
                     rx.pendingLen - |next|, rx.recvSeq + 1, rx.inflight));
    }
  }

  /** An arriving segment adds at most its bytes to the buffered ones. */
  lemma ArrivedFilled(cfg: Config, s: State, i: nat, down: bool)
    requires Inv(cfg, s) && Filled(s.rx.recv) && Enabled(cfg, s, Deliver(i, down))
    ensures var rx := Next(cfg, s, Deliver(i, down)).rx;
      Filled(rx.recv)
      && rx.recvBytes + rx.pendingLen <= s.rx.recvBytes + s.rx.pendingLen + |s.log[i].data|
  {
    hide Join, Total, Flat, Sum, Holds, Owned, Drain;
    NeverDuplicate(cfg, s, i);
    var data := s.log[i].data;
    assert forall j :: j in s.rx.pending ==> |s.rx.pending[j]| == |s.log[j].data| > 0;
    DrainFilled(s.rx.(inflight := s.rx.inflight - |data|, recv := s.rx.recv + [data],
                      recvBytes := s.rx.recvBytes + |data|, recvSeq := s.rx.recvSeq + 1));
  }

  lemma FilledKeeps(cfg: Config, s: State, step: Step)
    requires Inv(cfg, s) && Filled(s.rx.recv) && Enabled(cfg, s, step)
    ensures Filled(Next(cfg, s, step).rx.recv)
  {
    if step.Deliver? {
      ArrivedFilled(cfg, s, step.i, step.down);
    }
  }

  lemma {:induction false} RunFilled(cfg: Config, states: seq<State>, steps: seq<Step>, k: nat)
    requires Run(cfg, states, steps) && k < |states|
    ensures Filled(states[k].rx.recv)
  {
    if k > 0 {
      RunFilled(cfg, states, steps, k - 1);
      RunInv(cfg, states, steps, k - 1);
      hide Inv, Next, Filled;
      FilledKeeps(cfg, states[k - 1], steps[k - 1]);
    }
  }

  /** What a byte still has to go through: it is unreserved, reserved, travelling, then buffered.
      Room of a dropped segment is still to be given back. */
  function Ahead(w: Writer): int {
    4 * (|w.buf| - w.written)
    + match w.phase
      case Ready => 0
      case Reserved(n) => -(n as int)
      case Dropped(n) => n
  }

  function AheadOfAll(writers: seq<Writer>): int {
    if writers == [] then 0
    else AheadOfAll(writers[..|writers| - 1]) + Ahead(writers[|writers| - 1])
  }

  function Work(s: State): int {
    AheadOfAll(s.writers) + 2 * Sum(s.log, s.wire, |s.log|) + s.rx.recvBytes + s.rx.pendingLen
  }

  lemma {:induction false} AheadChange(writers: seq<Writer>, w: nat, writer: Writer)
    requires w < |writers|
    ensures AheadOfAll(writers[w := writer]) == AheadOfAll(writers) - Ahead(writers[w]) + Ahead(writer)
  {
    var last := |writers| - 1;
    var changed := writers[w := writer];
    if w == last {
      assert changed[..last] == writers[..last];
    } else {
      AheadChange(writers[..last], w, writer);
      assert changed[..last] == writers[..last][w := writer];
    }
  }

  lemma {:induction false} AheadPositive(writers: seq<Writer>)
    requires forall w :: 0 <= w < |writers| ==> WriterFits(writers[w])
    ensures AheadOfAll(writers) >= 0
  {
    if writers != [] {
      AheadPositive(writers[..|writers| - 1]);
      assert WriterFits(writers[|writers| - 1]);
    }
  }

  lemma WorkPositive(cfg: Config, s: State)
    requires Inv(cfg, s)
    ensures Work(s) >= 0
  {
    AheadPositive(s.writers);
  }

  /** Reserving, sending, giving back, delivering and reading at least a byte. */
  predicate Working(step: Step) {
    step.Reserve? || step.Commit? || step.Release? || step.Deliver? || (step.Read? && step.max > 0)
  }

  lemma WriterWorks(cfg: Config, s: State, step: Step)
    requires Inv(cfg, s) && Enabled(cfg, s, step)
    requires step.Reserve? || step.Commit? || step.Release?
    ensures Work(Next(cfg, s, step)) < Work(s)
  {
    hide Join, Total, Flat, Sum, Holds, Owned, AheadOfAll;
    var t := Next(cfg, s, step);
    assert WriterFits(s.writers[step.w]);
    AheadChange(s.writers, step.w, t.writers[step.w]);
    if step.Commit? {
      ExtendWire(s.log, t.log[|s.log|], s.wire);
    }
  }

  lemma DeliveryWorks(cfg: Config, s: State, i: nat, down: bool)
    requires Inv(cfg, s) && Filled(s.rx.recv) && Enabled(cfg, s, Deliver(i, down))
    ensures Work(Next(cfg, s, Deliver(i, down))) < Work(s)
  {
    hide Sum, Holds, AheadOfAll, Arrived;
    NeverDuplicate(cfg, s, i);
    ArrivedFilled(cfg, s, i, down);
    SumTake(s.log, s.wire, i, |s.log|);
  }

  /** A read of at least one byte takes one: it lowers the readable bytes by what it returns. */
  lemma ReadWorks(cfg: Config, s: State, max: nat)
    requires Inv(cfg, s) && Filled(s.rx.recv) && Enabled(cfg, s, Read(max))
    ensures var t := Next(cfg, s, Read(max));
      && s.read <= t.read && |t.read| - |s.read| == Work(s) - Work(t) == s.rx.recvBytes - t.rx.recvBytes
      && (max > 0 ==> |t.read| > |s.read|)
  {
    hide Sum, Holds, AheadOfAll, Join, Total, Flat;
  }

  /** Every working step leaves less to do, and only a new write adds to it. */
  lemma StepWorks(cfg: Config, s: State, step: Step)
    requires Inv(cfg, s) && Filled(s.rx.recv) && Enabled(cfg, s, step)
    ensures Working(step) ==> Work(Next(cfg, s, step)) < Work(s)
    ensures !step.Begin? ==> Work(Next(cfg, s, step)) <= Work(s)
    ensures step.Begin? ==> Work(Next(cfg, s, step)) == Work(s) + 4 * |step.buf|
  {
    match step
    case Begin(buf) =>
      var t := Next(cfg, s, step);
      assert t.writers[..|s.writers|] == s.writers;
    case Deliver(i, down) => DeliveryWorks(cfg, s, i, down);
    case Read(max) => ReadWorks(cfg, s, max);
    case Reserve(_) => WriterWorks(cfg, s, step);
    case Commit(_, _) => WriterWorks(cfg, s, step);
    case Release(_) => WriterWorks(cfg, s, step);
    case _ =>
  }

  /** The working steps of a run, and the bytes it is given to write. */
  function Worked(steps: seq<Step>): nat {
    if steps == [] then 0
    else Worked(steps[..|steps| - 1]) + if Working(steps[|steps| - 1]) then 1 else 0
  }

  function Given(steps: seq<Step>): nat {
    if steps == [] then 0
    else
      var last := steps[|steps| - 1];
      Given(steps[..|steps| - 1]) + if last.Begin? then |last.buf| else 0
  }

  /** No run works for more than four steps a byte, in whatever order writers, network and reader
      take turns; what it has still to do is what is left of them. */
  lemma {:induction false} RunBounded(cfg: Config, states: seq<State>, steps: seq<Step>, k: nat)
    requires Run(cfg, states, steps) && k < |states|
    ensures 0 <= Work(states[k]) <= 4 * Given(steps[..k]) - Worked(steps[..k])
    decreases k
  {
    RunInv(cfg, states, steps, k);
    WorkPositive(cfg, states[k]);
    if k > 0 {
      RunBounded(cfg, states, steps, k - 1);
      RunInv(cfg, states, steps, k - 1);
      RunFilled(cfg, states, steps, k - 1);
      assert steps[..k][..k - 1] == steps[..k - 1];
      hide Inv, Next, Filled, Work;
      StepWorks(cfg, states[k - 1], steps[k - 1]);
    }
  }

  // ---------------------------------------------------------------------------------------
  // Flow control does not deadlock
  // ---------------------------------------------------------------------------------------

  ghost predicate Unfinished(s: State) {
    || s.read != Flat(s.log, |s.log|)
    || exists w :: 0 <= w < |s.writers| && Busy(s.writers[w])
  }

  predicate Busy(w: Writer) {
    w.written < |w.buf| || w.phase != Ready
  }

  lemma {:induction false} SumOfNone(log: seq<Segment>, n: nat)
    requires n <= |log|
    ensures Sum(log, {}, n) == 0
  {
    if n > 0 {
      SumOfNone(log, n - 1);
    }
  }

  lemma {:induction false} HoldsNone(writers: seq<Writer>)
    requires forall w :: 0 <= w < |writers| ==> writers[w].phase == Ready
    ensures Holds(writers) == 0
  {
    if writers != [] {
      HoldsNone(writers[..|writers| - 1]);
    }
  }

  /** While nothing is lost, unread data and unfinished writes can always go on: there is something
      to read, to deliver, to send or to give back, or there is room to write. */
  lemma NeverStalls(cfg: Config, states: seq<State>, steps: seq<Step>, k: nat) returns (step: Step)
    requires Run(cfg, states, steps) && k < |states| && cfg.buffer > 0
    requires states[k].lost == {} && Unfinished(states[k])
    ensures Enabled(cfg, states[k], step)
    ensures Working(step) && Work(Next(cfg, states[k], step)) < Work(states[k])
  {
    RunInv(cfg, states, steps, k);
    RunFilled(cfg, states, steps, k);
    step := Continues(cfg, states[k]);
    hide *;
    StepWorks(cfg, states[k], step);
  }

  lemma Continues(cfg: Config, s: State) returns (step: Step)
    requires Inv(cfg, s) && cfg.buffer > 0 && s.lost == {} && Unfinished(s)
    ensures Enabled(cfg, s, step) && Working(step)
  {
    if s.rx.recv != [] {
      step := Read(1);
    } else if s.wire != {} {
      step := OnTheWire(cfg, s);
    } else if w :| 0 <= w < |s.writers| && s.writers[w].phase != Ready {
      assert WriterFits(s.writers[w]);
      step := if s.writers[w].phase.Reserved? then Commit(w, false) else Release(w);
    } else {
      AllQuiet(cfg, s);
      var w :| 0 <= w < |s.writers| && Busy(s.writers[w]);
      step := Reserve(w);
    }
  }

  lemma OnTheWire(cfg: Config, s: State) returns (step: Step)
    requires Inv(cfg, s) && s.wire != {}
    ensures step.Deliver? && Enabled(cfg, s, step)
  {
    assert (forall i :: 0 <= i < |s.log| ==> i !in s.wire) ==> s.wire == {};
    var i :| 0 <= i < |s.log| && i in s.wire;
    step := Deliver(i, false);
  }

  /** With nothing lost, readable, travelling or reserved, all is read and the buffer is free. */
  lemma AllQuiet(cfg: Config, s: State)
    requires Inv(cfg, s) && s.lost == {} && s.rx.recv == [] && s.wire == {}
    requires forall w :: 0 <= w < |s.writers| ==> s.writers[w].phase == Ready
    ensures s.read == Flat(s.log, |s.log|) && Space(s.rx, cfg) == cfg.buffer
  {
    HoldsNone(s.writers);
    SumOfNone(s.log, |s.log|);
    assert s.rx.recvSeq == |s.log|;
    assert s.rx.pending.Keys == {};
  }

  // ---------------------------------------------------------------------------------------
  // A link that keeps the order
  // ---------------------------------------------------------------------------------------

  /** Nothing lost and nothing held back: the wire has exactly the segments not yet received. */
  ghost predicate InOrder(s: State) {
    && s.rx.pending == map[] && s.lost == {} && !s.closed && !s.reset
    && s.rx.recvSeq <= |s.log|
    && forall i :: i in s.wire <==> s.rx.recvSeq <= i < |s.log|
  }

  /** A step of a link that drops nothing and delivers the oldest segment first. */
  ghost predicate Orderly(s: State, step: Step) {
    match step
    case Commit(_, dropped) => !dropped
    case Deliver(i, down) => !down && forall j :: j in s.wire ==> i <= j
    case Close => false
    case Abort => false
    case _ => true
  }

  lemma OrderlyKeeps(cfg: Config, s: State, step: Step)
    requires InOrder(s) && Enabled(cfg, s, step) && Orderly(s, step)
    ensures InOrder(Next(cfg, s, step))
  {
    if step.Deliver? {
      assert s.rx.recvSeq in s.wire;
      assert step.i == s.rx.recvSeq;
    }
  }

  /** On such a link the reorder buffer is never used and nothing is lost. */
  lemma {:induction false} OrderlyRun(cfg: Config, states: seq<State>, steps: seq<Step>, k: nat)
    requires Run(cfg, states, steps) && k < |states|
    requires forall m :: 0 <= m < k ==> Orderly(states[m], steps[m])
    ensures InOrder(states[k])
  {
    if k > 0 {
      OrderlyRun(cfg, states, steps, k - 1);
      hide InOrder, Next, Orderly;
      OrderlyKeeps(cfg, states[k - 1], steps[k - 1]);
    }
  }
}
