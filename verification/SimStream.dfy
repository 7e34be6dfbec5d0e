/** One direction of a simulated stream: flow control, reassembly and end of stream. */
module SimStream {

  type Bytes = seq<bv8>

  const MAX_SEGMENT: nat := 65536

  /** The receive buffer in bytes and the reorder window in segments. */
  datatype Config = Config(buffer: nat, window: nat)

  // ---------------------------------------------------------------------------------------
  // The receiving side
  // ---------------------------------------------------------------------------------------

  datatype Rx = Rx(
    recv: seq<Bytes>, recvBytes: int, pending: map<nat, Bytes>, pendingLen: int, recvSeq: nat, inflight: int)

  /** Moves the segments that are now in order from the reorder buffer to the readable ones. */
  function Drain(rx: Rx): Rx
    decreases rx.pending.Keys
  {
    if rx.recvSeq in rx.pending then
      var next := rx.pending[rx.recvSeq];
      Drain(Rx(rx.recv + [next], rx.recvBytes + |next|, rx.pending - {rx.recvSeq},
               rx.pendingLen - |next|, rx.recvSeq + 1, rx.inflight))
    else rx
  }

  /** A segment arrives. `gone` says that the connection is closed or reset, `down` that the
      link is. */
  function Arrived(rx: Rx, cfg: Config, seqno: nat, data: Bytes, gone: bool, down: bool): Rx {
    var landed := rx.(inflight := rx.inflight - |data|);
    if gone || down || seqno < rx.recvSeq then landed
    else if seqno > rx.recvSeq then
      if seqno >= rx.recvSeq + cfg.window || seqno in rx.pending then landed
      else landed.(pending := rx.pending[seqno := data], pendingLen := rx.pendingLen + |data|)
    else
      Drain(landed.(recv := rx.recv + [data], recvBytes := rx.recvBytes + |data|, recvSeq := rx.recvSeq + 1))
  }

  function Min(a: int, b: int): int {
    if a < b then a else b
  }

  /** What a reader with room for `max` bytes takes: the front of the first readable segment. */
  function Taken(rx: Rx, max: nat): Bytes
    requires rx.recv != []
  {
    rx.recv[0][..Min(max, |rx.recv[0]|)]
  }

  function AfterRead(rx: Rx, max: nat): Rx
    requires rx.recv != []
  {
    var n := |Taken(rx, max)|;
    var rest := if n == |rx.recv[0]| then rx.recv[1..] else [rx.recv[0][n..]] + rx.recv[1..];
    rx.(recv := rest, recvBytes := rx.recvBytes - n)
  }

  function Space(rx: Rx, cfg: Config): int {
    cfg.buffer - rx.recvBytes - rx.pendingLen - rx.inflight
  }

  datatype ReadResult = Data(bytes: Bytes) | Reset | EndOfStream | Closed | Wait

  class TCPConn {
    const cfg: Config
    var recv: seq<Bytes>
    var recvBytes: int
    var pending: map<nat, Bytes>
    var pendingLen: int
    var recvSeq: nat
    var inflight: int
    var closed: bool
    var reset: bool
    var peerDone: bool

    function View(): Rx
      reads this
    {
      Rx(recv, recvBytes, pending, pendingLen, recvSeq, inflight)
    }

    constructor (config: Config)
      ensures cfg == config && View() == Rx([], 0, map[], 0, 0, 0) && !closed && !reset && !peerDone
    {
      cfg := config;
      recv, recvBytes, pending, pendingLen, recvSeq, inflight := [], 0, map[], 0, 0, 0;
      closed, reset, peerDone := false, false, false;
    }

    /** The locked part of a write: as much room for the next chunk as the data, a segment and the
        free space allow. The receive buffer is never overcommitted. */
    method Reserve(remaining: nat) returns (n: nat)
      modifies `inflight
      ensures n > 0 <==> Space(old(View()), cfg) > 0 && remaining > 0
      ensures n <= remaining && n <= MAX_SEGMENT
      ensures Space(View(), cfg) == Space(old(View()), cfg) - n
      ensures Space(old(View()), cfg) >= 0 ==> Space(View(), cfg) >= 0
      ensures n == remaining || n == MAX_SEGMENT || Space(View(), cfg) <= 0
    {
      var space := cfg.buffer - recvBytes - pendingLen - inflight;
      n := 0;
      if space > 0 {
        n := Min(Min(space, remaining), MAX_SEGMENT);
        inflight := inflight + n;
      }
    }

    method Deliver(seqno: nat, data: Bytes, down: bool)
      modifies `recv, `recvBytes, `pending, `pendingLen, `recvSeq, `inflight
      ensures View() == Arrived(old(View()), cfg, seqno, data, closed || reset, down)
    {
      inflight := inflight - |data|;
      if closed || reset {
        return;
      }
      if down || seqno < recvSeq {
      } else if seqno > recvSeq {
        if seqno < recvSeq + cfg.window && seqno !in pending {
          pending := pending[seqno := data];
          pendingLen := pendingLen + |data|;
        }
      } else {
        recv := recv + [data];
        recvBytes := recvBytes + |data|;
        recvSeq := recvSeq + 1;
        DrainPending();
      }
    }

    method DrainPending()
      modifies `recv, `recvBytes, `pending, `pendingLen, `recvSeq
      ensures View() == Drain(old(View()))
    {
      while recvSeq in pending
        invariant Drain(View()) == Drain(old(View()))
        decreases pending.Keys
      {
        var next := pending[recvSeq];
        pending := pending - {recvSeq};
        pendingLen := pendingLen - |next|;
        recv := recv + [next];
        recvBytes := recvBytes + |next|;
        recvSeq := recvSeq + 1;
      }
    }

    /** One turn of a reader. */
    method Read(max: nat) returns (r: ReadResult)
      modifies `recv, `recvBytes
      ensures old(recv) != [] ==> r == Data(Taken(old(View()), max)) && View() == AfterRead(old(View()), max)
      ensures old(recv) != [] ==>
                && r.Data? && r.bytes <= old(recv)[0]
                && |r.bytes| == (if max < |old(recv)[0]| then max else |old(recv)[0]|)
                && recvBytes == old(recvBytes) - |r.bytes|
                && recv == (if max < |old(recv)[0]| then [old(recv)[0][max..]] else []) + old(recv)[1..]
      ensures old(recv) == [] ==> View() == old(View())
      ensures r.EndOfStream? <==> old(recv) == [] && !reset && peerDone && inflight == 0
      ensures r.Reset? <==> old(recv) == [] && reset
      ensures r.Closed? <==> old(recv) == [] && !reset && !(peerDone && inflight == 0) && closed
    {
      if |recv| != 0 {
        var chunk := recv[0];
        var n := Min(max, |chunk|);
        if n == |chunk| {
          recv := recv[1..];
        } else {
          recv := recv[0 := chunk[n..]];
        }
        recvBytes := recvBytes - n;
        return Data(chunk[..n]);
      }
      if reset {
        return Reset;
      }
      if peerDone && inflight == 0 {
        return EndOfStream;
      }
      if closed {
        return Closed;
      }
      r := Wait;
    }
  }
}
