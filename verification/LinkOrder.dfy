/** Delivery times on a link, and which links keep the order of what is sent. */
module LinkOrder {
  const SECOND: int := 1_000_000_000

  /** Latency and jitter in nanoseconds, the rate in bits per second; no rate when not positive. */
  datatype LinkConfig = LinkConfig(latency: int, jitter: int, rate: int)

  datatype Link = Link(cfg: LinkConfig, txFree: int)

  function Max(a: int, b: int): int {
    if a < b then b else a
  }

  /** The time the wire needs for some bytes. */
  function Wire(cfg: LinkConfig, bytes: nat): (t: nat)
    requires cfg.rate > 0
  {
    bytes * 8 * SECOND / cfg.rate
  }

  /** The whole nanoseconds in the time of the bytes at the rate. */
  lemma WireExactly(cfg: LinkConfig, bytes: nat)
    requires cfg.rate > 0
    ensures Wire(cfg, bytes) * cfg.rate <= 8 * bytes * SECOND < (Wire(cfg, bytes) + 1) * cfg.rate
  {
    QuotientExactly(bytes * 8 * SECOND, cfg.rate);
  }

  lemma QuotientExactly(a: nat, d: nat)
    requires d > 0
    ensures (a / d) * d <= a < (a / d + 1) * d
  {
    assert a == (a / d) * d + a % d;
  }

  function Busy(link: Link, now: int, bytes: nat): Link {
    if link.cfg.rate > 0 then link.(txFree := Max(now, link.txFree) + Wire(link.cfg, bytes)) else link
  }

  /** When a transmission that starts now arrives. */
  function Arrival(link: Link, now: int, bytes: nat, sample: int): int {
    var wire := if link.cfg.rate > 0 then Busy(link, now, bytes).txFree - now else 0;
    now + Max(0, link.cfg.latency + sample + wire)
  }

  /** How far a sample can be from zero. */
  function Spread(cfg: LinkConfig): int {
    Max(0, cfg.jitter)
  }

  predicate Sampled(cfg: LinkConfig, sample: int) {
    -Spread(cfg) <= sample <= Spread(cfg)
  }

  /** The wire is busy for the time of the bytes at the rate, in whole nanoseconds. */
  ghost predicate Occupied(from: int, until: int, bytes: nat, rate: int) {
    from <= until && (until - from) * rate <= 8 * bytes * SECOND < (until - from + 1) * rate
  }

  class LinkState {
    const cfg: LinkConfig
    var txFree: int

    constructor (config: LinkConfig, free: int)
      ensures cfg == config && txFree == free
    {
      cfg, txFree := config, free;
    }

    method Delay(now: int, bytes: nat, sample: int) returns (delay: int)
      requires Sampled(cfg, sample)
      modifies this
      ensures delay >= 0 && now + delay == Arrival(Link(cfg, old(txFree)), now, bytes, sample)
      ensures Link(cfg, txFree) == Busy(Link(cfg, old(txFree)), now, bytes)
      ensures cfg.rate <= 0 ==>
                txFree == old(txFree) && delay == if cfg.latency + sample < 0 then 0 else cfg.latency + sample
      ensures cfg.rate > 0 ==>
                && Occupied(if old(txFree) > now then old(txFree) else now, txFree, bytes, cfg.rate)
                && delay == if cfg.latency + sample + txFree < now then 0 else cfg.latency + sample + txFree - now
    {
      if cfg.rate > 0 {
        WireExactly(cfg, bytes);
      }
      delay := cfg.latency;
      if cfg.jitter > 0 {
        delay := delay + sample;
      }
      if cfg.rate > 0 {
        var wire := bytes * 8 * SECOND / cfg.rate;
        var start := now;
        if txFree > now {
          start := txFree;
        }
        txFree := start + wire;
        delay := delay + (txFree - now);
      }
      if delay < 0 {
        delay := 0;
      }
    }
  }

  // ---------------------------------------------------------------------------------------
  // Which links keep the order
  // ---------------------------------------------------------------------------------------

  /** Jitter cannot bring one transmission before another: with a rate because the wire time of a
      single byte outweighs it, without one because there is no jitter or no delay at all. */
  predicate KeepsOrder(cfg: LinkConfig) {
    if cfg.rate > 0 then 2 * Spread(cfg) <= Wire(cfg, 1)
    else Spread(cfg) == 0 || cfg.latency + Spread(cfg) <= 0
  }

  lemma WireGrows(cfg: LinkConfig, bytes: nat)
    requires cfg.rate > 0 && bytes >= 1
    ensures Wire(cfg, bytes) >= Wire(cfg, 1)
  {
    DivGrows(8 * SECOND, bytes * 8 * SECOND, cfg.rate);
  }

  lemma SignOfProduct(x: nat, d: nat)
    ensures x * d >= 0
  {}

  lemma DivGrows(a: nat, b: nat, d: nat)
    requires a <= b && d > 0
    ensures a / d <= b / d
  {
    var qa, qb := a / d, b / d;
    assert a == qa * d + a % d && b == qb * d + b % d;
    assert (qa - qb - 1) * d < 0;
    if qa > qb {
      SignOfProduct(qa - qb - 1, d);
    }
  }

  /** The latest arrival so far. */
  function Limit(link: Link, now: int): int {
    var cfg := link.cfg;
    if cfg.rate > 0 then Max(now, cfg.latency + Spread(cfg) + link.txFree)
    else if Spread(cfg) == 0 then Max(now, now + cfg.latency)
    else now
  }

  lemma AtLimit(link: Link, now: int, bytes: nat, sample: int)
    requires KeepsOrder(link.cfg) && Sampled(link.cfg, sample)
    ensures Arrival(link, now, bytes, sample) <= Limit(Busy(link, now, bytes), now)
    ensures Limit(link, now) <= Limit(Busy(link, now, bytes), now)
    ensures bytes >= 1 ==> Limit(link, now) <= Arrival(link, now, bytes, sample)
  {
    if link.cfg.rate > 0 && bytes >= 1 {
      WireGrows(link.cfg, bytes);
    }
  }

  lemma LimitRises(link: Link, now: int, later: int)
    requires now <= later
    ensures Limit(link, now) <= Limit(link, later)
  {}

  /** Two transmissions, the second not before the first and not empty, arrive in order. */
  ghost predicate Fifo(cfg: LinkConfig) {
    forall free: int, t1: int, b1: nat, j1: int, t2: int, b2: nat, j2: int ::
      t1 <= t2 && b2 >= 1 && Sampled(cfg, j1) && Sampled(cfg, j2) ==>
        InOrder(cfg, free, t1, b1, j1, t2, b2, j2)
  }

  predicate InOrder(cfg: LinkConfig, free: int, t1: int, b1: nat, j1: int, t2: int, b2: nat, j2: int) {
    var link := Link(cfg, free);
    Arrival(link, t1, b1, j1) <= Arrival(Busy(link, t1, b1), t2, b2, j2)
  }

  lemma FifoExactly(cfg: LinkConfig)
    ensures Fifo(cfg) <==> KeepsOrder(cfg)
  {
    if KeepsOrder(cfg) {
      forall free: int, t1: int, b1: nat, j1: int, t2: int, b2: nat, j2: int
        | t1 <= t2 && b2 >= 1 && Sampled(cfg, j1) && Sampled(cfg, j2)
        ensures InOrder(cfg, free, t1, b1, j1, t2, b2, j2)
      {
        InOrderHolds(cfg, free, t1, b1, j1, t2, b2, j2);
      }
    } else {
      var free := Overtaking(cfg);
      assert !InOrder(cfg, free, 0, 1, Spread(cfg), 0, 1, -Spread(cfg));
      assert Sampled(cfg, Spread(cfg)) && Sampled(cfg, -Spread(cfg));
    }
  }

  lemma InOrderHolds(cfg: LinkConfig, free: int, t1: int, b1: nat, j1: int, t2: int, b2: nat, j2: int)
    requires KeepsOrder(cfg) && t1 <= t2 && b2 >= 1 && Sampled(cfg, j1) && Sampled(cfg, j2)
    ensures InOrder(cfg, free, t1, b1, j1, t2, b2, j2)
  {
    var link := Link(cfg, free);
    AtLimit(link, t1, b1, j1);
    LimitRises(Busy(link, t1, b1), t1, t2);
    AtLimit(Busy(link, t1, b1), t2, b2, j2);
  }

  /** On any other link, of two bytes sent at once the second can arrive first. */
  lemma Overtaking(cfg: LinkConfig) returns (free: int)
    requires !KeepsOrder(cfg)
    ensures !InOrder(cfg, free, 0, 1, Spread(cfg), 0, 1, -Spread(cfg))
  {
    free := Max(0, -cfg.latency) + 1;
    hide Wire;
  }
}
