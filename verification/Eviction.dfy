/** What an eviction pass may remove, and when the sparse keyspace buckets are spared. */
module Eviction {
  import opened SharedPrefix
  import opened Retention

  const TWELVE_HOURS: int := 43_200_000_000_000
  const DAY: int := 86_400_000_000_000
  const ZERO_TIME: int := -62_135_596_800_000_000_000

  const BUCKETS: nat := 256

  function Bucket(h: Hash): (b: nat)
    ensures b < BUCKETS
  {
    h[0] as nat
  }

  ghost function InBucket(peers: Peers, b: nat): set<Hash> {
    set h | h in peers && Bucket(h) == b
  }

  /** How many peers are in a bucket. */
  ghost function Count(peers: Peers, b: nat): nat {
    |InBucket(peers, b)|
  }

  function Min(a: int, b: int): int {
    if a < b then a else b
  }

  /** Unreachable after repeated failures. */
  predicate Dead(p: Peer) {
    !p.reachable && p.fails >= 2
  }

  predicate LongStale(p: Peer, now: int) {
    p.lastSeen != ZERO_TIME && now - p.lastSeen > TWELVE_HOURS
  }

  predicate Anyone(p: Peer) {
    true
  }

  lemma {:induction false} Smaller(a: set<Hash>, b: set<Hash>)
    requires a <= b
    ensures |a| <= |b|
    ensures |a| == |b| ==> a == b
  {
    if a != {} {
      Inhabited(a);
      var x: Hash :| x in a;
      Smaller(a - {x}, b - {x});
      assert a == (a - {x}) + {x} && b == (b - {x}) + {x};
    } else if b != {} {
      assert |b| > 0;
    }
  }

  lemma CountWithin(fewer: Peers, peers: Peers, b: nat)
    requires Within(fewer, peers)
    ensures Count(fewer, b) <= Count(peers, b)
    ensures Count(fewer, b) == Count(peers, b) ==> InBucket(fewer, b) == InBucket(peers, b)
  {
    Smaller(InBucket(fewer, b), InBucket(peers, b));
  }

  lemma CountDrop(peers: Peers, h: Hash, b: nat)
    requires h in peers
    ensures Count(peers - {h}, b) == Count(peers, b) - if b == Bucket(h) then 1 else 0
  {
    if b == Bucket(h) {
      assert InBucket(peers - {h}, b) == InBucket(peers, b) - {h};
    } else {
      assert InBucket(peers - {h}, b) == InBucket(peers, b);
    }
  }

  /** One pass: only peers of the kind go, no bucket falls under the floor, and no peer of the
      kind stays in a bucket above it while there was room. */
  ghost predicate Passed(before: Peers, after: Peers, floor: nat, kind: Peer -> bool, room: int) {
    && Within(after, before)
    && (forall h :: h in before && h !in after ==> kind(before[h]))
    && (forall b :: Count(after, b) >= Min(Count(before, b), floor))
    && |before| - |after| <= room
    && (|before| - |after| == room
        || forall h :: h in after && kind(after[h]) ==> Count(after, Bucket(h)) <= floor)
  }

  /** The removed had no higher score than any peer of the kind that stays in a bucket above
      the floor. */
  ghost predicate WorstFirst(before: Peers, after: Peers, floor: nat, kind: Peer -> bool) {
    forall x, y ::
      x in before && x !in after && y in after && y in before && kind(after[y])
      && Count(after, Bucket(y)) > floor ==>
        before[x].score <= before[y].score
  }

  /** The buckets after a batch. Buckets lose live peers only down to four and dead peers only
      down to two; or else every bucket is down to four. */
  ghost predicate Diverse(before: Peers, after: Peers) {
    || Spared(before, after)
    || (forall b: nat :: Count(after, b) <= 4)
  }

  /** Every bucket keeps its protection. */
  ghost predicate Spared(before: Peers, after: Peers) {
    forall b: nat :: Thinned(before, after, b)
  }

  ghost predicate Thinned(before: Peers, after: Peers, b: nat) {
    || Count(after, b) >= Min(Count(before, b), 4)
    || (&& Count(after, b) >= Min(Count(before, b), 2)
        && forall h :: h in before && h !in after && Bucket(h) == b ==> Dead(before[h]))
  }

  lemma ThreePasses(p0: Peers, p1: Peers, p2: Peers, p3: Peers, b: nat)
    requires Within(p1, p0) && Within(p2, p1) && Within(p3, p2)
    requires forall h :: h in p0 && h !in p1 ==> Dead(p0[h])
    requires Count(p1, b) >= Min(Count(p0, b), 2)
    requires Count(p2, b) >= Min(Count(p1, b), 4)
    requires Count(p3, b) >= Min(Count(p2, b), 4)
    ensures Thinned(p0, p3, b)
  {
    hide Dead;
    CountWithin(p3, p1, b);
    CountWithin(p1, p0, b);
    if Count(p1, b) < 4 {
      assert InBucket(p3, b) == InBucket(p1, b);
      forall h | h in p0 && h !in p3 && Bucket(h) == b
        ensures Dead(p0[h])
      {
        assert h !in InBucket(p3, b);
      }
    }
  }

  /** The peers of the first `n` buckets. */
  ghost function Below(peers: Peers, n: nat): set<Hash> {
    set h | h in peers && Bucket(h) < n
  }

  lemma {:induction false} SparseSize(peers: Peers, n: nat)
    requires forall b: nat :: b < n ==> Count(peers, b) <= 4
    ensures |Below(peers, n)| <= 4 * n
  {
    if n == 0 {
      assert Below(peers, 0) == {};
    } else {
      SparseSize(peers, n - 1);
      hide Bucket;
      assert Below(peers, n) == Below(peers, n - 1) + InBucket(peers, n - 1);
      assert |InBucket(peers, n - 1)| == Count(peers, n - 1);
      UnionSize(Below(peers, n - 1), InBucket(peers, n - 1));
    }
  }

  lemma UnionSize(a: set<Hash>, b: set<Hash>)
    ensures |a + b| <= |a| + |b|
  {
    assert a + b == a + (b - a);
    Smaller(b - a, b);
  }

  /** A store with no more than four peers in every bucket is small. */
  lemma AllSparse(peers: Peers)
    requires forall b: nat :: Count(peers, b) <= 4
    ensures |peers| <= 4 * BUCKETS
  {
    SparseSize(peers, BUCKETS);
    assert Below(peers, BUCKETS) == peers.Keys;
  }

  /** One batch: dead peers, stale peers, then the lowest scores of crowded buckets, then of all. */
  ghost predicate Batched(p0: Peers, p1: Peers, p2: Peers, p3: Peers, p4: Peers, count: nat, stale: Peer -> bool) {
    && Passed(p0, p1, 2, Dead, count) && WorstFirst(p0, p1, 2, Dead)
    && Passed(p1, p2, 4, stale, count - (|p0| - |p1|)) && WorstFirst(p1, p2, 4, stale)
    && Passed(p2, p3, 4, Anyone, count - (|p0| - |p2|)) && WorstFirst(p2, p3, 4, Anyone)
    && Passed(p3, p4, 0, Anyone, count - (|p0| - |p3|)) && WorstFirst(p3, p4, 0, Anyone)
  }

  lemma MakeBatch(p0: Peers, p1: Peers, p2: Peers, p3: Peers, p4: Peers, count: nat, stale: Peer -> bool)
    requires Passed(p0, p1, 2, Dead, count) && WorstFirst(p0, p1, 2, Dead)
    requires Passed(p1, p2, 4, stale, count - (|p0| - |p1|)) && WorstFirst(p1, p2, 4, stale)
    requires Passed(p2, p3, 4, Anyone, count - (|p0| - |p2|)) && WorstFirst(p2, p3, 4, Anyone)
    requires Passed(p3, p4, 0, Anyone, count - (|p0| - |p2|) - (|p2| - |p3|)) && WorstFirst(p3, p4, 0, Anyone)
    ensures Batched(p0, p1, p2, p3, p4, count, stale)
  {
    hide Passed, WorstFirst;
  }

  /** What the four passes of a batch come to. In a store of more than four peers for each bucket
      and a batch beside them the last pass has nothing to do. */
  lemma FourPasses(p0: Peers, p1: Peers, p2: Peers, p3: Peers, p4: Peers, count: nat, stale: Peer -> bool)
    requires Batched(p0, p1, p2, p3, p4, count, stale)
    ensures |p0| - |p4| == Min(count, |p0|)
    ensures Within(p4, p0) && Diverse(p0, p4)
    ensures |p0| >= 4 * BUCKETS + count ==> p4 == p3 && Spared(p0, p4)
  {
    hide WorstFirst, Thinned;
    FinalPass(p3, p4, count - (|p0| - |p3|));
    if |p0| - |p3| == count {
      AllThere(p4, p3);
      forall b: nat
        ensures Thinned(p0, p4, b)
      {
        ThreePasses(p0, p1, p2, p3, b);
      }
    } else {
      forall b: nat
        ensures Count(p3, b) <= 4 && Count(p4, b) <= 4
      {
        CrowdsGone(p3, b);
        CountWithin(p4, p3, b);
      }
      AllSparse(p3);
    }
  }

  /** Without a floor a pass stops only when it is done or nobody is left. */
  lemma FinalPass(before: Peers, after: Peers, room: int)
    requires Passed(before, after, 0, Anyone, room) && room >= 0
    ensures |before| - |after| == Min(room, |before|)
  {
    if after != map[] {
      Inhabited(after.Keys);
      var h: Hash :| h in after.Keys;
      assert h in InBucket(after, Bucket(h));
      assert Count(after, Bucket(h)) > 0 && Anyone(after[h]);
    }
    Smaller(after.Keys, before.Keys);
  }

  lemma AllThere(fewer: Peers, peers: Peers)
    requires Within(fewer, peers) && |fewer| == |peers|
    ensures fewer == peers
  {
    Smaller(fewer.Keys, peers.Keys);
  }

  lemma CrowdsGone(peers: Peers, b: nat)
    requires forall h :: h in peers && Anyone(peers[h]) ==> Count(peers, Bucket(h)) <= 4
    ensures Count(peers, b) <= 4
  {
    if InBucket(peers, b) != {} {
      Inhabited(InBucket(peers, b));
      var h: Hash :| h in InBucket(peers, b);
      assert Anyone(peers[h]);
    }
  }

  /** The first pass: only unreachable peers with two failures go, and unless the batch is full all
      of them do but two in a bucket. */
  ghost predicate DeadGone(before: Peers, after: Peers, room: int) {
    && (forall h :: h in before && h !in after ==> !before[h].reachable && before[h].fails >= 2)
    && (|before| - |after| == room
        || forall h :: h in after && Count(after, Bucket(h)) > 2 ==> after[h].reachable || after[h].fails < 2)
  }

  /** The second: only peers that were seen, but not for twelve hours, and all but four in a bucket. */
  ghost predicate StaleGone(before: Peers, after: Peers, room: int, now: int) {
    && (forall h :: h in before && h !in after ==>
          before[h].lastSeen != ZERO_TIME && before[h].lastSeen + 43_200_000_000_000 < now)
    && (|before| - |after| == room
        || forall h :: h in after && Count(after, Bucket(h)) > 4 ==>
             after[h].lastSeen == ZERO_TIME || after[h].lastSeen + 43_200_000_000_000 >= now)
  }

  lemma FaultyGone(p0: Peers, p1: Peers, p2: Peers, p3: Peers, p4: Peers, count: nat, now: int)
    requires Batched(p0, p1, p2, p3, p4, count, (p: Peer) => LongStale(p, now))
    ensures DeadGone(p0, p1, count) && StaleGone(p1, p2, count - (|p0| - |p1|), now)
  {
    hide WorstFirst, Passed, DeadGone, StaleGone, LongStale;
    DeadPassed(p0, p1, count);
    StalePassed(p1, p2, count - (|p0| - |p1|), now);
  }

  lemma DeadPassed(before: Peers, after: Peers, room: int)
    requires Passed(before, after, 2, Dead, room)
    ensures DeadGone(before, after, room)
  {
    hide Count, Bucket;
    assert forall h :: h in after ==> (Dead(after[h]) <==> !after[h].reachable && after[h].fails >= 2);
  }

  lemma StalePassed(before: Peers, after: Peers, room: int, now: int)
    requires Passed(before, after, 4, (p: Peer) => LongStale(p, now), room)
    ensures StaleGone(before, after, room, now)
  {
    hide Count, Bucket;
    var stale := (p: Peer) => LongStale(p, now);
    assert forall h :: h in after ==> (stale(after[h]) <==> LongStale(after[h], now));
  }

  // ---------------------------------------------------------------------------------------
  // Inside a pass
  // ---------------------------------------------------------------------------------------

  ghost predicate Counted(counts: seq<nat>, peers: Peers) {
    |counts| == BUCKETS && forall b :: 0 <= b < BUCKETS ==> counts[b] == Count(peers, b)
  }

  lemma CountPut(peers: Peers, h: Hash, p: Peer, b: nat)
    requires h !in peers
    ensures Count(peers[h := p], b) == Count(peers, b) + if b == Bucket(h) then 1 else 0
  {
    if b == Bucket(h) {
      assert InBucket(peers[h := p], b) == InBucket(peers, b) + {h};
    } else {
      assert InBucket(peers[h := p], b) == InBucket(peers, b);
    }
  }

  lemma CountedDrop(counts: seq<nat>, peers: Peers, h: Hash)
    requires Counted(counts, peers) && h in peers
    ensures counts[Bucket(h)] > 0
    ensures Counted(counts[Bucket(h) := counts[Bucket(h)] - 1], peers - {h})
  {
    assert h in InBucket(peers, Bucket(h));
    forall b: nat | b < BUCKETS {
      CountDrop(peers, h, b);
    }
  }

  /** By rising score. */
  ghost predicate Ranked(peers: Peers, c: seq<Hash>) {
    && (forall i :: 0 <= i < |c| ==> c[i] in peers)
    && forall i, j :: 0 <= i < j < |c| ==> peers[c[i]].score <= peers[c[j]].score
  }

  ghost predicate Candidates(peers: Peers, c: seq<Hash>, floor: nat, kind: Peer -> bool) {
    forall h :: h in c <==> h in peers && Count(peers, Bucket(h)) > floor && kind(peers[h])
  }

  ghost predicate Progress(before: Peers, now: Peers, c: seq<Hash>, i: nat, floor: nat)
    requires i <= |c|
  {
    && Within(now, before)
    && (forall h :: h in before && h !in now ==> h in c[..i])
    && (forall b :: Count(now, b) >= Min(Count(before, b), floor))
    && (forall k :: 0 <= k < i && c[k] in now ==> Count(now, Bucket(c[k])) <= floor)
  }

  lemma ProgressDrop(before: Peers, now: Peers, c: seq<Hash>, i: nat, floor: nat)
    requires i < |c| && Progress(before, now, c, i, floor)
    requires c[i] in now && Count(now, Bucket(c[i])) > floor
    ensures Progress(before, now - {c[i]}, c, i + 1, floor)
  {
    var after := now - {c[i]};
    forall b: nat
      ensures Count(after, b) == Count(now, b) - if b == Bucket(c[i]) then 1 else 0
    {
      CountDrop(now, c[i], b);
    }
    assert c[..i + 1] == c[..i] + [c[i]];
  }

  lemma ProgressDone(before: Peers, after: Peers, c: seq<Hash>, i: nat, floor: nat, kind: Peer -> bool, room: int)
    requires i <= |c| && Progress(before, after, c, i, floor)
    requires Candidates(before, c, floor, kind) && Ranked(before, c)
    requires |before| - |after| <= room && (i < |c| ==> |before| - |after| == room)
    ensures Passed(before, after, floor, kind, room) && WorstFirst(before, after, floor, kind)
  {
    forall y | y in after && kind(after[y]) && Count(after, Bucket(y)) > floor
      ensures y in c[i..]
    {
      CountWithin(after, before, Bucket(y));
      assert y in c;
      var k :| 0 <= k < |c| && c[k] == y;
      assert k >= i;
      assert c[i..][k - i] == y;
    }
    forall x, y | x in before && x !in after && y in c[i..]
      ensures before[x].score <= before[y].score
    {
      var m :| 0 <= m < i && c[m] == x;
      var k :| 0 <= k < |c| - i && c[i..][k] == y;
      assert c[i + k] == y;
    }
  }

  lemma FirstProgress(peers: Peers, c: seq<Hash>, floor: nat)
    ensures Progress(peers, peers, c, 0, floor)
  {}

  lemma ProgressSkip(before: Peers, now: Peers, c: seq<Hash>, i: nat, floor: nat)
    requires i < |c| && Progress(before, now, c, i, floor)
    requires c[i] in now ==> Count(now, Bucket(c[i])) <= floor
    ensures Progress(before, now, c, i + 1, floor)
  {
    assert c[..i + 1] == c[..i] + [c[i]];
  }

  lemma Unthinned(peers: Peers)
    ensures Within(peers, peers) && Diverse(peers, peers) && Spared(peers, peers)
  {
    assert forall b: nat :: Thinned(peers, peers, b);
  }

  lemma NobodyCounted(peers: Peers)
    ensures Counted(seq(BUCKETS, _ => 0), peers - peers.Keys)
  {
    var nobody := peers - peers.Keys;
    assert forall b: nat :: InBucket(nobody, b) == {};
  }

  lemma OneMoreCounted(counts: seq<nat>, peers: Peers, rest: set<Hash>, h: Hash)
    requires h in rest && rest <= peers.Keys && Counted(counts, peers - rest)
    ensures Counted(counts[Bucket(h) := counts[Bucket(h)] + 1], peers - (rest - {h}))
  {
    var done := peers - rest;
    assert peers - (rest - {h}) == done[h := peers[h]];
    forall b: nat | b < BUCKETS {
      CountPut(done, h, peers[h], b);
    }
  }

  lemma CountedAt(counts: seq<nat>, peers: Peers, h: Hash)
    requires Counted(counts, peers)
    ensures |counts| == BUCKETS && counts[Bucket(h)] == Count(peers, Bucket(h))
  {}

  lemma InsertedRanked(peers: Peers, c: seq<Hash>, h: Hash, i: nat)
    requires Ranked(peers, c) && h in peers && i <= |c|
    requires i > 0 ==> peers[c[i - 1]].score <= peers[h].score
    requires forall j :: i <= j < |c| ==> peers[c[j]].score > peers[h].score
    ensures Ranked(peers, c[..i] + [h] + c[i..])
    ensures forall k :: k in c[..i] + [h] + c[i..] <==> k in c || k == h
  {
    var r := c[..i] + [h] + c[i..];
    forall m | 0 <= m < |r|
      ensures r[m] in peers
    {
      InsertedAt(c, h, i, m);
    }
    forall m, k | 0 <= m < k < |r|
      ensures peers[r[m]].score <= peers[r[k]].score
    {
      InsertedAt(c, h, i, m);
      InsertedAt(c, h, i, k);
      assert m < i ==> peers[c[m]].score <= peers[h].score;
    }
    InsertedMembers(c, h, i);
  }

  lemma InsertedAt(c: seq<Hash>, h: Hash, i: nat, m: nat)
    requires i <= |c| && m <= |c|
    ensures (c[..i] + [h] + c[i..])[m] == if m < i then c[m] else if m == i then h else c[m - 1]
  {}

  lemma InsertedMembers(c: seq<Hash>, h: Hash, i: nat)
    requires i <= |c|
    ensures forall k :: k in c[..i] + [h] + c[i..] <==> k in c || k == h
  {
    assert c == c[..i] + c[i..];
  }

  // ---------------------------------------------------------------------------------------
  // Pruning without a limit
  // ---------------------------------------------------------------------------------------

  predicate Expired(p: Peer, maxAge: int, now: int) {
    || (!p.reachable && p.fails >= 3)
    || (p.lastSeen != ZERO_TIME && now - p.lastSeen > maxAge && !p.reachable)
  }

  /** Only unreachable peers go, after three failures or when they were seen but not for `maxAge`,
      and in a bucket of more than four none of them stays. */
  ghost predicate ExpiredGone(before: Peers, after: Peers, maxAge: int, now: int) {
    && (forall h :: h in before && h !in after ==>
          && !before[h].reachable
          && (before[h].fails >= 3 || (before[h].lastSeen != ZERO_TIME && before[h].lastSeen + maxAge < now)))
    && (forall h :: h in after && Count(after, Bucket(h)) > 4 && !after[h].reachable ==>
          after[h].fails < 3 && (after[h].lastSeen == ZERO_TIME || after[h].lastSeen + maxAge >= now))
  }

  ghost predicate Expiring(before: Peers, now: Peers, rest: set<Hash>, maxAge: int, time: int) {
    && Within(now, before)
    && (forall h :: h in before && h !in now ==> Expired(before[h], maxAge, time))
    && (forall b :: Count(now, b) >= Min(Count(before, b), 4))
    && (forall h :: h in now && h !in rest && Expired(now[h], maxAge, time) ==> Count(now, Bucket(h)) <= 4)
  }

  lemma ExpiringDrop(before: Peers, now: Peers, rest: set<Hash>, h: Hash, maxAge: int, time: int)
    requires Expiring(before, now, rest, maxAge, time)
    requires h in now && Expired(now[h], maxAge, time) && Count(now, Bucket(h)) > 4
    ensures Expiring(before, now - {h}, rest - {h}, maxAge, time)
  {
    hide Expired;
    forall b: nat
      ensures Count(now - {h}, b) == Count(now, b) - if b == Bucket(h) then 1 else 0
    {
      CountDrop(now, h, b);
    }
  }
}
