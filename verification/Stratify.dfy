/** Ordering of the reseed archive: round-robin over the 256 keyspace buckets. */
module Stratify {
  import opened SharedPrefix

  const BUCKETS: nat := 256

  datatype Peer = Peer(hash: Hash, floodfill: bool, tunnelBuild: bool, score: real, rtt: int)

  function Bucket(p: Peer): (b: nat)
    ensures b < BUCKETS
  {
    p.hash[0] as nat
  }

  // ---------------------------------------------------------------------------------------
  // The order inside a bucket
  // ---------------------------------------------------------------------------------------

  /** The comparison inside a bucket is not positive. */
  predicate InOrder(a: Peer, b: Peer) {
    if a.floodfill != b.floodfill then a.floodfill
    else if a.tunnelBuild != b.tunnelBuild then a.tunnelBuild
    else if a.score != b.score then a.score > b.score
    else a.rtt <= b.rtt
  }

  /** What the order inside a bucket means: floodfills first, then peers that accepted a tunnel build,
      then by falling score, then by rising round trip. */
  ghost predicate Ahead(a: Peer, b: Peer) {
    && (b.floodfill ==> a.floodfill)
    && (a.floodfill == b.floodfill && b.tunnelBuild ==> a.tunnelBuild)
    && (a.floodfill == b.floodfill && a.tunnelBuild == b.tunnelBuild ==> a.score >= b.score)
    && (a.floodfill == b.floodfill && a.tunnelBuild == b.tunnelBuild && a.score == b.score ==> a.rtt <= b.rtt)
  }

  ghost predicate Sorted(s: seq<Peer>) {
    forall i, j :: 0 <= i < j < |s| ==> InOrder(s[i], s[j])
  }

  method Insert(s: seq<Peer>, p: Peer) returns (r: seq<Peer>)
    requires Sorted(s)
    ensures Sorted(r) && multiset(r) == multiset(s) + multiset{p}
  {
    var k := |s|;
    while k > 0 && !InOrder(s[k - 1], p)
      invariant 0 <= k <= |s|
      invariant forall i :: k <= i < |s| ==> InOrder(p, s[i])
    {
      k := k - 1;
    }
    r := s[..k] + [p] + s[k..];
    assert s == s[..k] + s[k..];
    InsertedSorted(s, p, k);
  }

  lemma InsertedSorted(s: seq<Peer>, p: Peer, k: nat)
    requires Sorted(s) && k <= |s|
    requires k > 0 ==> InOrder(s[k - 1], p)
    requires forall i :: k <= i < |s| ==> InOrder(p, s[i])
    ensures Sorted(s[..k] + [p] + s[k..])
  {
    var r := s[..k] + [p] + s[k..];
    forall i | 0 <= i < k
      ensures InOrder(s[i], p)
    {
      assert i < k - 1 ==> InOrder(s[i], s[k - 1]);
    }
    hide InOrder;
    forall i, j | 0 <= i < j < |r|
      ensures InOrder(r[i], r[j])
    {
      assert i < k ==> r[i] == s[i];
      assert i > k ==> r[i] == s[i - 1];
      assert j < k ==> r[j] == s[j];
      assert j > k ==> r[j] == s[j - 1];
    }
  }

  /** Some sort of a bucket: which of the sorted permutations is left open. */
  method Sort(s: seq<Peer>) returns (r: seq<Peer>)
    ensures Sorted(r) && multiset(r) == multiset(s)
  {
    r := [];
    for i := 0 to |s|
      invariant Sorted(r) && multiset(r) == multiset(s[..i])
    {
      assert s[..i + 1] == s[..i] + [s[i]];
      r := Insert(r, s[i]);
    }
    assert s[..|s|] == s;
  }

  // ---------------------------------------------------------------------------------------
  // Buckets of a list
  // ---------------------------------------------------------------------------------------

  /** The peers of one bucket, in list order. */
  function Project(s: seq<Peer>, b: nat): seq<Peer> {
    if s == [] then []
    else
      var rest := Project(s[..|s| - 1], b);
      if Bucket(s[|s| - 1]) == b then rest + [s[|s| - 1]] else rest
  }

  lemma ProjectAppend(s: seq<Peer>, p: Peer, b: nat)
    ensures Project(s + [p], b) == if Bucket(p) == b then Project(s, b) + [p] else Project(s, b)
  {
    assert (s + [p])[..|s|] == s;
  }

  lemma {:induction false} ProjectCount(s: seq<Peer>, b: nat, p: Peer)
    ensures multiset(Project(s, b))[p] == if Bucket(p) == b then multiset(s)[p] else 0
  {
    if s != [] {
      var rest, last := s[..|s| - 1], s[|s| - 1];
      assert s == rest + [last];
      ProjectCount(rest, b, p);
      ProjectAppend(rest, last, b);
    }
  }

  lemma FullPart(a: multiset<Peer>, b: multiset<Peer>)
    requires a <= b && |a| >= |b|
    ensures a == b
  {
    var rest := b - a;
    assert b == a + rest;
    assert |rest| == 0;
    assert rest == multiset{};
  }

  /** Lists whose buckets are parts of the other list's buckets are parts of that list. */
  lemma PartOfList(s: seq<Peer>, t: seq<Peer>)
    requires forall b: nat :: b < BUCKETS ==> multiset(Project(s, b)) <= multiset(Project(t, b))
    ensures multiset(s) <= multiset(t)
  {
    forall p: Peer
      ensures multiset(s)[p] <= multiset(t)[p]
    {
      ProjectCount(s, Bucket(p), p);
      ProjectCount(t, Bucket(p), p);
    }
  }

  // ---------------------------------------------------------------------------------------
  // Round robin
  // ---------------------------------------------------------------------------------------

  /** How many earlier peers of the list are in the same bucket. */
  function Rank(s: seq<Peer>, i: nat): nat
    requires i < |s|
  {
    |Project(s[..i], Bucket(s[i]))|
  }

  predicate Earlier(rank: nat, bucket: nat, rank': nat, bucket': nat) {
    rank < rank' || (rank == rank' && bucket < bucket')
  }

  /** The list goes round by round, and through the buckets in each round. */
  ghost predicate RoundRobin(s: seq<Peer>) {
    forall i, j :: 0 <= i < j < |s| ==>
      Earlier(Rank(s, i), Bucket(s[i]), Rank(s, j), Bucket(s[j]))
  }

  ghost predicate AllEarlier(s: seq<Peer>, round: nat, b: nat) {
    forall i :: 0 <= i < |s| ==> Earlier(Rank(s, i), Bucket(s[i]), round, b)
  }

  lemma RoundRobinAppend(s: seq<Peer>, p: Peer, round: nat)
    requires RoundRobin(s) && AllEarlier(s, round, Bucket(p)) && |Project(s, Bucket(p))| == round
    ensures RoundRobin(s + [p]) && AllEarlier(s + [p], round, Bucket(p) + 1)
  {
    var t := s + [p];
    assert t[..|s|] == s;
    assert Rank(t, |s|) == round;
    forall i | 0 <= i < |s|
      ensures Rank(t, i) == Rank(s, i)
    {
      assert t[..i] == s[..i];
    }
  }

  /** The state after some buckets of a round: full rounds before `b`, one less from `b` on. */
  ghost predicate Dealt(result: seq<Peer>, buckets: seq<seq<Peer>>, counts: seq<nat>, round: nat, b: nat)
    requires |buckets| == |counts| == BUCKETS
  {
    && RoundRobin(result) && AllEarlier(result, round, b)
    && (forall c :: 0 <= c < BUCKETS ==> counts[c] <= |buckets[c]| && Project(result, c) == buckets[c][..counts[c]])
    && (forall c :: 0 <= c < b && c < BUCKETS ==> counts[c] == Min(|buckets[c]|, round + 1))
    && (forall c :: b <= c < BUCKETS ==> counts[c] == Min(|buckets[c]|, round))
  }

  function Min(a: int, b: int): int {
    if a < b then a else b
  }

  ghost predicate Bucketed(buckets: seq<seq<Peer>>) {
    && |buckets| == BUCKETS
    && forall c, i :: 0 <= c < BUCKETS && 0 <= i < |buckets[c]| ==> Bucket(buckets[c][i]) == c
  }

  lemma DealtPeer(result: seq<Peer>, buckets: seq<seq<Peer>>, counts: seq<nat>, round: nat, b: nat)
    requires Bucketed(buckets) && |counts| == BUCKETS && b < BUCKETS
    requires Dealt(result, buckets, counts, round, b) && counts[b] < |buckets[b]|
    ensures Dealt(result + [buckets[b][counts[b]]], buckets, counts[b := counts[b] + 1], round, b + 1)
  {
    hide RoundRobin, AllEarlier, Bucket, Project;
    var p, after := buckets[b][counts[b]], counts[b := counts[b] + 1];
    assert counts[b] == round;
    RoundRobinAppend(result, p, round);
    forall c: nat | c < BUCKETS
      ensures after[c] <= |buckets[c]| && Project(result + [p], c) == buckets[c][..after[c]]
    {
      ProjectAppend(result, p, c);
    }
  }

  /** One round over all buckets. */
  method Deal(buckets: seq<seq<Peer>>, pointers: array<nat>, result: seq<Peer>, ghost round: nat)
    returns (out: seq<Peer>, added: bool)
    requires Bucketed(buckets) && pointers.Length == BUCKETS
    requires Dealt(result, buckets, pointers[..], round, 0)
    modifies pointers
    ensures Dealt(out, buckets, pointers[..], round + 1, 0)
    ensures added ==> |out| > |result|
    ensures !added ==> out == result && forall c :: 0 <= c < BUCKETS ==> pointers[c] == |buckets[c]|
  {
    hide RoundRobin, AllEarlier, Bucket, Project;
    out, added := result, false;
    for b := 0 to BUCKETS
      invariant Dealt(out, buckets, pointers[..], round, b)
      invariant added ==> |out| > |result|
      invariant !added ==> out == result && forall c :: 0 <= c < b ==> pointers[c] == |buckets[c]|
    {
      ghost var counts := pointers[..];
      if pointers[b] < |buckets[b]| {
        DealtPeer(out, buckets, counts, round, b);
        out := out + [buckets[b][pointers[b]]];
        pointers[b] := pointers[b] + 1;
        assert pointers[..] == counts[b := counts[b] + 1];
        added := true;
      } else {
        SkipBucket(out, buckets, counts, round, b);
      }
    }
    NextRound(out, buckets, pointers[..], round);
  }

  lemma SkipBucket(result: seq<Peer>, buckets: seq<seq<Peer>>, counts: seq<nat>, round: nat, b: nat)
    requires |buckets| == |counts| == BUCKETS && b < BUCKETS
    requires Dealt(result, buckets, counts, round, b) && counts[b] >= |buckets[b]|
    ensures Dealt(result, buckets, counts, round, b + 1)
  {
    assert forall i :: 0 <= i < |result| ==> Earlier(Rank(result, i), Bucket(result[i]), round, b);
  }

  lemma NextRound(result: seq<Peer>, buckets: seq<seq<Peer>>, counts: seq<nat>, round: nat)
    requires |buckets| == |counts| == BUCKETS && Dealt(result, buckets, counts, round, BUCKETS)
    ensures Dealt(result, buckets, counts, round + 1, 0)
  {
    assert forall i :: 0 <= i < |result| ==> Earlier(Rank(result, i), Bucket(result[i]), round, BUCKETS);
  }

  /** The buckets of the list, each sorted. */
  method SortedBuckets(peers: seq<Peer>) returns (sorted: seq<seq<Peer>>)
    ensures Bucketed(sorted)
    ensures forall b :: 0 <= b < BUCKETS ==>
              Sorted(sorted[b]) && multiset(sorted[b]) == multiset(Project(peers, b))
  {
    hide InOrder, Bucket;
    var buckets := seq(BUCKETS, _ => []);
    for i := 0 to |peers|
      invariant |buckets| == BUCKETS
      invariant forall b :: 0 <= b < BUCKETS ==> buckets[b] == Project(peers[..i], b)
    {
      assert peers[..i + 1] == peers[..i] + [peers[i]];
      forall b: nat | b < BUCKETS
        ensures Project(peers[..i + 1], b)
             == if Bucket(peers[i]) == b then buckets[b] + [peers[i]] else buckets[b]
      {
        ProjectAppend(peers[..i], peers[i], b);
      }
      var b := Bucket(peers[i]);
      buckets := buckets[b := buckets[b] + [peers[i]]];
    }
    assert peers[..|peers|] == peers;
    sorted := [];
    for b := 0 to BUCKETS
      invariant |sorted| == b
      invariant forall c :: 0 <= c < b ==>
                  Sorted(sorted[c]) && multiset(sorted[c]) == multiset(Project(peers, c))
    {
      var one := Sort(buckets[b]);
      sorted := sorted + [one];
    }
    forall c: nat, i: nat | c < BUCKETS && i < |sorted[c]|
      ensures Bucket(sorted[c][i]) == c
    {
      assert sorted[c][i] in multiset(sorted[c]);
      ProjectCount(peers, c, sorted[c][i]);
    }
  }

  lemma MultisetPrefix(s: seq<Peer>, k: nat)
    requires k <= |s|
    ensures multiset(s[..k]) <= multiset(s)
  {
    assert s == s[..k] + s[k..];
  }

  /** All dealt: nothing is lost or repeated. */
  lemma Complete(peers: seq<Peer>, result: seq<Peer>, buckets: seq<seq<Peer>>, counts: seq<nat>)
    requires |buckets| == |counts| == BUCKETS
    requires forall b :: 0 <= b < BUCKETS ==>
               counts[b] <= |buckets[b]| && Project(result, b) == buckets[b][..counts[b]]
    requires forall b :: 0 <= b < BUCKETS ==> multiset(buckets[b]) == multiset(Project(peers, b))
    requires |result| >= |peers| || forall b :: 0 <= b < BUCKETS ==> counts[b] == |buckets[b]|
    ensures multiset(result) == multiset(peers)
  {
    hide Bucket, Project;
    forall b: nat | b < BUCKETS
      ensures multiset(Project(result, b)) <= multiset(Project(peers, b))
    {
      MultisetPrefix(buckets[b], counts[b]);
    }
    PartOfList(result, peers);
    if |result| >= |peers| {
      FullPart(multiset(result), multiset(peers));
    } else {
      forall b: nat | b < BUCKETS
        ensures multiset(Project(peers, b)) <= multiset(Project(result, b))
      {
        assert buckets[b][..counts[b]] == buckets[b];
      }
      PartOfList(peers, result);
    }
  }

  // ---------------------------------------------------------------------------------------
  // What the order is for
  // ---------------------------------------------------------------------------------------

  function BucketsOf(s: seq<Peer>): set<nat> {
    set p | p in s :: Bucket(p)
  }

  /** The next peer of bucket `b` at or after position `n`. */
  lemma {:induction false} NextOf(s: seq<Peer>, n: nat, b: nat) returns (j: nat)
    requires n <= |s| && |Project(s[..n], b)| < |Project(s, b)|
    ensures n <= j < |s| && Bucket(s[j]) == b && Rank(s, j) == |Project(s[..n], b)|
    decreases |s| - n
  {
    assert s[..|s|] == s;
    if Bucket(s[n]) == b {
      j := n;
    } else {
      assert s[..n + 1] == s[..n] + [s[n]];
      ProjectAppend(s[..n], s[n], b);
      j := NextOf(s, n + 1, b);
    }
  }

  /** The last peer of bucket `b` before position `n`. */
  lemma {:induction false} LastOf(s: seq<Peer>, n: nat, b: nat) returns (i: nat)
    requires n <= |s| && Project(s[..n], b) != []
    ensures i < n && Bucket(s[i]) == b && Rank(s, i) == |Project(s[..n], b)| - 1
  {
    assert s[..n] == s[..n - 1] + [s[n - 1]];
    ProjectAppend(s[..n - 1], s[n - 1], b);
    if Bucket(s[n - 1]) == b {
      i := n - 1;
    } else {
      i := LastOf(s, n - 1, b);
    }
  }

  /** In every prefix no bucket is more than one peer ahead of a bucket that has peers left. */
  lemma Fair(s: seq<Peer>, n: nat, a: nat, b: nat)
    requires RoundRobin(s) && n <= |s|
    ensures |Project(s[..n], a)| <= |Project(s[..n], b)| + 1
         || |Project(s[..n], b)| >= |Project(s, b)|
  {
    if |Project(s[..n], b)| < |Project(s, b)| && Project(s[..n], a) != [] {
      var i := LastOf(s, n, a);
      var j := NextOf(s, n, b);
      assert Earlier(Rank(s, i), Bucket(s[i]), Rank(s, j), Bucket(s[j]));
    }
  }

  lemma {:induction false} BucketsBound(s: seq<Peer>)
    ensures |BucketsOf(s)| <= |s|
  {
    if s != [] {
      var rest, last := s[..|s| - 1], s[|s| - 1];
      BucketsBound(rest);
      assert BucketsOf(s) == BucketsOf(rest) + {Bucket(last)};
    }
  }

  lemma {:induction false} ProjectMember(s: seq<Peer>, i: nat)
    requires i < |s|
    ensures Project(s, Bucket(s[i])) != []
  {
    if i < |s| - 1 {
      ProjectMember(s[..|s| - 1], i);
    }
  }

  lemma BucketInUse(s: seq<Peer>, b: nat)
    requires b in BucketsOf(s)
    ensures Project(s, b) != []
  {
    hide Project, Bucket;
    var p :| p in s && Bucket(p) == b;
    var at :| 0 <= at < |s| && s[at] == p;
    ProjectMember(s, at);
  }

  lemma BucketSeen(s: seq<Peer>, f: nat, j: nat)
    requires f < j <= |s|
    ensures Bucket(s[f]) in BucketsOf(s[..j])
  {
    hide Bucket;
    assert s[..j][f] == s[f];
  }

  /** A repeated bucket comes only after every bucket has been seen. */
  lemma RepeatAfterAll(s: seq<Peer>, i: nat, j: nat, b: nat)
    requires RoundRobin(s) && i < j < |s| && Bucket(s[i]) == Bucket(s[j]) && b in BucketsOf(s)
    ensures b in BucketsOf(s[..j])
  {
    ProjectMember(s[..j], i);
    assert Rank(s, j) > 0;
    BucketInUse(s, b);
    var f := NextOf(s, 0, b);
    assert Rank(s, f) == 0;
    hide Bucket, Project, Rank, BucketsOf;
    BucketSeen(s, if f < j then f else 0, j);
  }

  /** The first peers, as many as there are buckets in use, are all in different buckets. */
  lemma DistinctFirst(s: seq<Peer>, i: nat, j: nat)
    requires RoundRobin(s) && i < j < |s| && j < |BucketsOf(s)|
    ensures Bucket(s[i]) != Bucket(s[j])
  {
    if Bucket(s[i]) == Bucket(s[j]) {
      forall b: nat | b in BucketsOf(s)
        ensures b in BucketsOf(s[..j])
      {
        RepeatAfterAll(s, i, j, b);
      }
      assert BucketsOf(s[..j]) == BucketsOf(s);
      BucketsBound(s[..j]);
      assert false;
    }
  }

  /** The peers of a bucket stand in the list as they do in the bucket. */
  lemma {:induction false} PlaceInBucket(s: seq<Peer>, i: nat)
    requires i < |s|
    ensures Rank(s, i) < |Project(s, Bucket(s[i]))| && Project(s, Bucket(s[i]))[Rank(s, i)] == s[i]
    decreases |s|
  {
    var rest, last := s[..|s| - 1], s[|s| - 1];
    hide Bucket;
    assert s == rest + [last];
    ProjectAppend(rest, last, Bucket(s[i]));
    if i < |s| - 1 {
      assert rest[..i] == s[..i];
      PlaceInBucket(rest, i);
    }
  }

  lemma {:induction false} RankGrows(s: seq<Peer>, i: nat, j: nat)
    requires i < j < |s| && Bucket(s[i]) == Bucket(s[j])
    ensures Rank(s, i) < Rank(s, j)
  {
    hide Bucket;
    assert s[..j][..i] == s[..i] && s[..j][i] == s[i];
    PlaceInBucket(s[..j], i);
  }

  lemma AheadInBuckets(s: seq<Peer>)
    requires forall b: nat :: b < BUCKETS ==> Sorted(Project(s, b))
    ensures forall i, j :: 0 <= i < j < |s| && Bucket(s[i]) == Bucket(s[j]) ==> Ahead(s[i], s[j])
  {
    forall i, j | 0 <= i < j < |s| && Bucket(s[i]) == Bucket(s[j])
      ensures Ahead(s[i], s[j])
    {
      PlaceInBucket(s, i);
      PlaceInBucket(s, j);
      RankGrows(s, i, j);
      hide Project, Rank;
      assert InOrder(s[i], s[j]);
    }
  }

  method StratifyByBucketDiversity(peers: seq<Peer>) returns (result: seq<Peer>)
    ensures multiset(result) == multiset(peers)
    ensures forall b :: 0 <= b < BUCKETS ==> Sorted(Project(result, b))
    ensures forall i, j :: 0 <= i < j < |result| && Bucket(result[i]) == Bucket(result[j]) ==> Ahead(result[i], result[j])
    ensures RoundRobin(result)
    ensures forall i, j :: 0 <= i < j < |result| && j < |BucketsOf(peers)| ==> Bucket(result[i]) != Bucket(result[j])
  {
    hide Sorted, Project, RoundRobin, Dealt, Bucket, BucketsOf, Ahead;
    if |peers| <= 1 {
      result := peers;
      OneOrNone(peers);
      return;
    }
    result := [];
    var buckets := SortedBuckets(peers);
    var pointers := new nat[BUCKETS](_ => 0);
    ghost var round := 0;
    NoneDealt(buckets, pointers[..]);
    while |result| < |peers|
      invariant Dealt(result, buckets, pointers[..], round, 0)
      decreases |peers| - |result|
    {
      var added;
      result, added := Deal(buckets, pointers, result, round);
      round := round + 1;
      if !added {
        break;
      }
    }
    AllDealt(peers, result, buckets, pointers[..], round);
  }

  lemma OneOrNone(peers: seq<Peer>)
    requires |peers| <= 1
    ensures RoundRobin(peers) && forall b :: 0 <= b < BUCKETS ==> Sorted(Project(peers, b))
  {
    assert forall b: nat :: b < BUCKETS ==> |Project(peers, b)| <= 1;
  }

  lemma NoneDealt(buckets: seq<seq<Peer>>, counts: seq<nat>)
    requires |buckets| == |counts| == BUCKETS && forall c :: 0 <= c < BUCKETS ==> counts[c] == 0
    ensures Dealt([], buckets, counts, 0, 0)
  {}

  lemma AllDealt(peers: seq<Peer>, result: seq<Peer>, buckets: seq<seq<Peer>>, counts: seq<nat>, round: nat)
    requires |buckets| == |counts| == BUCKETS && Dealt(result, buckets, counts, round, 0)
    requires forall b :: 0 <= b < BUCKETS ==>
               Sorted(buckets[b]) && multiset(buckets[b]) == multiset(Project(peers, b))
    requires |result| >= |peers| || forall b :: 0 <= b < BUCKETS ==> counts[b] == |buckets[b]|
    ensures multiset(result) == multiset(peers) && RoundRobin(result)
    ensures forall b :: 0 <= b < BUCKETS ==> Sorted(Project(result, b))
    ensures forall i, j :: 0 <= i < j < |result| && Bucket(result[i]) == Bucket(result[j]) ==> Ahead(result[i], result[j])
    ensures forall i, j :: 0 <= i < j < |result| && j < |BucketsOf(peers)| ==> Bucket(result[i]) != Bucket(result[j])
  {
    hide Project, Bucket, BucketsOf, RoundRobin, InOrder, Ahead;
    Complete(peers, result, buckets, counts);
    SameBuckets(peers, result);
    forall b: nat | b < BUCKETS
      ensures Sorted(Project(result, b))
    {
      assert Project(result, b) == buckets[b][..counts[b]];
    }
    hide Sorted, Dealt;
    AheadInBuckets(result);
    forall i, j | 0 <= i < j < |result| && j < |BucketsOf(peers)|
      ensures Bucket(result[i]) != Bucket(result[j])
    {
      DistinctFirst(result, i, j);
    }
  }

  lemma SameBuckets(s: seq<Peer>, t: seq<Peer>)
    requires multiset(s) == multiset(t)
    ensures BucketsOf(s) == BucketsOf(t)
  {
    assert forall p :: p in s <==> p in multiset(s);
    assert forall p :: p in t <==> p in multiset(t);
  }
}
