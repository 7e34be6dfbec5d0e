/** Greedy farthest-point sampling of reseed peers, and how well its choice covers the keyspace. */
module FarthestPoint {
  import opened SharedPrefix

  datatype Peer = Peer(hash: Hash, floodfill: bool, rtt: int, score: real)

  // ---------------------------------------------------------------------------------------
  // The candidate order
  // ---------------------------------------------------------------------------------------

  /** Farther first, then floodfills, lower round trip, higher score, and the hash. */
  predicate Better(sharedA: int, a: Peer, sharedB: int, b: Peer) {
    if sharedA != sharedB then sharedA < sharedB
    else if a.floodfill != b.floodfill then a.floodfill
    else if a.rtt != b.rtt then a.rtt < b.rtt
    else if a.score != b.score then a.score > b.score
    else Before(a.hash, b.hash)
  }

  /** What the order gives a chosen peer over another: it is no nearer; as near, it is a floodfill
      if the other is; both or neither being one, its round trip is no longer; with the same round
      trip its score is no lower; and with the same score the other's hash is not before its own. */
  ghost predicate Preferred(sharedA: int, a: Peer, sharedB: int, b: Peer) {
    && sharedA <= sharedB
    && (sharedA == sharedB && b.floodfill ==> a.floodfill)
    && (sharedA == sharedB && a.floodfill == b.floodfill ==> a.rtt <= b.rtt)
    && (sharedA == sharedB && a.floodfill == b.floodfill && a.rtt == b.rtt ==> a.score >= b.score)
    && (sharedA == sharedB && a.floodfill == b.floodfill && a.rtt == b.rtt && a.score == b.score ==>
          !Before(b.hash, a.hash))
  }

  lemma NotBetterExactly(sharedA: int, a: Peer, sharedB: int, b: Peer)
    ensures Preferred(sharedA, a, sharedB, b) <==> !Better(sharedB, b, sharedA, a)
  {}

  lemma BetterTransitive(sharedA: int, a: Peer, sharedB: int, b: Peer, sharedC: int, c: Peer)
    requires Better(sharedA, a, sharedB, b) && Better(sharedB, b, sharedC, c)
    ensures Better(sharedA, a, sharedC, c)
  {
    if Before(a.hash, b.hash) && Before(b.hash, c.hash) {
      BeforeTransitive(a.hash, b.hash, c.hash);
    }
  }

  // ---------------------------------------------------------------------------------------
  // What a selection is worth
  // ---------------------------------------------------------------------------------------

  ghost predicate Indices(pool: seq<Peer>, selected: seq<nat>) {
    forall n :: 0 <= n < |selected| ==> selected[n] < |pool|
  }

  ghost predicate Distinct(selected: seq<nat>) {
    forall m, n :: 0 <= m < n < |selected| ==> selected[m] != selected[n]
  }

  function Shared(pool: seq<Peer>, i: nat, j: nat): nat
    requires i < |pool| && j < |pool|
  {
    LeadingZerosXOR(pool[i].hash, pool[j].hash)
  }

  lemma SharedSymmetric(pool: seq<Peer>, i: nat, j: nat)
    requires i < |pool| && j < |pool|
    ensures Shared(pool, i, j) == Shared(pool, j, i)
  {
    Symmetric(pool[i].hash, pool[j].hash);
  }

  /** The longest prefix peer `j` shares with a selected one; -1 before the first. */
  ghost function Nearest(pool: seq<Peer>, j: nat, selected: seq<nat>): int
    requires j < |pool| && Indices(pool, selected)
  {
    if selected == [] then -1
    else
      var last := |selected| - 1;
      var before := Nearest(pool, j, selected[..last]);
      if Shared(pool, j, selected[last]) > before then Shared(pool, j, selected[last]) else before
  }

  lemma {:induction false} NearestBounds(pool: seq<Peer>, j: nat, selected: seq<nat>, m: nat)
    requires j < |pool| && Indices(pool, selected) && m < |selected|
    ensures Shared(pool, j, selected[m]) <= Nearest(pool, j, selected)
  {
    if m < |selected| - 1 {
      NearestBounds(pool, j, selected[..|selected| - 1], m);
    }
  }

  lemma {:induction false} NearestReached(pool: seq<Peer>, j: nat, selected: seq<nat>, r: nat)
    requires j < |pool| && Indices(pool, selected)
    requires forall m :: 0 <= m < |selected| ==> Shared(pool, j, selected[m]) < r
    ensures Nearest(pool, j, selected) < r
  {
    if selected != [] {
      var shorter := selected[..|selected| - 1];
      assert forall m :: 0 <= m < |shorter| ==> shorter[m] == selected[m];
      NearestReached(pool, j, shorter, r);
    }
  }

  /** Every peer of the pool shares at least `r` bits with some chosen one. */
  ghost predicate Covers(pool: seq<Peer>, chosen: set<nat>, r: nat) {
    forall j: nat :: j < |pool| ==> Reaches(pool, chosen, j, r)
  }

  ghost predicate Reaches(pool: seq<Peer>, chosen: set<nat>, j: nat, r: nat)
    requires j < |pool|
  {
    exists c: nat :: c in chosen && c < |pool| && Shared(pool, j, c) >= r
  }

  function Elements(selected: seq<nat>): set<nat> {
    set i | i in selected
  }

  function Floodfills(pool: seq<Peer>, selected: seq<nat>): set<nat> {
    set i | i in selected && i < |pool| && pool[i].floodfill
  }

  function Everyone(pool: seq<Peer>): (all: seq<nat>)
    ensures |all| == |pool| && forall i :: 0 <= i < |pool| ==> all[i] == i
  {
    seq(|pool|, i => i)
  }

  function Max(a: int, b: int): int {
    if a < b then b else a
  }

  function Min(a: int, b: int): int {
    if a < b then a else b
  }

  ghost predicate AllFloodfill(pool: seq<Peer>) {
    forall j :: 0 <= j < |pool| ==> pool[j].floodfill
  }

  ghost predicate NoFloodfill(pool: seq<Peer>) {
    forall j :: 0 <= j < |pool| ==> !pool[j].floodfill
  }

  /** The first best scored floodfill, or the first best scored peer when the pool has no floodfill. */
  ghost predicate IsAnchor(pool: seq<Peer>, anchor: nat) {
    && anchor < |pool|
    && (pool[anchor].floodfill || NoFloodfill(pool))
    && forall j: nat :: j < |pool| && (pool[anchor].floodfill ==> pool[j].floodfill) ==>
         pool[j].score <= pool[anchor].score && (j < anchor ==> pool[j].score < pool[anchor].score)
  }

  /** Pick `n` is preferred to every remaining eligible peer. */
  ghost predicate Unbeaten(pool: seq<Peer>, selected: seq<nat>, n: nat, floodfillOnly: bool)
    requires Indices(pool, selected) && n < |selected|
  {
    var earlier := selected[..n];
    && (floodfillOnly ==> pool[selected[n]].floodfill)
    && forall j: nat :: j < |pool| && j !in earlier && (floodfillOnly ==> pool[j].floodfill) ==>
         Preferred(Nearest(pool, selected[n], earlier), pool[selected[n]], Nearest(pool, j, earlier), pool[j])
  }

  /** Pick `n` is farthest from the earlier ones among ALL remaining peers. */
  ghost predicate Farthest(pool: seq<Peer>, selected: seq<nat>, n: nat)
    requires Indices(pool, selected) && n < |selected|
  {
    var earlier := selected[..n];
    forall j: nat :: j < |pool| && j !in earlier ==>
      Nearest(pool, selected[n], earlier) <= Nearest(pool, j, earlier)
  }

  // ---------------------------------------------------------------------------------------
  // Coverage: the greedy choice against any other choice
  // ---------------------------------------------------------------------------------------

  /** Peers that pairwise share fewer than `r` bits need one centre each. */
  lemma {:induction false} Packing(pool: seq<Peer>, apart: seq<nat>, centres: set<nat>, r: nat)
    requires Indices(pool, apart)
    requires forall m, n :: 0 <= m < n < |apart| ==> Shared(pool, apart[m], apart[n]) < r
    requires forall m :: 0 <= m < |apart| ==> Reaches(pool, centres, apart[m], r)
    ensures |apart| <= |centres|
    decreases |apart|
  {
    if apart != [] {
      var rest := apart[1..];
      assert Reaches(pool, centres, apart[0], r);
      var c: nat :| c in centres && c < |pool| && Shared(pool, apart[0], c) >= r;
      forall m | 0 <= m < |rest|
        ensures Reaches(pool, centres - {c}, rest[m], r)
      {
        assert rest[m] == apart[m + 1];
        OtherCentre(pool, apart[0], rest[m], c, centres, r);
      }
      assert forall m, n :: 0 <= m < n < |rest| ==> rest[m] == apart[m + 1] && rest[n] == apart[n + 1];
      Packing(pool, rest, centres - {c}, r);
    }
  }

  lemma OtherCentre(pool: seq<Peer>, i: nat, j: nat, c: nat, centres: set<nat>, r: nat)
    requires i < |pool| && j < |pool| && c < |pool|
    requires Shared(pool, i, j) < r && Shared(pool, i, c) >= r && Reaches(pool, centres, j, r)
    ensures Reaches(pool, centres - {c}, j, r)
  {
    var d: nat :| d in centres && d < |pool| && Shared(pool, j, d) >= r;
    Symmetric(pool[j].hash, pool[c].hash);
    if Shared(pool, c, j) >= r {
      Ultrametric(pool[i].hash, pool[c].hash, pool[j].hash, r);
    }
    assert d in centres - {c};
  }

  /** Any later pick that was farthest, and any peer still uncovered, is as far from the earlier
      picks as the uncovered peer is. */
  lemma FarFromEarlier(pool: seq<Peer>, selected: seq<nat>, n: nat, m: nat, j: nat, r: nat)
    requires Indices(pool, selected) && m < n < |selected| && j < |pool| && j !in selected
    requires Farthest(pool, selected, n)
    requires forall i :: 0 <= i < |selected| ==> Shared(pool, j, selected[i]) < r
    ensures Shared(pool, selected[m], selected[n]) < r
  {
    var earlier := selected[..n];
    assert forall i :: 0 <= i < |earlier| ==> earlier[i] == selected[i];
    NearestReached(pool, j, earlier, r);
    NearestBounds(pool, selected[n], earlier, m);
    SharedSymmetric(pool, selected[m], selected[n]);
  }

  /** The anchor, the picks made over the whole pool from `full` on, and an uncovered peer are
      pairwise far apart. */
  lemma Spread(pool: seq<Peer>, selected: seq<nat>, full: nat, j: nat, r: nat)
    returns (apart: seq<nat>)
    requires Indices(pool, selected) && 1 <= full <= |selected| && j < |pool| && j !in selected
    requires forall n :: full <= n < |selected| ==> Farthest(pool, selected, n)
    requires forall i :: 0 <= i < |selected| ==> Shared(pool, j, selected[i]) < r
    ensures |apart| == |selected| - full + 2 && Indices(pool, apart)
    ensures forall m, n :: 0 <= m < n < |apart| ==> Shared(pool, apart[m], apart[n]) < r
  {
    hide Farthest, Shared;
    apart := [selected[0]] + selected[full..] + [j];
    var last := |apart| - 1;
    forall m, n | 0 <= m < n < |apart|
      ensures Shared(pool, apart[m], apart[n]) < r
    {
      var at := if m == 0 then 0 else full + m - 1;
      assert apart[m] == selected[at];
      if n == last {
        SharedSymmetric(pool, j, selected[at]);
      } else {
        assert apart[n] == selected[full + n - 1];
        FarFromEarlier(pool, selected, full + n - 1, at, j, r);
      }
    }
  }

  /** The anchor and the picks over the whole pool cover the keyspace at least as well as ANY
      choice of no more peers than they are. */
  lemma Optimal(pool: seq<Peer>, selected: seq<nat>, full: nat, rival: set<nat>, r: nat)
    requires Indices(pool, selected) && 1 <= full <= |selected|
    requires forall n :: full <= n < |selected| ==> Farthest(pool, selected, n)
    requires |rival| <= |selected| - full + 1 && Covers(pool, rival, r)
    ensures Covers(pool, Elements(selected), r)
  {
    forall j: nat | j < |pool|
      ensures Reaches(pool, Elements(selected), j, r)
    {
      if !Reaches(pool, Elements(selected), j, r) {
        assert forall i :: 0 <= i < |selected| ==> selected[i] in Elements(selected);
        NotSelected(pool, selected, rival, j, r);
        var apart := Spread(pool, selected, full, j, r);
        Packing(pool, apart, rival, r);
        assert false;
      }
    }
  }

  lemma NotSelected(pool: seq<Peer>, selected: seq<nat>, rival: set<nat>, j: nat, r: nat)
    requires Indices(pool, selected) && j < |pool| && Covers(pool, rival, r)
    requires !Reaches(pool, Elements(selected), j, r)
    ensures j !in selected
  {
    assert Reaches(pool, rival, j, r);
    var c: nat :| c in rival && c < |pool| && Shared(pool, j, c) >= r;
    PrefixExactly(pool[j].hash, pool[c].hash, 0);
    FullPrefix(pool[j].hash, pool[j].hash);
    assert Shared(pool, j, j) >= r;
  }

  // ---------------------------------------------------------------------------------------
  // The sampler
  // ---------------------------------------------------------------------------------------

  /** A distinct choice smaller than the pool leaves a peer out. */
  lemma SomeoneLeft(pool: seq<Peer>, selected: seq<nat>)
    requires Indices(pool, selected) && |selected| < |pool|
    ensures exists j: nat :: j < |pool| && j !in selected
  {
    if forall j: nat :: j < |pool| ==> j in selected {
      var all := Everyone(pool);
      ElementsBound(selected);
      ElementsOfAll(all);
      assert forall j :: j in Elements(all) ==> j in Elements(selected);
      SubsetSize(Elements(all), Elements(selected));
      assert false;
    }
  }

  lemma {:induction false} ElementsBound(selected: seq<nat>)
    ensures |Elements(selected)| <= |selected|
  {
    if selected != [] {
      var shorter := selected[..|selected| - 1];
      ElementsBound(shorter);
      assert Elements(selected) == Elements(shorter) + {selected[|selected| - 1]};
    }
  }

  lemma {:induction false} ElementsOfAll(selected: seq<nat>)
    requires Distinct(selected)
    ensures |Elements(selected)| == |selected|
  {
    if selected != [] {
      var last := |selected| - 1;
      var shorter := selected[..last];
      ElementsOfAll(shorter);
      assert selected[last] !in shorter;
      assert Elements(selected) == Elements(shorter) + {selected[last]};
    }
  }

  lemma {:induction false} SubsetSize(a: set<nat>, b: set<nat>)
    requires a <= b
    ensures |a| <= |b|
  {
    if x: nat :| x in a {
      SubsetSize(a - {x}, b - {x});
    }
  }

  lemma FloodfillAdded(pool: seq<Peer>, selected: seq<nat>, i: nat)
    requires i < |pool| && i !in selected
    ensures |Floodfills(pool, selected + [i])|
         == |Floodfills(pool, selected)| + (if pool[i].floodfill then 1 else 0)
  {
    var after := Floodfills(pool, selected + [i]);
    if pool[i].floodfill {
      assert after == Floodfills(pool, selected) + {i};
    } else {
      assert after == Floodfills(pool, selected);
    }
  }

  class Sampler {
    const pool: seq<Peer>
    const used: array<bool>
    const maxLZ: array<int>
    var selected: seq<nat>

    /** The incrementally kept prefix length of every unused peer is the true one. */
    ghost predicate Valid()
      reads this, used, maxLZ
    {
      && used.Length == |pool| && maxLZ.Length == |pool|
      && Indices(pool, selected) && Distinct(selected)
      && (forall j :: 0 <= j < |pool| ==> (used[j] <==> j in selected))
      && (forall j :: 0 <= j < |pool| && !used[j] ==> maxLZ[j] == Nearest(pool, j, selected))
    }

    constructor (peers: seq<Peer>)
      ensures Valid() && pool == peers && selected == []
      ensures fresh(used) && fresh(maxLZ)
    {
      pool := peers;
      used := new bool[|peers|](_ => false);
      maxLZ := new int[|peers|](_ => -1);
      selected := [];
    }

    method Commit(i: nat)
      requires Valid() && i < |pool| && i !in selected
      modifies `selected, used, maxLZ
      ensures Valid() && selected == old(selected) + [i]
    {
      ghost var before := selected;
      selected := selected + [i];
      used[i] := true;
      assert selected[..|before|] == before;
      for j := 0 to |pool|
        invariant selected == before + [i] && Indices(pool, selected)
        invariant forall m :: 0 <= m < |pool| ==> (used[m] <==> m in selected)
        invariant forall m :: 0 <= m < j && !used[m] ==> maxLZ[m] == Nearest(pool, m, selected)
        invariant forall m :: j <= m < |pool| && !used[m] ==> maxLZ[m] == Nearest(pool, m, before)
      {
        if !used[j] {
          var lz := LeadingZerosXOR(pool[j].hash, pool[i].hash);
          if lz > maxLZ[j] {
            maxLZ[j] := lz;
          }
        }
      }
    }

    /** The best unused peer, among the floodfills only when `floodfillOnly`. */
    method Pick(floodfillOnly: bool) returns (best: int)
      requires Valid()
      ensures best == -1 || 0 <= best < |pool|
      ensures best == -1 <==> forall j: nat :: j < |pool| && j !in selected ==> floodfillOnly && !pool[j].floodfill
      ensures best >= 0 ==> best !in selected && (floodfillOnly ==> pool[best].floodfill)
      ensures best >= 0 ==>
        forall j: nat :: j < |pool| && j !in selected && (floodfillOnly ==> pool[j].floodfill) ==>
          Preferred(Nearest(pool, best, selected), pool[best], Nearest(pool, j, selected), pool[j])
    {
      best := -1;
      for i := 0 to |pool|
        invariant best == -1 || 0 <= best < i
        invariant best == -1 ==> forall j: nat :: j < i && !used[j] ==> floodfillOnly && !pool[j].floodfill
        invariant best >= 0 ==> !used[best] && (floodfillOnly ==> pool[best].floodfill)
        invariant best >= 0 ==>
          forall j: nat :: j < i && !used[j] && (floodfillOnly ==> pool[j].floodfill) ==>
            !Better(maxLZ[j], pool[j], maxLZ[best], pool[best])
      {
        if !used[i] && (floodfillOnly ==> pool[i].floodfill) {
          if best == -1 || Better(maxLZ[i], pool[i], maxLZ[best], pool[best]) {
            ghost var was := best;
            best := i;
            NotBeforeItself(pool[i].hash);
            forall j: nat | j < i && !used[j] && (floodfillOnly ==> pool[j].floodfill)
              ensures !Better(maxLZ[j], pool[j], maxLZ[i], pool[i])
            {
              if Better(maxLZ[j], pool[j], maxLZ[i], pool[i]) {
                BetterTransitive(maxLZ[j], pool[j], maxLZ[i], pool[i], maxLZ[was], pool[was]);
              }
            }
          }
        }
      }
    }

    /** The best scored floodfill, or the best scored peer when there is no floodfill; the first of
        them at the same score. */
    method Anchor() returns (anchor: nat)
      requires Valid() && pool != []
      ensures IsAnchor(pool, anchor)
    {
      var floodfillOnly := exists j | 0 <= j < |pool| :: pool[j].floodfill;
      var best := -1;
      for i := 0 to |pool|
        invariant best == -1 || 0 <= best < i
        invariant best == -1 ==> forall j: nat :: j < i ==> floodfillOnly && !pool[j].floodfill
        invariant best >= 0 ==> (floodfillOnly ==> pool[best].floodfill)
        invariant best >= 0 ==>
          forall j: nat :: j < i && (floodfillOnly ==> pool[j].floodfill) ==>
            pool[j].score <= pool[best].score && (j < best ==> pool[j].score < pool[best].score)
      {
        if floodfillOnly ==> pool[i].floodfill {
          if best == -1 || pool[i].score > pool[best].score {
            best := i;
          }
        }
      }
      assert !floodfillOnly ==> !pool[0].floodfill;
      anchor := best;
    }

    /** Floodfills until their quota, the target or the floodfills are used up. */
    method FillQuota(k: nat, ffTarget: int, start: nat)
      requires Valid() && |selected| <= k && start == |Floodfills(pool, selected)|
      modifies `selected, used, maxLZ
      ensures Valid() && old(selected) <= selected && |selected| <= k
      ensures |Floodfills(pool, selected)| - start == |selected| - |old(selected)|
      ensures |Floodfills(pool, selected)| >= ffTarget || |selected| == k
           || Floodfills(pool, Everyone(pool)) <= Floodfills(pool, selected)
      ensures |Floodfills(pool, selected)| <= Max(start, ffTarget)
      ensures forall n :: |old(selected)| <= n < |selected| ==> Unbeaten(pool, selected, n, true)
    {
      var floodfills := start;
      while floodfills < ffTarget && |selected| < k
        invariant Valid() && old(selected) <= selected && |selected| <= k
        invariant floodfills == |Floodfills(pool, selected)| <= Max(start, ffTarget)
        invariant floodfills - start == |selected| - |old(selected)|
        invariant forall n :: |old(selected)| <= n < |selected| ==> Unbeaten(pool, selected, n, true)
        decreases k - |selected|
      {
        var i := Pick(true);
        if i < 0 {
          break;
        }
        FloodfillAdded(pool, selected, i);
        ghost var before := selected;
        Commit(i);
        StillUnbeaten(pool, before, i, |old(selected)|, true);
        floodfills := floodfills + 1;
      }
    }

    /** Any peers, until the target, which is always reached. */
    method FillRest(k: nat)
      requires Valid() && |selected| <= k <= |pool|
      modifies `selected, used, maxLZ
      ensures Valid() && old(selected) <= selected && |selected| == k
      ensures forall n :: |old(selected)| <= n < |selected| ==> Unbeaten(pool, selected, n, false)
    {
      while |selected| < k
        invariant Valid() && old(selected) <= selected && |selected| <= k
        invariant forall n :: |old(selected)| <= n < |selected| ==> Unbeaten(pool, selected, n, false)
        decreases k - |selected|
      {
        SomeoneLeft(pool, selected);
        var i := Pick(false);
        ghost var before := selected;
        Commit(i);
        StillUnbeaten(pool, before, i, |old(selected)|, false);
      }
    }
  }

  lemma StillUnbeaten(pool: seq<Peer>, before: seq<nat>, i: nat, from: nat, floodfillOnly: bool)
    requires Indices(pool, before) && i < |pool| && (floodfillOnly ==> pool[i].floodfill)
    requires forall n :: from <= n < |before| ==> Unbeaten(pool, before, n, floodfillOnly)
    requires forall j: nat :: j < |pool| && j !in before && (floodfillOnly ==> pool[j].floodfill) ==>
               Preferred(Nearest(pool, i, before), pool[i], Nearest(pool, j, before), pool[j])
    ensures Indices(pool, before + [i])
    ensures forall n :: from <= n < |before| + 1 ==> Unbeaten(pool, before + [i], n, floodfillOnly)
  {
    var after := before + [i];
    forall n | from <= n < |after|
      ensures Unbeaten(pool, after, n, floodfillOnly)
    {
      assert after[..n] == before[..n];
      if n == |before| {
        assert before[..n] == before;
      } else {
        assert Unbeaten(pool, before, n, floodfillOnly);
      }
    }
  }

  /** How many peers a rival choice may have and still not cover better than this one. */
  ghost predicate Rival(pool: seq<Peer>, k: nat, quota: nat, size: nat) {
    || size + quota <= k + 1
    || ((AllFloodfill(pool) || NoFloodfill(pool)) && size <= k)
  }

  method Sample(pool: seq<Peer>, target: nat, ffTarget: int) 
    returns (out: seq<Peer>, selected: seq<nat>, quota: nat)
    requires pool != [] && target >= 1
    ensures Indices(pool, selected) && Distinct(selected)
    ensures |selected| == Min(target, |pool|)
    ensures |out| == |selected| && forall n :: 0 <= n < |out| ==> out[n] == pool[selected[n]]
    ensures |Floodfills(pool, selected)|
         >= Min(ffTarget, Min(|selected|, |Floodfills(pool, Everyone(pool))|))
    ensures 1 <= quota <= |selected| && quota <= Max(1, ffTarget) && IsAnchor(pool, selected[0])
    ensures forall n :: 1 <= n < quota ==> Unbeaten(pool, selected, n, true)
    ensures forall n :: quota <= n < |selected| ==> Unbeaten(pool, selected, n, false)
    ensures forall rival: set<nat>, r: nat ::
              Rival(pool, |selected|, quota, |rival|) && Covers(pool, rival, r) ==>
              Covers(pool, Elements(selected), r)
  {
    hide Nearest, Covers, Rival, Unbeaten;
    var k := Min(target, |pool|);
    var sampler := new Sampler(pool);
    var anchor := sampler.Anchor();
    FloodfillAdded(pool, [], anchor);
    sampler.Commit(anchor);
    sampler.FillQuota(k, ffTarget, if pool[anchor].floodfill then 1 else 0);
    ghost var early := sampler.selected;
    quota := |sampler.selected|;
    sampler.FillRest(k);
    selected := sampler.selected;
    out := seq(|selected|, n requires 0 <= n < |selected| && Indices(pool, selected) => pool[selected[n]]);
    QuotaKept(pool, early, selected);
    forall n | 1 <= n < quota
      ensures Unbeaten(pool, selected, n, true)
    {
      PrefixUnbeaten(pool, early, selected, n);
    }
    Covered(pool, quota, selected);
  }

  lemma QuotaKept(pool: seq<Peer>, quota: seq<nat>, selected: seq<nat>)
    requires quota <= selected
    ensures |Floodfills(pool, quota)| <= |Floodfills(pool, selected)|
    ensures Floodfills(pool, Everyone(pool)) <= Floodfills(pool, quota) ==>
              |Floodfills(pool, Everyone(pool))| <= |Floodfills(pool, quota)|
  {
    SubsetSize(Floodfills(pool, quota), Floodfills(pool, selected));
    if Floodfills(pool, Everyone(pool)) <= Floodfills(pool, quota) {
      SubsetSize(Floodfills(pool, Everyone(pool)), Floodfills(pool, quota));
    }
  }

  lemma PrefixUnbeaten(pool: seq<Peer>, early: seq<nat>, selected: seq<nat>, n: nat)
    requires Indices(pool, selected) && early <= selected && n < |early|
    requires Unbeaten(pool, early, n, true)
    ensures Unbeaten(pool, selected, n, true)
  {
    assert early[..n] == selected[..n];
  }

  lemma UnbeatenFarthest(pool: seq<Peer>, selected: seq<nat>, n: nat, floodfillOnly: bool)
    requires Indices(pool, selected) && n < |selected| && Unbeaten(pool, selected, n, floodfillOnly)
    requires floodfillOnly ==> AllFloodfill(pool) || NoFloodfill(pool)
    ensures Farthest(pool, selected, n)
  {
    var earlier, i := selected[..n], selected[n];
    forall j: nat | j < |pool| && j !in earlier
      ensures Nearest(pool, i, earlier) <= Nearest(pool, j, earlier)
    {
      assert floodfillOnly ==> pool[j].floodfill == pool[i].floodfill;
      assert Preferred(Nearest(pool, i, earlier), pool[i], Nearest(pool, j, earlier), pool[j]);
    }
  }

  lemma Covered(pool: seq<Peer>, quota: nat, selected: seq<nat>)
    requires Indices(pool, selected) && 1 <= quota <= |selected|
    requires forall n :: 1 <= n < quota ==> Unbeaten(pool, selected, n, true)
    requires forall n :: quota <= n < |selected| ==> Unbeaten(pool, selected, n, false)
    ensures forall rival: set<nat>, r: nat ::
              Rival(pool, |selected|, quota, |rival|) && Covers(pool, rival, r) ==>
              Covers(pool, Elements(selected), r)
  {
    var full := if AllFloodfill(pool) || NoFloodfill(pool) then 1 else quota;
    forall n | full <= n < |selected|
      ensures Farthest(pool, selected, n)
    {
      UnbeatenFarthest(pool, selected, n, n < quota);
    }
    forall rival: set<nat>, r: nat | Rival(pool, |selected|, quota, |rival|) && Covers(pool, rival, r)
      ensures Covers(pool, Elements(selected), r)
    {
      Optimal(pool, selected, full, rival, r);
    }
  }
}
