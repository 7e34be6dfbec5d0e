/** The reseed peer store: a map of peers with two indexes kept beside it. */
module PeerStore {
  import opened SharedPrefix
  import opened Retention
  import opened Eviction

  const TWO_HOURS: int := 7_200_000_000_000
  const MILLISECOND: int := 1_000_000
  const ZERO_HASH: Hash := seq(32, _ => 0)

  datatype Option<T> = None | Some(value: T)

  /** A parsed router info; times are nanoseconds, publication dates milliseconds. */
  datatype Info = Info(
    hash: Hash, published: int, floodfill: bool, addresses: seq<Address>, family: string, transports: Transports)

  /** Which of the two transports have a dialable address. */
  datatype Transports = Transports(ntcp2: bool, ssu2: bool)

  /** A record read from a file: a missing first sighting becomes the last one, and missing transport
      flags are taken from the descriptor if it parses. */
  function Restored(p: Peer, parse: Peer -> Option<Transports>): (q: Peer)
    ensures q == p.(firstSeen := q.firstSeen, ntcp2 := q.ntcp2, ssu2 := q.ssu2) && Groups(q) == Groups(p)
    ensures q.firstSeen == ZERO_TIME ==> q.lastSeen == ZERO_TIME
    ensures q.firstSeen != p.firstSeen ==> p.firstSeen == ZERO_TIME && q.firstSeen == p.lastSeen
    ensures p.ntcp2 || p.ssu2 || p.rawLength == 0 ==> q.ntcp2 == p.ntcp2 && q.ssu2 == p.ssu2
    ensures !p.ntcp2 && !p.ssu2 && p.rawLength > 0 ==>
              parse(p) == Some(Transports(q.ntcp2, q.ssu2)) || (parse(p).None? && !q.ntcp2 && !q.ssu2)
  {
    var seen := if p.firstSeen == ZERO_TIME then p.(firstSeen := p.lastSeen) else p;
    if !p.ntcp2 && !p.ssu2 && p.rawLength > 0 && parse(p).Some?
    then seen.(ntcp2 := parse(p).value.ntcp2, ssu2 := parse(p).value.ssu2)
    else seen
  }

  /** The time a peer counts as seen: the reported one, unless it is missing or in the future. */
  function SeenTime(seenAt: nat, now: int): (t: int)
    ensures t <= now && (t == now || t == seenAt * MILLISECOND)
    ensures if seenAt > 0 then t <= seenAt * MILLISECOND else t == now
  {
    if seenAt > 0 && seenAt * MILLISECOND <= now then seenAt * MILLISECOND else now
  }

  function Newcomer(info: Info, rawLength: nat, lastSeen: int, now: int, score: Peer -> real): Peer {
    var p := Peer(info.hash, rawLength, info.published * MILLISECOND, info.family, info.addresses,
                  info.transports.ntcp2, info.transports.ssu2, info.floodfill, false, now - lastSeen < TWO_HOURS, 0, lastSeen, lastSeen, 0.0, 0);
    p.(score := score(p))
  }

  /** A sighting never moves a peer back in time, and makes it reachable only if it is recent and
      the last probes did not fail. */
  function Touched(p: Peer, lastSeen: int, now: int): (q: Peer)
    ensures q.lastSeen >= p.lastSeen && q.lastSeen >= lastSeen
    ensures lastSeen <= now && p.lastSeen <= now ==> q.lastSeen <= now
    ensures p.reachable ==> q.reachable
    ensures q.reachable && !p.reachable ==> p.fails == 0 && now - q.lastSeen < TWO_HOURS
    ensures q == p.(lastSeen := q.lastSeen, reachable := q.reachable)
  {
    if lastSeen > p.lastSeen then
      p.(lastSeen := lastSeen,
         reachable := p.reachable || (now - lastSeen < TWO_HOURS && p.fails == 0))
    else p
  }

  function Built(p: Peer, accepted: bool, score: Peer -> real): Peer {
    var q := p.(tunnelBuild := accepted);
    q.(score := score(q))
  }

  function Republished(p: Peer, info: Info, rawLength: nat, score: Peer -> real): Peer {
    var q := p.(published := info.published * MILLISECOND, rawLength := rawLength, family := info.family,
                addresses := info.addresses, ntcp2 := info.transports.ntcp2, ssu2 := info.transports.ssu2,
                floodfill := info.floodfill);
    q.(score := score(q))
  }

  /** The record says what the descriptor does. */
  ghost predicate Describes(p: Peer, info: Info, rawLength: nat) {
    && p.hash == info.hash && p.rawLength == rawLength && p.published == info.published * MILLISECOND
    && p.family == info.family && p.addresses == info.addresses && p.floodfill == info.floodfill
    && Transports(p.ntcp2, p.ssu2) == info.transports
  }

  /** Never probed: reachable exactly if it was seen in the last two hours. */
  ghost predicate Unproven(p: Peer, lastSeen: int, now: int) {
    && p.firstSeen == lastSeen && p.lastSeen == lastSeen && (p.reachable <==> now - lastSeen < TWO_HOURS)
    && p.fails == 0 && p.rtt == 0 && !p.tunnelBuild
  }

  /** What was observed of a peer is kept, and a later sighting is the only one added. */
  ghost predicate Observed(before: Peer, after: Peer, lastSeen: int, now: int) {
    && after.firstSeen == before.firstSeen && after.fails == before.fails && after.rtt == before.rtt
    && after.tunnelBuild == before.tunnelBuild
    && after.lastSeen == (if lastSeen > before.lastSeen then lastSeen else before.lastSeen)
    && (after.reachable <==>
          before.reachable || (lastSeen > before.lastSeen && now - lastSeen < TWO_HOURS && before.fails == 0))
  }

  /** A newer descriptor replaces the held one; any other leaves it. */
  ghost predicate Descriptor(held: Peer, after: Peer, info: Info, rawLength: nat) {
    if info.published * MILLISECOND > held.published then Describes(after, info, rawLength)
    else
      after == held.(lastSeen := after.lastSeen, reachable := after.reachable, score := after.score)
  }

  /** The score is that of the record as it was with its score before. */
  ghost predicate Scored(p: Peer, before: real, score: Peer -> real) {
    p.score == score(p.(score := before))
  }

  lemma NewcomerExactly(info: Info, rawLength: nat, lastSeen: int, now: int, score: Peer -> real)
    ensures Describes(Newcomer(info, rawLength, lastSeen, now, score), info, rawLength)
    ensures Unproven(Newcomer(info, rawLength, lastSeen, now, score), lastSeen, now)
    ensures Scored(Newcomer(info, rawLength, lastSeen, now, score), 0.0, score)
  {}

  lemma UpdateExactly(held: Peer, info: Info, rawLength: nat, lastSeen: int, now: int, score: Peer -> real)
    requires held.hash == info.hash
    ensures Describes(Republished(Touched(held, lastSeen, now), info, rawLength, score), info, rawLength)
    ensures Observed(held, Touched(held, lastSeen, now), lastSeen, now)
    ensures Observed(held, Republished(Touched(held, lastSeen, now), info, rawLength, score), lastSeen, now)
    ensures Scored(Republished(Touched(held, lastSeen, now), info, rawLength, score), held.score, score)
    ensures var touched := Touched(held, lastSeen, now);
      touched == held.(lastSeen := touched.lastSeen, reachable := touched.reachable)
  {
    TouchExactly(held, lastSeen, now);
    hide Touched;
  }

  lemma TouchExactly(held: Peer, lastSeen: int, now: int)
    ensures Observed(held, Touched(held, lastSeen, now), lastSeen, now)
    ensures Touched(held, lastSeen, now).hash == held.hash
  {}

  class PeerStore {
    var peers: Peers
    var bySubnet16: map<(bv8, bv8), set<Hash>>
    var byFamily: map<string, set<Hash>>
    var maxPeers: int
    var localHash: Hash
    var evictions: nat

    /** The member set of a group; a missing key reads as an empty set. */
    function Lookup(g: Group): set<Hash>
      reads `bySubnet16, `byFamily
    {
      match g
      case Subnet(b0, b1) => if (b0, b1) in bySubnet16 then bySubnet16[(b0, b1)] else {}
      case Family(name) => if name in byFamily then byFamily[name] else {}
    }

    /** No index keeps an empty member set. */
    ghost predicate Tidy()
      reads `bySubnet16, `byFamily
    {
      && (forall k :: k in bySubnet16 ==> bySubnet16[k] != {})
      && (forall k :: k in byFamily ==> byFamily[k] != {})
    }

    /** Both indexes hold exactly the peers of each group. */
    ghost predicate Valid()
      reads this
    {
      Keyed(peers) && Tidy() && forall g :: Lookup(g) == Members(peers, g)
    }

    lemma ValidKeyed()
      requires Valid()
      ensures Keyed(peers)
    {}

    constructor ()
      ensures Valid() && peers == map[] && maxPeers == 5000 && evictions == 0
    {
      peers, bySubnet16, byFamily := map[], map[], map[];
      maxPeers := 5000;
      localHash := seq(32, _ => 0);
      evictions := 0;
    }

    // -------------------------------------------------------------------------------------
    // Indexes
    // -------------------------------------------------------------------------------------

    method AddMember(g: Group, h: Hash)
      requires Tidy()
      modifies `bySubnet16, `byFamily
      ensures Tidy()
      ensures forall k :: Lookup(k) == old(Lookup(k)) + if k == g then {h} else {}
    {
      match g
      case Subnet(b0, b1) => bySubnet16 := bySubnet16[(b0, b1) := Lookup(g) + {h}];
      case Family(name) => byFamily := byFamily[name := Lookup(g) + {h}];
    }

    method RemoveMember(g: Group, h: Hash)
      requires Tidy()
      modifies `bySubnet16, `byFamily
      ensures Tidy()
      ensures forall k :: Lookup(k) == old(Lookup(k)) - if k == g then {h} else {}
    {
      var members := Lookup(g) - {h};
      match g
      case Subnet(b0, b1) =>
        if members == {} {
          bySubnet16 := bySubnet16 - {(b0, b1)};
        } else {
          bySubnet16 := bySubnet16[(b0, b1) := members];
        }
      case Family(name) =>
        if members == {} {
          byFamily := byFamily - {name};
        } else {
          byFamily := byFamily[name := members];
        }
    }

    method IndexPeer(rec: Peer)
      requires Tidy()
      modifies `bySubnet16, `byFamily
      ensures Tidy()
      ensures forall k :: Lookup(k) == old(Lookup(k)) + Claim(rec, k)
    {
      var groups := Groups(rec);
      for i := 0 to |groups|
        invariant Tidy()
        invariant forall k :: Lookup(k) == old(Lookup(k)) + if k in groups[..i] then {rec.hash} else {}
      {
        AddMember(groups[i], rec.hash);
        assert groups[..i + 1] == groups[..i] + [groups[i]];
      }
      assert groups[..|groups|] == groups;
    }

    method DeindexPeer(rec: Peer)
      requires Tidy()
      modifies `bySubnet16, `byFamily
      ensures Tidy()
      ensures forall k :: Lookup(k) == old(Lookup(k)) - Claim(rec, k)
    {
      var groups := Groups(rec);
      for i := 0 to |groups|
        invariant Tidy()
        invariant forall k :: Lookup(k) == old(Lookup(k)) - if k in groups[..i] then {rec.hash} else {}
      {
        RemoveMember(groups[i], rec.hash);
        assert groups[..i + 1] == groups[..i] + [groups[i]];
      }
      assert groups[..|groups|] == groups;
    }

    method DeletePeer(h: Hash)
      requires Valid()
      modifies `peers, `bySubnet16, `byFamily, `evictions
      ensures Valid() && peers == old(peers) - {h}
      ensures evictions == old(evictions) + if h in old(peers) then 1 else 0
    {
      if h in peers {
        DeindexPeer(peers[h]);
        forall g: Group {
          MembersAfterDrop(peers, h, g);
        }
        peers := peers - {h};
        evictions := evictions + 1;
      }
    }

    /** Replaces or adds one record and its index entries. */
    method StorePeer(rec: Peer)
      requires Valid()
      modifies `peers, `bySubnet16, `byFamily
      ensures Valid() && peers == old(peers)[rec.hash := rec]
    {
      if rec.hash in peers {
        DeindexPeer(peers[rec.hash]);
        forall g: Group {
          MembersAfterDrop(peers, rec.hash, g);
        }
      }
      peers := peers[rec.hash := rec];
      IndexPeer(rec);
      forall g: Group {
        MembersAfterPut(old(peers), rec, g);
      }
    }

    // -------------------------------------------------------------------------------------
    // Contention
    // -------------------------------------------------------------------------------------

    method TopsOneGroup(rec: Peer, g: Group) returns (top: bool)
      requires Valid()
      ensures top <==> TopsGroup(peers, rec, g)
    {
      hide Outranks, Groups;
      var members := Lookup(g);
      var rest := members;
      top := true;
      while rest != {} && top
        invariant rest <= members
        invariant top <==> forall h :: h in members - rest && h != rec.hash ==> !Outranks(peers[h], rec)
      {
        Inhabited(rest);
        var h: Hash :| h in rest;
        if h != rec.hash && h in peers && Outranks(peers[h], rec) {
          assert h in members - (rest - {h});
          top := false;
        }
        rest := rest - {h};
      }
      if top {
        assert members - rest == members;
      } else {
        assert exists h :: h in members && h != rec.hash && Outranks(peers[h], rec);
      }
    }

    /** The index decides what the plain map of peers says. */
    method TopsAnyContention(rec: Peer) returns (hasGroup: bool, tops: bool)
      requires Valid()
      ensures hasGroup && !tops <==> Dominated(peers, rec)
      ensures tops <==> TopsAny(peers, rec)
      ensures tops <==> exists g :: g in Groups(rec) && Leads(peers, rec, g)
      ensures hasGroup <==> Groups(rec) != []
    {
      hide Outranks, Groups, TopsGroup, Leads;
      var groups := Groups(rec);
      hasGroup, tops := false, false;
      for i := 0 to |groups|
        invariant hasGroup <==> i > 0
        invariant tops <==> exists j :: 0 <= j < i && TopsGroup(peers, rec, groups[j])
      {
        hasGroup := true;
        if !tops {
          tops := TopsOneGroup(rec, groups[i]);
        }
      }
      forall g: Group {
        TopsLeads(peers, rec, g);
      }
    }

    method DeleteAll(evict: set<Hash>)
      requires Valid()
      modifies `peers, `bySubnet16, `byFamily, `evictions
      ensures Valid() && peers == old(peers) - evict
      ensures evictions == old(evictions) + |old(peers)| - |peers|
    {
      hide PeerStore.Valid;
      var rest := evict;
      while rest != {}
        invariant Valid() && rest <= evict
        invariant peers == old(peers) - (evict - rest)
        invariant evictions == old(evictions) + |old(peers)| - |peers|
      {
        Inhabited(rest);
        var h: Hash :| h in rest;
        DropOne(peers, h);
        DropMore(old(peers), evict, rest, h);
        DeletePeer(h);
        rest := rest - {h};
      }
      assert evict - {} == evict;
    }

    method FindRedundant() returns (evict: set<Hash>)
      requires Valid()
      ensures forall h :: h in evict <==> h in peers && Dominated(peers, peers[h])
    {
      hide PeerStore.Valid, Dominated, TopsAny;
      var rest := peers.Keys;
      evict := {};
      while rest != {}
        invariant rest <= peers.Keys
        invariant forall h :: h in evict <==> h in peers.Keys - rest && Dominated(peers, peers[h])
      {
        Inhabited(rest);
        var h: Hash :| h in rest;
        var hasGroup, tops := TopsAnyContention(peers[h]);
        if hasGroup && !tops {
          evict := evict + {h};
        }
        rest := rest - {h};
      }
    }

    /** Indexing what is already indexed changes nothing. */
    method Reindex()
      requires Valid()
      modifies `bySubnet16, `byFamily
      ensures Valid()
    {
      hide Groups, Keyed;
      var rest := peers.Keys;
      while rest != {}
        invariant rest <= peers.Keys && Valid()
      {
        Inhabited(rest);
        var h: Hash :| h in rest;
        IndexPeer(peers[h]);
        forall g: Group {
          ClaimCounted(peers, h, g);
        }
        rest := rest - {h};
      }
    }

    /** The sweep over the whole store. */
    method PruneRedundant() returns (n: nat)
      requires Valid()
      modifies `peers, `bySubnet16, `byFamily, `evictions
      ensures Valid() && peers == Pruned(old(peers))
      ensures n == |old(peers)| - |peers| && evictions == old(evictions) + n
      ensures forall g :: Members(old(peers), g) != {} ==> KeepsMerit(old(peers), peers, g)
    {
      hide PeerStore.Valid, Dominated, TopsAny, KeepsMerit;
      ValidKeyed();
      forall g: Group | Members(peers, g) != {} {
        SweepKeepsMerit(peers, g);
      }
      if bySubnet16 == map[] && byFamily == map[] {
        Reindex();
      }
      var evict := FindRedundant();
      DropAll(peers, evict);
      DeleteAll(evict);
      n := |evict|;
    }

    method FindDisplaced(rec: Peer) returns (evict: set<Hash>)
      requires Valid()
      ensures evict == Displaced(peers, rec)
    {
      hide PeerStore.Valid, Dominated, TopsAny, Groups;
      var groups := Groups(rec);
      evict := {};
      for i := 0 to |groups|
        invariant forall h :: h in evict <==>
          h in peers && h != rec.hash && Dominated(peers, peers[h]) && Meets(peers[h], groups[..i])
      {
        var found := DominatedIn(groups[i], rec.hash);
        evict := evict + found;
        assert groups[..i + 1] == groups[..i] + [groups[i]];
      }
      assert groups[..|groups|] == groups;
    }

    /** Drops the co-members of `rec` that top none of their own groups any more. */
    method EvictDominated(rec: Peer)
      requires Valid()
      modifies `peers, `bySubnet16, `byFamily, `evictions
      ensures Valid() && peers == old(peers) - Displaced(old(peers), rec)
      ensures evictions == old(evictions) + |old(peers)| - |peers|
    {
      var evict := FindDisplaced(rec);
      DeleteAll(evict);
    }

    method DominatedIn(g: Group, except: Hash) returns (evict: set<Hash>)
      requires Valid()
      ensures forall h :: h in evict <==>
        h in peers && h != except && Dominated(peers, peers[h]) && g in Groups(peers[h])
    {
      hide Dominated, TopsAny, Keyed;
      var members := Lookup(g);
      var rest := members;
      evict := {};
      while rest != {}
        invariant rest <= members
        invariant forall h :: h in evict <==> h in members - rest && h != except && Dominated(peers, peers[h])
      {
        Inhabited(rest);
        var h: Hash :| h in rest;
        if h != except {
          var hasGroup, tops := TopsAnyContention(peers[h]);
          if hasGroup && !tops {
            evict := evict + {h};
          }
        }
        rest := rest - {h};
      }
    }

    // -------------------------------------------------------------------------------------
    // Eviction
    // -------------------------------------------------------------------------------------

    method CountBuckets() returns (counts: array<nat>)
      ensures fresh(counts) && Counted(counts[..], peers)
    {
      hide Bucket, InBucket;
      counts := new nat[BUCKETS](_ => 0);
      var rest := peers.Keys;
      NobodyCounted(peers);
      while rest != {}
        invariant rest <= peers.Keys && counts.Length == BUCKETS
        invariant Counted(counts[..], peers - rest)
      {
        Inhabited(rest);
        var h: Hash :| h in rest;
        ghost var was := counts[..];
        counts[Bucket(h)] := counts[Bucket(h)] + 1;
        assert counts[..] == was[Bucket(h) := was[Bucket(h)] + 1];
        OneMoreCounted(was, peers, rest, h);
        rest := rest - {h};
      }
      assert peers - {} == peers;
    }

    /** The eligible peers of the buckets above the floor, by rising score. */
    method CandidatesOf(counts: array<nat>, floor: nat, kind: Peer -> bool) returns (c: seq<Hash>)
      requires Counted(counts[..], peers)
      ensures Candidates(peers, c, floor, kind) && Ranked(peers, c)
    {
      hide Bucket, InBucket, Count;
      var rest := peers.Keys;
      c := [];
      while rest != {}
        invariant rest <= peers.Keys && Ranked(peers, c)
        invariant forall h :: h in c <==>
          h in peers.Keys - rest && Count(peers, Bucket(h)) > floor && kind(peers[h])
      {
        Inhabited(rest);
        var h: Hash :| h in rest;
        if counts[Bucket(h)] > floor && kind(peers[h]) {
          c := InsertByScore(c, h);
        }
        rest := rest - {h};
      }
    }

    method InsertByScore(c: seq<Hash>, h: Hash) returns (r: seq<Hash>)
      requires Ranked(peers, c) && h in peers
      ensures Ranked(peers, r) && forall k :: k in r <==> k in c || k == h
    {
      var i := |c|;
      while i > 0 && peers[c[i - 1]].score > peers[h].score
        invariant 0 <= i <= |c|
        invariant forall j :: i <= j < |c| ==> peers[c[j]].score > peers[h].score
      {
        i := i - 1;
      }
      r := c[..i] + [h] + c[i..];
      InsertedRanked(peers, c, h, i);
    }

    method EvictOne(counts: array<nat>, h: Hash)
      requires Valid() && Counted(counts[..], peers) && h in peers
      modifies `peers, `bySubnet16, `byFamily, `evictions, counts
      ensures Valid() && Counted(counts[..], peers) && peers == old(peers) - {h}
      ensures evictions == old(evictions) + 1
    {
      hide PeerStore.Valid, Bucket, InBucket, Count;
      ghost var was := counts[..];
      CountedDrop(was, peers, h);
      DeletePeer(h);
      counts[Bucket(h)] := counts[Bucket(h)] - 1;
      assert counts[..] == was[Bucket(h) := was[Bucket(h)] - 1];
    }

    /** One pass over the candidates. */
    method EvictCandidates(counts: array<nat>, floor: nat, kind: Peer -> bool, room: nat) returns (n: nat)
      requires Valid() && Counted(counts[..], peers)
      modifies `peers, `bySubnet16, `byFamily, `evictions, counts
      ensures Valid() && Counted(counts[..], peers) && n == |old(peers)| - |peers| && n <= room
      ensures evictions == old(evictions) + n
      ensures Passed(old(peers), peers, floor, kind, room) && WorstFirst(old(peers), peers, floor, kind)
    {
      hide PeerStore.Valid, Bucket, Count, Ranked, Candidates, Passed, WorstFirst, Progress, Counted;
      var c := CandidatesOf(counts, floor, kind);
      n := 0;
      var i := 0;
      FirstProgress(peers, c, floor);
      while i < |c| && n < room
        invariant Valid() && Counted(counts[..], peers)
        invariant 0 <= i <= |c| && n <= room && n == |old(peers)| - |peers|
        invariant evictions == old(evictions) + n
        invariant Progress(old(peers), peers, c, i, floor)
      {
        CountedAt(counts[..], peers, c[i]);
        if counts[Bucket(c[i])] > floor && c[i] in peers {
          ProgressDrop(old(peers), peers, c, i, floor);
          DropOne(peers, c[i]);
          EvictOne(counts, c[i]);
          n := n + 1;
        } else {
          ProgressSkip(old(peers), peers, c, i, floor);
        }
        i := i + 1;
      }
      ProgressDone(old(peers), peers, c, i, floor, kind, room);
    }

    /** The first two passes: dead peers, then stale ones. */
    method EvictFaulty(counts: array<nat>, count: nat, stale: Peer -> bool) returns (n: nat, ghost p1: Peers)
      requires Valid() && Counted(counts[..], peers)
      modifies `peers, `bySubnet16, `byFamily, `evictions, counts
      ensures Valid() && Counted(counts[..], peers) && n == |old(peers)| - |peers| && n <= count
      ensures evictions == old(evictions) + n
      ensures Passed(old(peers), p1, 2, Dead, count) && WorstFirst(old(peers), p1, 2, Dead)
      ensures Passed(p1, peers, 4, stale, count - (|old(peers)| - |p1|)) && WorstFirst(p1, peers, 4, stale)
    {
      hide *;
      n := EvictCandidates(counts, 2, Dead, count);
      p1 := peers;
      var n2 := EvictCandidates(counts, 4, stale, count - n);
      n := n + n2;
    }

    /** The last two passes: the lowest scores of crowded buckets, then of all. */
    method EvictLowest(counts: array<nat>, room: nat) returns (n: nat, ghost p3: Peers)
      requires Valid() && Counted(counts[..], peers)
      modifies `peers, `bySubnet16, `byFamily, `evictions, counts
      ensures Valid() && n == |old(peers)| - |peers| && n <= room
      ensures evictions == old(evictions) + n
      ensures Passed(old(peers), p3, 4, Anyone, room) && WorstFirst(old(peers), p3, 4, Anyone)
      ensures Passed(p3, peers, 0, Anyone, room - (|old(peers)| - |p3|)) && WorstFirst(p3, peers, 0, Anyone)
    {
      hide *;
      n := EvictCandidates(counts, 4, Anyone, room);
      p3 := peers;
      var n2 := EvictCandidates(counts, 0, Anyone, room - n);
      n := n + n2;
    }

    method EvictSome(count: nat, counts: array<nat>, stale: Peer -> bool)
      returns (n: nat, ghost p1: Peers, ghost p2: Peers, ghost p3: Peers)
      requires Valid() && Counted(counts[..], peers)
      modifies `peers, `bySubnet16, `byFamily, `evictions, counts
      ensures Valid() && evictions == old(evictions) + n && n == |old(peers)| - |peers|
      ensures Batched(old(peers), p1, p2, p3, peers, count, stale)
    {
      hide *;
      n, p1 := EvictFaulty(counts, count, stale);
      p2 := peers;
      var n2;
      n2, p3 := EvictLowest(counts, count - n);
      MakeBatch(old(peers), p1, p2, p3, peers, count, stale);
      n := n + n2;
    }

    /** The ghost results are the stores between the passes. */
    method EvictBatch(count: int, now: int) returns (n: nat, ghost p1: Peers, ghost p2: Peers, ghost p3: Peers)
      requires Valid()
      modifies `peers, `bySubnet16, `byFamily, `evictions
      ensures Valid() && evictions == old(evictions) + n
      ensures n == |old(peers)| - |peers| == if count <= 0 then 0 else Min(count, |old(peers)|)
      ensures count > 0 && |old(peers)| > 0 ==>
                && Batched(old(peers), p1, p2, p3, peers, count, (p: Peer) => LongStale(p, now))
                && DeadGone(old(peers), p1, count) && StaleGone(p1, p2, count - (|old(peers)| - |p1|), now)
      ensures Within(peers, old(peers)) && Diverse(old(peers), peers)
      ensures count > 0 && |old(peers)| >= 4 * BUCKETS + count ==> Spared(old(peers), peers)
    {
      hide PeerStore.Valid, Counted, Diverse, Spared, LongStale, Within, Batched, DeadGone, StaleGone;
      p1, p2, p3 := peers, peers, peers;
      if count <= 0 || |peers| == 0 {
        Unthinned(peers);
        return 0, p1, p2, p3;
      }
      var counts := CountBuckets();
      n, p1, p2, p3 := EvictSome(count, counts, (p: Peer) => LongStale(p, now));
      FourPasses(old(peers), p1, p2, p3, peers, count, (p: Peer) => LongStale(p, now));
      FaultyGone(old(peers), p1, p2, p3, peers, count, now);
    }

    /** Unlike a batch, in any order and without a limit. */
    method PruneStale(maxAge: int, now: int) returns (n: nat)
      requires Valid()
      modifies `peers, `bySubnet16, `byFamily, `evictions
      ensures Valid() && n == |old(peers)| - |peers| && evictions == old(evictions) + n
      ensures Passed(old(peers), peers, 4, p => Expired(p, if maxAge <= 0 then DAY else maxAge, now), n)
      ensures forall h :: h in peers && Expired(peers[h], if maxAge <= 0 then DAY else maxAge, now) ==>
                Count(peers, Bucket(h)) <= 4
      ensures ExpiredGone(old(peers), peers, if maxAge <= 0 then DAY else maxAge, now)
    {
      hide PeerStore.Valid, Bucket, Count, Counted;
      var age := if maxAge <= 0 then DAY else maxAge;
      var counts := CountBuckets();
      var rest := peers.Keys;
      n := 0;
      while rest != {}
        invariant Valid() && Counted(counts[..], peers) && rest <= peers.Keys
        invariant n == |old(peers)| - |peers| && evictions == old(evictions) + n
        invariant Expiring(old(peers), peers, rest, age, now)
      {
        Inhabited(rest);
        var h: Hash :| h in rest;
        CountedAt(counts[..], peers, h);
        if counts[Bucket(h)] > 4 && Expired(peers[h], age, now) {
          ExpiringDrop(old(peers), peers, rest, h, age, now);
          DropOne(peers, h);
          EvictOne(counts, h);
          n := n + 1;
        }
        rest := rest - {h};
      }
    }

    // -------------------------------------------------------------------------------------
    // Admission and update
    // -------------------------------------------------------------------------------------

    method MakeRoom(now: int)
      requires Valid()
      modifies `peers, `bySubnet16, `byFamily, `evictions
      ensures Valid() && MadeRoom(old(peers), peers, maxPeers)
      ensures evictions == old(evictions) + |old(peers)| - |peers|
    {
      hide PeerStore.Valid, Diverse, Spared, Batched;
      if |peers| >= maxPeers {
        var n, p1, p2, p3 := EvictBatch(Batch(maxPeers), now);
      } else {
        Unthinned(peers);
      }
    }

    /** `room` is what is left after making room for the newcomer. */
    method Admit(p: Peer, now: int) returns (admitted: bool, ghost room: Peers)
      requires Valid() && p.hash !in peers
      modifies `peers, `bySubnet16, `byFamily, `evictions
      ensures Valid() && (admitted <==> !Dominated(old(peers), p))
      ensures !admitted ==> peers == old(peers)
      ensures admitted ==> peers == Joined(room, p) && p.hash in peers && peers[p.hash] == p
      ensures admitted ==> MadeRoom(old(peers), room, maxPeers)
      ensures Irredundant(old(peers)) ==> Irredundant(peers)
      ensures 1 <= maxPeers && |old(peers)| <= maxPeers ==> |peers| <= maxPeers
      ensures evictions == old(evictions) + |old(peers)| - |peers| + if admitted then 1 else 0
    {
      hide PeerStore.Valid, Dominated, TopsAny, Irredundant, Displaced, Within, Diverse, Spared;
      room := peers;
      var hasGroup, tops := TopsAnyContention(p);
      if hasGroup && !tops {
        return false, room;
      }
      admitted := true;
      ghost var before := peers;
      ValidKeyed();
      MakeRoom(now);
      room := peers;
      StorePeer(p);
      EvictDominated(p);
      Admitted(before, room, p);
    }

    /** A newer descriptor: the record changes its groups and rank, and may lose or win. */
    method Republish(p: Peer) returns (kept: bool)
      requires Valid() && p.hash in peers
      modifies `peers, `bySubnet16, `byFamily, `evictions
      ensures Valid() && (kept <==> !Dominated(old(peers)[p.hash := p], p))
      ensures peers == if kept then Joined(old(peers), p) else old(peers) - {p.hash}
      ensures kept ==> p.hash in peers && peers[p.hash] == p
      ensures |peers| <= |old(peers)| && evictions == old(evictions) + |old(peers)| - |peers|
      ensures Irredundant(old(peers)) ==> Irredundant(peers)
    {
      hide PeerStore.Valid, Dominated, TopsAny, Irredundant, Displaced;
      ghost var before := peers;
      ValidKeyed();
      StorePeer(p);
      var hasGroup, tops := TopsAnyContention(p);
      kept := !(hasGroup && !tops);
      if kept {
        EvictDominated(p);
      } else {
        DeletePeer(p.hash);
      }
      Replaced(before, p);
    }

    method UpdateExisting(info: Info, rawLength: nat, lastSeen: int, now: int, score: Peer -> real)
      returns (rec: Option<Peer>)
      requires Valid() && info.hash in peers
      modifies `peers, `bySubnet16, `byFamily, `evictions
      ensures Valid() && peers == Updated(old(peers), info, rawLength, lastSeen, now, score)
      ensures rec == if info.hash in peers then Some(peers[info.hash]) else None
      ensures |peers| <= |old(peers)| && evictions == old(evictions) + |old(peers)| - |peers|
      ensures !Stale(old(peers), info) && Irredundant(old(peers)) ==> Irredundant(peers)
      ensures info.hash in peers ==>
                && Observed(old(peers)[info.hash], peers[info.hash], lastSeen, now)
                && Descriptor(old(peers)[info.hash], peers[info.hash], info, rawLength)
    {
      hide PeerStore.Valid, Dominated, Irredundant, Joined;
      ValidKeyed();
      UpdateExactly(peers[info.hash], info, rawLength, lastSeen, now, score);
      var touched := Touched(peers[info.hash], lastSeen, now);
      if info.published * MILLISECOND > touched.published {
        var p := Republished(touched, info, rawLength, score);
        var kept := Republish(p);
        rec := if kept then Some(p) else None;
      } else {
        var p := touched.(score := score(touched));
        SameSize(peers, p);
        StorePeer(p);
        rec := Some(p);
      }
    }

    /** `room` is what is left after making room for a newcomer. */
    method AddOrUpdateWithSeen(info: Info, rawLength: nat, seenAt: nat, now: int, score: Peer -> real)
      returns (rec: Option<Peer>, created: bool, ghost room: Peers)
      requires Valid()
      modifies `peers, `bySubnet16, `byFamily, `evictions
      ensures Valid()
      ensures
        var lastSeen := SeenTime(seenAt, now);
        var newcomer := Newcomer(info, rawLength, lastSeen, now, score);
        if info.hash == localHash != ZERO_HASH then
          peers == old(peers) && rec == None && !created
        else if info.hash in old(peers) then
          && peers == Updated(old(peers), info, rawLength, lastSeen, now, score)
          && rec == (if info.hash in peers then Some(peers[info.hash]) else None) && !created
        else if Dominated(old(peers), newcomer) then
          peers == old(peers) && rec == None && !created
        else
          && MadeRoom(old(peers), room, maxPeers) && peers == Joined(room, newcomer)
          && rec == Some(newcomer) && created
      ensures evictions == old(evictions) + |old(peers)| - |peers| + if created then 1 else 0
      ensures 1 <= maxPeers && |old(peers)| <= maxPeers ==> |peers| <= maxPeers
      ensures Irredundant(old(peers)) && !Stale(old(peers), info) ==> Irredundant(peers)
      ensures created ==> info.hash in peers && Describes(peers[info.hash], info, rawLength)
                          && Unproven(peers[info.hash], SeenTime(seenAt, now), now)
      ensures info.hash in old(peers) && info.hash in peers && !(info.hash == localHash != ZERO_HASH) ==>
                && Observed(old(peers)[info.hash], peers[info.hash], SeenTime(seenAt, now), now)
                && Descriptor(old(peers)[info.hash], peers[info.hash], info, rawLength)
      ensures info.hash in old(peers) && info.published * MILLISECOND <= old(peers)[info.hash].published ==>
                info.hash in peers && peers == old(peers)[info.hash := peers[info.hash]]
    {
      hide PeerStore.Valid, Dominated, Irredundant, Joined, Touched, Republished, MadeRoom;
      hide Observed, Describes, Descriptor, Unproven, Newcomer;
      room := peers;
      if info.hash == localHash && localHash != ZERO_HASH {
        return None, false, room;
      }
      var lastSeen := SeenTime(seenAt, now);
      if info.hash !in peers {
        var p := Newcomer(info, rawLength, lastSeen, now, score);
        NewcomerExactly(info, rawLength, lastSeen, now, score);
        created, room := Admit(p, now);
        rec := if created then Some(p) else None;
      } else {
        created := false;
        rec := UpdateExisting(info, rawLength, lastSeen, now, score);
      }
    }

    /** A tunnel build result changes a rank but no group. */
    method RecordTunnelBuildResult(h: Hash, accepted: bool, score: Peer -> real)
      requires Valid()
      modifies `peers
      ensures Valid()
      ensures h !in old(peers) ==> peers == old(peers)
      ensures h in old(peers) ==> peers == old(peers)[h := Built(old(peers)[h], accepted, score)]
      ensures h in old(peers) ==>
                && peers[h] == old(peers)[h].(tunnelBuild := accepted, score := peers[h].score)
                && Scored(peers[h], old(peers)[h].score, score)
    {
      if h in peers {
        var p := Built(peers[h], accepted, score);
        forall g: Group {
          SameGroups(peers, p, g);
        }
        peers := peers[h := p];
      }
    }

    method SetLocalHash(h: Hash)
      requires Valid()
      modifies this
      ensures Valid() && localHash == h && peers == old(peers) - {h}
    {
      localHash := h;
      DeletePeer(h);
    }

    /** Records read from a file replace those held for the same hash; the last one wins. */
    method Load(records: seq<Peer>, parse: Peer -> Option<Transports>)
      requires Valid()
      modifies `peers, `bySubnet16, `byFamily
      ensures Valid() && peers == Merged(old(peers), records, parse)
    {
      hide PeerStore.Valid, Restored;
      for i := 0 to |records|
        invariant Valid() && peers == Merged(old(peers), records[..i], parse)
      {
        StorePeer(Restored(records[i], parse));
        assert records[..i + 1] == records[..i] + [records[i]];
      }
      assert records[..|records|] == records;
    }
  }

  ghost predicate Meets(p: Peer, groups: seq<Group>) {
    exists g :: g in Groups(p) && g in groups
  }

  lemma DropOne(peers: Peers, h: Hash)
    ensures |peers - {h}| == |peers| - if h in peers then 1 else 0
  {
    var after := peers - {h};
    assert after.Keys == peers.Keys - {h};
  }

  lemma DropMore(peers: Peers, evict: set<Hash>, rest: set<Hash>, h: Hash)
    requires h in rest && rest <= evict
    ensures peers - (evict - rest) - {h} == peers - (evict - (rest - {h}))
  {}

  lemma DropAll(peers: Peers, evict: set<Hash>)
    requires evict <= peers.Keys
    ensures |peers - evict| == |peers| - |evict|
  {
    var after := peers - evict;
    assert after.Keys == peers.Keys - evict;
    assert peers.Keys == after.Keys + evict;
  }

  /** How many peers are evicted at once. */
  function Batch(maxPeers: int): (n: int)
    ensures 2 <= n <= 25
    ensures if maxPeers < 300 then n == 2 else if maxPeers >= 2500 then n == 25 else n * 100 <= maxPeers < (n + 1) * 100
  {
    Min(25, if maxPeers / 100 > 2 then maxPeers / 100 else 2)
  }

  /** Below capacity nobody goes; at capacity a batch goes, with the buckets kept diverse. With a
      capacity of four peers for each bucket and a batch beside them, as the store's 5000 is, every
      bucket keeps its protection. */
  ghost predicate MadeRoom(before: Peers, room: Peers, maxPeers: int) {
    && Within(room, before) && Diverse(before, room)
    && (maxPeers >= 4 * BUCKETS + 25 ==> Spared(before, room))
    && (|before| < maxPeers ==> room == before)
    && |room| == |before| - if |before| < maxPeers then 0 else Min(Batch(maxPeers), |before|)
  }

  ghost function Merged(peers: Peers, records: seq<Peer>, parse: Peer -> Option<Transports>): Peers {
    if records == [] then peers
    else
      var last := Restored(records[|records| - 1], parse);
      Merged(peers, records[..|records| - 1], parse)[last.hash := last]
  }

  /** A hash that no loaded record has keeps its record. */
  lemma {:induction false} MergedOther(peers: Peers, records: seq<Peer>, parse: Peer -> Option<Transports>, h: Hash)
    requires forall i :: 0 <= i < |records| ==> records[i].hash != h
    ensures h in Merged(peers, records, parse) <==> h in peers
    ensures h in peers ==> Merged(peers, records, parse)[h] == peers[h]
  {
    hide Restored;
    if records != [] {
      MergedOther(peers, records[..|records| - 1], parse, h);
    }
  }

  /** The last loaded record of a hash is the one held. */
  lemma {:induction false} MergedLast(peers: Peers, records: seq<Peer>, parse: Peer -> Option<Transports>, i: nat)
    requires i < |records| && forall j :: i < j < |records| ==> records[j].hash != records[i].hash
    ensures records[i].hash in Merged(peers, records, parse)
    ensures Merged(peers, records, parse)[records[i].hash] == Restored(records[i], parse)
  {
    hide Restored;
    if i < |records| - 1 {
      MergedLast(peers, records[..|records| - 1], parse, i);
    }
  }

  /** The exact outcome for a held peer: an older descriptor only touches it; a newer one moves it
      to its new groups, where it goes if it is dominated and its displaced co-members go if not. */
  ghost function Updated(
    peers: Peers, info: Info, rawLength: nat, lastSeen: int, now: int, score: Peer -> real): Peers
    requires info.hash in peers
  {
    var touched := Touched(peers[info.hash], lastSeen, now);
    var newer := Republished(touched, info, rawLength, score);
    if Stale(peers, info) then peers[info.hash := touched.(score := score(touched))]
    else if Dominated(peers[info.hash := newer], newer) then peers - {info.hash}
    else Joined(peers, newer)
  }

  /** A stored peer with its displaced co-members gone. */
  ghost function Joined(peers: Peers, p: Peer): Peers {
    peers[p.hash := p] - Displaced(peers[p.hash := p], p)
  }

  /** The store holds a descriptor at least as new. */
  ghost predicate Stale(peers: Peers, info: Info) {
    info.hash in peers && info.published * MILLISECOND <= peers[info.hash].published
  }

  lemma PutThenDrop(peers: Peers, p: Peer, gone: set<Hash>)
    requires p.hash !in gone
    ensures |peers[p.hash := p] - gone| <= |peers| + if p.hash in peers then 0 else 1
    ensures Within(peers[p.hash := p] - gone - {p.hash}, peers)
  {
    var all := peers[p.hash := p];
    assert all.Keys == peers.Keys + {p.hash};
    Smaller((all - gone).Keys, all.Keys);
  }

  lemma JoinedSize(peers: Peers, p: Peer)
    ensures |Joined(peers, p)| <= |peers| + if p.hash in peers then 0 else 1
    ensures p.hash in Joined(peers, p) && Joined(peers, p)[p.hash] == p
    ensures Within(Joined(peers, p) - {p.hash}, peers)
  {
    PutThenDrop(peers, p, Displaced(peers[p.hash := p], p));
  }

  lemma Admitted(before: Peers, room: Peers, p: Peer)
    requires Keyed(before) && Within(room, before) && p.hash !in before && !Dominated(before, p)
    ensures p.hash in Joined(room, p) && Joined(room, p)[p.hash] == p
    ensures Within(Joined(room, p) - {p.hash}, before)
    ensures |Joined(room, p)| <= |room| + 1 && |room[p.hash := p]| == |room| + 1
    ensures Irredundant(before) ==> Irredundant(Joined(room, p))
  {
    hide Dominated, Irredundant, Displaced;
    FewerRivals(room, before, p);
    JoinedSize(room, p);
    assert room - {p.hash} == room;
    OneMore(room, p);
    if Irredundant(before) {
      RemovalKeeps(room, before);
      AdmissionSweeps(room, p);
    }
  }

  lemma Replaced(before: Peers, p: Peer)
    requires Keyed(before) && p.hash in before
    ensures |Joined(before, p)| <= |before| && |before - {p.hash}| <= |before|
    ensures p.hash in Joined(before, p) && Joined(before, p)[p.hash] == p
    ensures before[p.hash := p] - {p.hash} == before - {p.hash}
    ensures Irredundant(before) ==>
      Irredundant(if Dominated(before[p.hash := p], p) then before - {p.hash} else Joined(before, p))
  {
    hide Dominated, Irredundant, Displaced;
    var others := before - {p.hash};
    JoinedSize(before, p);
    DropOne(before, p.hash);
    if Irredundant(before) {
      RemovalKeeps(others, before);
      if !Dominated(before[p.hash := p], p) {
        FewerRivals(others, before[p.hash := p], p);
        AdmissionSweeps(before, p);
      }
    }
  }

  lemma OneMore(peers: Peers, p: Peer)
    requires p.hash !in peers
    ensures |peers[p.hash := p]| == |peers| + 1
  {
    assert peers[p.hash := p].Keys == peers.Keys + {p.hash};
  }

  lemma SameSize(peers: Peers, p: Peer)
    requires p.hash in peers
    ensures |peers[p.hash := p]| == |peers|
  {
    assert peers[p.hash := p].Keys == peers.Keys;
  }

  // ---------------------------------------------------------------------------------------
  // Ranks that drift
  // ---------------------------------------------------------------------------------------

  /** A reachable peer at one IPv4 address. */
  function AtAddress(h: Hash, family: string, b: bv8, score: real): Peer {
    Peer(h, 1, 0, family, [Four(b, b, b, b)], true, false, false, false, true, 0, 0, 0, score, 0)
  }

  lemma GroupsAtAddress(p: Peer, b: bv8)
    requires p.addresses == [Four(b, b, b, b)]
    ensures Groups(p) == if p.family != "" then [Subnet(b, b), Family(p.family)] else [Subnet(b, b)]
  {
    assert Subnets(p.addresses[1..]) == [];
  }

  /** A build result can leave a dominated peer in the store, under any scoring. The first peer holds
      the family; the second, of the same family, holds its own subnet; the third holds the subnet of
      the first. When a tunnel through the second is accepted, it overtakes the first, which then
      holds nothing. */
  lemma DriftHappens(a: Hash, b: Hash, c: Hash, score: Peer -> real)
    requires a != b && b != c && a != c
    ensures var first, second, third := AtAddress(a, "f", 1, 2.0), AtAddress(b, "f", 2, 1.0), AtAddress(c, "", 1, 3.0);
            var peers: Peers := map[a := first, b := second, c := third];
            && Keyed(peers) && Irredundant(peers)
            && Dominated(peers[b := Built(second, true, score)], first)
            && !Irredundant(peers[b := Built(second, true, score)])
  {
    var first, second, third := AtAddress(a, "f", 1, 2.0), AtAddress(b, "f", 2, 1.0), AtAddress(c, "", 1, 3.0);
    var built := Built(second, true, score);
    GroupsAtAddress(first, 1);
    GroupsAtAddress(second, 2);
    GroupsAtAddress(third, 1);
    GroupsAtAddress(built, 2);
    assert Outranks(built, first) && Outranks(third, first) && !Outranks(first, third) && !Outranks(second, first);
    hide Groups, Outranks, Built, AtAddress;
    HolderLost(first, second, third, built);
  }

  lemma HolderLost(first: Peer, second: Peer, third: Peer, built: Peer)
    requires first.hash != second.hash == built.hash && first.hash != third.hash && third.hash != second.hash
    requires Groups(first) == [Subnet(1, 1), Family("f")] && Groups(third) == [Subnet(1, 1)]
    requires Groups(second) == Groups(built) == [Subnet(2, 2), Family("f")]
    requires Outranks(built, first) && Outranks(third, first) && !Outranks(first, third) && !Outranks(second, first)
    ensures var peers: Peers := map[first.hash := first, second.hash := second, third.hash := third];
            && Irredundant(peers) && Dominated(peers[second.hash := built], first)
            && !Irredundant(peers[second.hash := built])
  {
    hide Groups, Outranks;
    var peers: Peers := map[first.hash := first, second.hash := second, third.hash := third];
    assert TopsGroup(peers, first, Family("f"));
    assert TopsGroup(peers, second, Subnet(2, 2));
    assert TopsGroup(peers, third, Subnet(1, 1));
    var after := peers[second.hash := built];
    assert after[second.hash] == built && Family("f") in Groups(built);
    assert after[third.hash] == third && Subnet(1, 1) in Groups(third);
    assert after[first.hash] == first && Dominated(after, first);
  }
}
