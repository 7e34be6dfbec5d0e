/** Which peers the reseed store keeps: contention groups and the retention order. */
module Retention {
  import opened SharedPrefix

  /** An entry of the IPv4 address list; entries of another family are ignored by the groups. */
  datatype Address = Four(b0: bv8, b1: bv8, b2: bv8, b3: bv8) | Other

  datatype Peer = Peer(
    hash: Hash, rawLength: nat, published: int, family: string, addresses: seq<Address>,
    ntcp2: bool, ssu2: bool, floodfill: bool, tunnelBuild: bool, reachable: bool, fails: nat, firstSeen: int, lastSeen: int,
    score: real, rtt: int)

  datatype Group = Subnet(b0: bv8, b1: bv8) | Family(name: string)

  // ---------------------------------------------------------------------------------------
  // The retention order
  // ---------------------------------------------------------------------------------------

  predicate Viable(p: Peer) {
    p.rawLength > 0 && |p.addresses| > 0
  }

  predicate Ready(p: Peer) {
    p.reachable && p.fails < 2
  }

  /** compareRetention(a, b) < 0. */
  predicate Outranks(a: Peer, b: Peer) {
    if Viable(a) != Viable(b) then Viable(a)
    else if Ready(a) != Ready(b) then Ready(a)
    else if a.floodfill != b.floodfill then a.floodfill
    else if a.tunnelBuild != b.tunnelBuild then a.tunnelBuild
    else if a.score != b.score then a.score > b.score
    else if a.rtt != b.rtt then a.rtt < b.rtt
    else Before(a.hash, b.hash)
  }

  /** What rank means: a peer is no worse than another if it has a descriptor and an address where the
      other has; alike in that, is reachable with fewer than two failures where the other is; alike
      in that, is a floodfill where the other is; then has accepted a tunnel build where the other
      has; then has no lower score; then no longer round trip; then no later hash. */
  ghost predicate Merits(a: Peer, b: Peer) {
    var usableA, usableB := a.rawLength > 0 && a.addresses != [], b.rawLength > 0 && b.addresses != [];
    var readyA, readyB := a.reachable && a.fails < 2, b.reachable && b.fails < 2;
    var sameUse := usableA == usableB;
    var sameReady := sameUse && readyA == readyB;
    var sameRole := sameReady && a.floodfill == b.floodfill;
    var sameBuild := sameRole && a.tunnelBuild == b.tunnelBuild;
    && (usableB ==> usableA)
    && (sameUse && readyB ==> readyA)
    && (sameReady && b.floodfill ==> a.floodfill)
    && (sameRole && b.tunnelBuild ==> a.tunnelBuild)
    && (sameBuild ==> a.score >= b.score)
    && (sameBuild && a.score == b.score ==> a.rtt <= b.rtt)
    && (sameBuild && a.score == b.score && a.rtt == b.rtt ==> !Before(b.hash, a.hash))
  }

  lemma OutranksMerits(a: Peer, b: Peer)
    ensures Outranks(a, b) <==> !Merits(b, a)
  {}

  /** A strict total order on peers with different hashes: one outranks the other exactly when the
      other is not at least as good. */
  lemma RetentionOrder(a: Peer, b: Peer, c: Peer)
    ensures Outranks(a, b) <==> !Merits(b, a)
    ensures !Outranks(a, a)
    ensures Outranks(a, b) && Outranks(b, c) ==> Outranks(a, c)
    ensures a.hash != b.hash ==> Outranks(a, b) != Outranks(b, a)
  {
    OutranksMerits(a, b);
    hide Merits;
    NotBeforeItself(a.hash);
    if Before(a.hash, b.hash) && Before(b.hash, c.hash) {
      BeforeTransitive(a.hash, b.hash, c.hash);
    }
    if a.hash != b.hash {
      BeforeTotal(a.hash, b.hash);
      if Before(a.hash, b.hash) && Before(b.hash, a.hash) {
        BeforeTransitive(a.hash, b.hash, a.hash);
      }
    }
  }

  // ---------------------------------------------------------------------------------------
  // Contention groups
  // ---------------------------------------------------------------------------------------

  function Subnets(addresses: seq<Address>): seq<Group> {
    if addresses == [] then []
    else
      var rest := Subnets(addresses[1..]);
      if addresses[0].Four? then [Subnet(addresses[0].b0, addresses[0].b1)] + rest else rest
  }

  /** The groups a peer competes in, in the order they are visited. */
  function Groups(p: Peer): seq<Group> {
    Subnets(p.addresses) + if p.family != "" then [Family(p.family)] else []
  }

  /** Exactly the first two bytes of every IPv4 address, and the family if there is one. */
  lemma GroupsExactly(p: Peer, g: Group)
    ensures g in Groups(p) <==>
      match g
      case Subnet(x, y) => exists a :: a in p.addresses && a.Four? && a.b0 == x && a.b1 == y
      case Family(name) => name != "" && name == p.family
  {
    SubnetsExactly(p.addresses, g);
  }

  lemma {:induction false} SubnetsExactly(addresses: seq<Address>, g: Group)
    ensures g in Subnets(addresses) <==>
      g.Subnet? && exists a :: a in addresses && a.Four? && a.b0 == g.b0 && a.b1 == g.b1
    decreases |addresses|
  {
    if addresses != [] {
      SubnetsExactly(addresses[1..], g);
      assert forall a :: a in addresses <==> a == addresses[0] || a in addresses[1..];
    }
  }

  type Peers = map<Hash, Peer>

  ghost predicate Keyed(peers: Peers) {
    forall h :: h in peers ==> peers[h].hash == h
  }

  ghost function Members(peers: Peers, g: Group): set<Hash> {
    set h | h in peers && g in Groups(peers[h])
  }

  /** No other member of the group outranks the peer. */
  ghost predicate TopsGroup(peers: Peers, p: Peer, g: Group) {
    forall h :: h in peers && h != p.hash && g in Groups(peers[h]) ==> !Outranks(peers[h], p)
  }

  /** The peer is at least as good as every other member of the group. */
  ghost predicate Leads(peers: Peers, p: Peer, g: Group) {
    forall h :: h in peers && h != p.hash && g in Groups(peers[h]) ==> Merits(p, peers[h])
  }

  lemma TopsLeads(peers: Peers, p: Peer, g: Group)
    ensures TopsGroup(peers, p, g) <==> Leads(peers, p, g)
  {
    forall h | h in peers {
      RetentionOrder(peers[h], p, p);
    }
  }

  ghost predicate TopsAny(peers: Peers, p: Peer) {
    exists g :: g in Groups(p) && TopsGroup(peers, p, g)
  }

  /** In a group, and at the top of none. */
  ghost predicate Dominated(peers: Peers, p: Peer) {
    Groups(p) != [] && !TopsAny(peers, p)
  }

  /** No stored peer is dominated. */
  ghost predicate Irredundant(peers: Peers) {
    forall h :: h in peers ==> !Dominated(peers, peers[h])
  }

  /** What a sweep leaves. */
  ghost function Pruned(peers: Peers): (kept: Peers)
    ensures forall h :: h in kept ==> h in peers && kept[h] == peers[h]
  {
    map h | h in peers && !Dominated(peers, peers[h]) :: peers[h]
  }

  ghost predicate Within(some: Peers, all: Peers) {
    forall h :: h in some ==> h in all && some[h] == all[h]
  }

  /** Removing peers dominates nobody. */
  lemma FewerRivals(fewer: Peers, peers: Peers, p: Peer)
    requires Within(fewer, peers) && !Dominated(peers, p)
    ensures !Dominated(fewer, p)
  {
    if Groups(p) != [] {
      var g :| g in Groups(p) && TopsGroup(peers, p, g);
      assert TopsGroup(fewer, p, g);
    }
  }

  lemma RemovalKeeps(fewer: Peers, peers: Peers)
    requires Within(fewer, peers) && Irredundant(peers)
    ensures Irredundant(fewer)
  {
    forall h | h in fewer
      ensures !Dominated(fewer, fewer[h])
    {
      FewerRivals(fewer, peers, fewer[h]);
    }
  }

  /** After a sweep nobody is dominated, so a second sweep removes nothing. */
  lemma PruneIdempotent(peers: Peers)
    ensures Irredundant(Pruned(peers))
    ensures Pruned(Pruned(peers)) == Pruned(peers)
  {
    var kept := Pruned(peers);
    forall h | h in kept
      ensures !Dominated(kept, kept[h])
    {
      FewerRivals(kept, peers, kept[h]);
    }
  }

  /** Every group with a member has one that outranks all its others. */
  lemma {:induction false} Best(peers: Peers, members: set<Hash>) returns (best: Hash)
    requires Keyed(peers) && members != {} && members <= peers.Keys
    ensures best in members
    ensures forall h :: h in members && h != best ==> Outranks(peers[best], peers[h])
    decreases |members|
  {
    Inhabited(members);
    var x: Hash :| x in members;
    var rest := members - {x};
    assert forall h :: h in members ==> h == x || h in rest;
    if rest == {} {
      best := x;
    } else {
      var y := Best(peers, rest);
      RetentionOrder(peers[x], peers[y], peers[y]);
      best := if Outranks(peers[x], peers[y]) then x else y;
      forall h | h in members && h != best
        ensures Outranks(peers[best], peers[h])
      {
        RetentionOrder(peers[best], peers[y], peers[h]);
      }
    }
  }

  lemma Inhabited(s: set<Hash>)
    requires s != {}
    ensures exists h: Hash :: h in s
  {
    assert (forall h: Hash :: h !in s) ==> s == {};
  }

  /** A sweep keeps the best member of every group. */
  lemma PruneKeepsBest(peers: Peers, g: Group) returns (best: Hash)
    requires Keyed(peers) && Members(peers, g) != {}
    ensures best in Members(Pruned(peers), g)
    ensures forall h :: h in Members(peers, g) && h != best ==> Outranks(peers[best], peers[h])
  {
    best := Best(peers, Members(peers, g));
    forall h | h in peers && h != best && g in Groups(peers[h])
      ensures !Outranks(peers[h], peers[best])
    {
      assert h in Members(peers, g);
      RetentionOrder(peers[best], peers[h], peers[best]);
    }
    assert TopsGroup(peers, peers[best], g);
  }

  /** The group keeps a member at least as good as every member it had. */
  ghost predicate KeepsMerit(before: Peers, after: Peers, g: Group) {
    exists best ::
      && best in before && best in after && after[best] == before[best] && g in Groups(after[best])
      && forall h :: h in before && g in Groups(before[h]) ==> Merits(before[best], before[h])
  }

  /** So a group with a usable member keeps one, a reachable one if it had such, and so on. */
  lemma SweepKeepsMerit(peers: Peers, g: Group)
    requires Keyed(peers) && Members(peers, g) != {}
    ensures KeepsMerit(peers, Pruned(peers), g)
  {
    var best := PruneKeepsBest(peers, g);
    forall h | h in peers && g in Groups(peers[h])
      ensures Merits(peers[best], peers[h])
    {
      assert h in Members(peers, g);
      RetentionOrder(peers[h], peers[best], peers[h]);
      RetentionOrder(peers[best], peers[h], peers[best]);
    }
  }

  /** A swept peer has groups, and a kept peer outranks it in each of them. */
  lemma SweptExactly(peers: Peers, h: Hash)
    requires Keyed(peers) && h in peers
    ensures h !in Pruned(peers) <==>
              Groups(peers[h]) != [] &&
              forall g :: g in Groups(peers[h]) ==> Beaten(Pruned(peers), peers[h], g)
  {
    var p, kept := peers[h], Pruned(peers);
    if h !in kept {
      forall g | g in Groups(p)
        ensures Beaten(kept, p, g)
      {
        assert h in Members(peers, g);
        var best := PruneKeepsBest(peers, g);
        assert best in kept && g in Groups(kept[best]) && best != h;
      }
    } else if Groups(p) != [] {
      var g :| g in Groups(p) && TopsGroup(peers, p, g);
      assert !Beaten(kept, p, g);
    }
  }

  ghost predicate Beaten(peers: Peers, p: Peer, g: Group) {
    exists h :: h in peers && h != p.hash && g in Groups(peers[h]) && Outranks(peers[h], p)
  }

  // ---------------------------------------------------------------------------------------
  // Admission
  // ---------------------------------------------------------------------------------------

  ghost predicate SharesGroup(p: Peer, q: Peer) {
    exists g :: g in Groups(p) && g in Groups(q)
  }

  /** The co-members of `p` that are dominated; only they are looked at after `p` is stored. */
  ghost function Displaced(peers: Peers, p: Peer): set<Hash> {
    set h | h in peers && h != p.hash && SharesGroup(peers[h], p) && Dominated(peers, peers[h])
  }

  /** Storing an undominated peer and dropping its dominated co-members is a whole sweep. */
  lemma AdmissionSweeps(peers: Peers, p: Peer)
    requires Keyed(peers) && Irredundant(peers - {p.hash}) && !Dominated(peers - {p.hash}, p)
    ensures peers[p.hash := p] - Displaced(peers[p.hash := p], p) == Pruned(peers[p.hash := p])
    ensures Irredundant(peers[p.hash := p] - Displaced(peers[p.hash := p], p))
  {
    var after, others := peers[p.hash := p], peers - {p.hash};
    SameRivals(peers, p);
    forall h | h in after && h != p.hash && Dominated(after, after[h])
      ensures SharesGroup(after[h], p)
    {
      assert h in others && others[h] == after[h];
      OnlyByNewcomer(peers, p, h);
    }
    PruneIdempotent(after);
  }

  lemma SameRivals(peers: Peers, p: Peer)
    requires !Dominated(peers - {p.hash}, p)
    ensures !Dominated(peers[p.hash := p], p)
  {
    var after, others := peers[p.hash := p], peers - {p.hash};
    if Groups(p) != [] {
      var g :| g in Groups(p) && TopsGroup(others, p, g);
      assert forall h :: h in after && h != p.hash ==> h in others && others[h] == after[h];
      assert TopsGroup(after, p, g);
    }
  }

  /** A peer dominated only since `p` is stored shares a group with `p`. */
  lemma OnlyByNewcomer(peers: Peers, p: Peer, h: Hash)
    requires Keyed(peers) && h in peers && h != p.hash
    requires !Dominated(peers - {p.hash}, peers[h]) && Dominated(peers[p.hash := p], peers[h])
    ensures SharesGroup(peers[h], p)
  {
    var q, after, others := peers[h], peers[p.hash := p], peers - {p.hash};
    var g :| g in Groups(q) && TopsGroup(others, q, g);
    assert forall r :: r in after && r != p.hash ==> r in others && others[r] == after[r];
    assert !TopsGroup(after, q, g);
    var r :| r in after && r != h && g in Groups(after[r]) && Outranks(after[r], q);
  }

  // ---------------------------------------------------------------------------------------
  // How the groups follow the peers
  // ---------------------------------------------------------------------------------------

  /** What one peer contributes to a group. */
  function Claim(p: Peer, g: Group): set<Hash> {
    if g in Groups(p) then {p.hash} else {}
  }

  lemma MembersAfterPut(peers: Peers, p: Peer, g: Group)
    ensures Members(peers[p.hash := p], g) == Members(peers - {p.hash}, g) + Claim(p, g)
  {}

  lemma MembersAfterDrop(peers: Peers, h: Hash, g: Group)
    requires Keyed(peers) && h in peers
    ensures Members(peers - {h}, g) == Members(peers, g) - Claim(peers[h], g)
  {}

  lemma ClaimCounted(peers: Peers, h: Hash, g: Group)
    requires Keyed(peers) && h in peers
    ensures Claim(peers[h], g) <= Members(peers, g)
  {}

  lemma SameGroups(peers: Peers, p: Peer, g: Group)
    requires Keyed(peers) && p.hash in peers && Groups(p) == Groups(peers[p.hash])
    ensures Members(peers[p.hash := p], g) == Members(peers, g)
  {}

  // ---------------------------------------------------------------------------------------
  // Ranks that drift
  // ---------------------------------------------------------------------------------------

  /** The peer is at the top of a group that `p` is not in. */
  ghost predicate TopsElsewhere(peers: Peers, q: Peer, p: Peer) {
    exists g :: g in Groups(q) && g !in Groups(p) && TopsGroup(peers, q, g)
  }

  /** A co-member that `p` newly outranks and that has no other group to be at the top of. */
  ghost predicate Overtaken(peers: Peers, p: Peer, h: Hash)
    requires p.hash in peers && h in peers
  {
    && h != p.hash && SharesGroup(peers[h], p)
    && Outranks(p, peers[h]) && !Outranks(peers[p.hash], peers[h])
    && !TopsElsewhere(peers, peers[h], p)
  }

  /** A changed rank leaves the store without dominated peers exactly when the new rank is not
      dominated by the others, and it overtakes no co-member that lives on that group alone. Both
      are decided on the store before the change. */
  lemma DriftExactly(peers: Peers, p: Peer)
    requires Keyed(peers) && Irredundant(peers) && p.hash in peers && Groups(p) == Groups(peers[p.hash])
    ensures Irredundant(peers[p.hash := p]) <==>
              !Dominated(peers, p) && forall h :: h in peers ==> !Overtaken(peers, p, h)
  {
    hide Groups, Outranks;
    var after := peers[p.hash := p];
    OwnRank(peers, p);
    assert after[p.hash] == p;
    if !Dominated(peers, p) {
      forall h | h in peers && h != p.hash
        ensures Dominated(after, after[h]) <==> Overtaken(peers, p, h)
      {
        assert after[h] == peers[h] && !Dominated(peers, peers[h]);
        OvertakenExactly(peers, p, h);
      }
      hide Dominated, Overtaken;
      if forall h :: h in peers ==> !Overtaken(peers, p, h) {
        assert forall h :: h in after ==> !Dominated(after, after[h]);
      } else {
        var h :| h in peers && Overtaken(peers, p, h);
        NotOwnOvertaken(peers, p, h);
        assert h in after && Dominated(after, after[h]);
      }
    }
  }

  lemma NotOwnOvertaken(peers: Peers, p: Peer, h: Hash)
    requires p.hash in peers && h in peers && Overtaken(peers, p, h)
    ensures h != p.hash
  {}

  /** A peer is compared with the others only. */
  lemma OwnRank(peers: Peers, p: Peer)
    requires p.hash in peers
    ensures Dominated(peers[p.hash := p], p) <==> Dominated(peers, p)
  {
    hide Outranks;
    var after := peers[p.hash := p];
    forall g: Group
      ensures TopsGroup(after, p, g) <==> TopsGroup(peers, p, g)
    {
      assert forall h :: h in after && h != p.hash ==> after[h] == peers[h];
      assert forall h :: h in peers && h != p.hash ==> h in after;
    }
  }

  /** How a new rank changes who is at the top of a group. */
  lemma TopsAfter(peers: Peers, p: Peer, q: Peer, g: Group)
    requires p.hash in peers && q.hash != p.hash && Groups(p) == Groups(peers[p.hash])
    ensures g !in Groups(p) ==> (TopsGroup(peers[p.hash := p], q, g) <==> TopsGroup(peers, q, g))
    ensures g in Groups(p) && Outranks(p, q) ==> !TopsGroup(peers[p.hash := p], q, g)
    ensures g in Groups(p) && !Outranks(p, q) && TopsGroup(peers, q, g) ==> TopsGroup(peers[p.hash := p], q, g)
    ensures g in Groups(p) && TopsGroup(peers, q, g) ==> !Outranks(peers[p.hash], q)
  {
    hide Groups, Outranks;
    var after := peers[p.hash := p];
    assert after[p.hash] == p;
    assert forall h :: h in after && h != p.hash ==> h in peers && after[h] == peers[h];
    assert forall h :: h in peers && h != p.hash ==> h in after;
  }

  lemma OvertakenExactly(peers: Peers, p: Peer, h: Hash)
    requires Keyed(peers) && p.hash in peers && Groups(p) == Groups(peers[p.hash])
    requires h in peers && h != p.hash && !Dominated(peers, peers[h])
    ensures Dominated(peers[p.hash := p], peers[h]) <==> Overtaken(peers, p, h)
  {
    hide Outranks, TopsGroup;
    var q, after := peers[h], peers[p.hash := p];
    forall g: Group {
      TopsAfter(peers, p, q, g);
    }
    if Overtaken(peers, p, h) {
      var g :| g in Groups(q) && g in Groups(p);
    } else if Groups(q) != [] {
      var g :| g in Groups(q) && TopsGroup(peers, q, g);
      if g !in Groups(p) || !Outranks(p, q) {
        assert TopsGroup(after, q, g);
      } else {
        assert SharesGroup(q, p) && !Outranks(peers[p.hash], q);
        var other :| other in Groups(q) && other !in Groups(p) && TopsGroup(peers, q, other);
        assert TopsGroup(after, q, other);
      }
    }
  }
}
