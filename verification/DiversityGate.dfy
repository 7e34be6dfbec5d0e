/** The subnet and family gate of the peer selection. */
module DiversityGate {

  type Key = seq<bv8>

  /** A qualified peer, by its subnet keys and its family. */
  datatype Candidate = Candidate(keys: seq<Key>, family: string)

  ghost predicate Share(a: Candidate, b: Candidate) {
    exists k :: k in a.keys && k in b.keys
  }

  /** The admitted peers before position `i` that are of a family. */
  function Relatives(q: seq<Candidate>, kept: set<nat>, i: nat, family: string): set<nat> {
    set a | a in kept && a < i && a < |q| && q[a].family == family
  }

  /** An earlier admitted peer holds one of the prefixes, or the family is full. */
  ghost predicate Blocked(q: seq<Candidate>, kept: set<nat>, i: nat, cap: nat)
    requires i < |q|
  {
    || (exists a :: a in kept && a < i && Share(q[a], q[i]))
    || (q[i].family != "" && |Relatives(q, kept, i, q[i].family)| >= cap)
  }

  /** Whoever is not blocked by the earlier admitted peers is admitted, and nobody else. */
  ghost predicate Admits(q: seq<Candidate>, kept: set<nat>, n: nat, cap: nat)
    requires n <= |q|
  {
    && (forall i :: i in kept ==> i < n)
    && (forall i: nat :: i < n ==> (i in kept <==> !Blocked(q, kept, i, cap)))
  }

  /** There is exactly one such choice. */
  lemma {:induction false} AdmitsUnique(q: seq<Candidate>, a: set<nat>, b: set<nat>, cap: nat, i: nat)
    requires Admits(q, a, |q|, cap) && Admits(q, b, |q|, cap) && i < |q|
    ensures i in a <==> i in b
  {
    forall j: nat | j < i
      ensures j in a <==> j in b
    {
      AdmitsUnique(q, a, b, cap, j);
    }
    assert Relatives(q, a, i, q[i].family) == Relatives(q, b, i, q[i].family);
    assert Blocked(q, a, i, cap) <==> Blocked(q, b, i, cap);
  }

  lemma RelativesStep(q: seq<Candidate>, kept: set<nat>, n: nat, f: string)
    requires n < |q|
    ensures Relatives(q, kept, n + 1, f)
         == Relatives(q, kept, n, f) + if n in kept && q[n].family == f then {n} else {}
  {}

  lemma NotFull(q: seq<Candidate>, kept: set<nat>, i: nat, cap: nat)
    requires i < |q| && !Blocked(q, kept, i, cap) && q[i].family != ""
    ensures |Relatives(q, kept, i, q[i].family)| < cap
  {}

  /** No family has more than its share among the peers before `n`. */
  lemma {:induction false} FamilyCapped(q: seq<Candidate>, kept: set<nat>, cap: nat, f: string, n: nat)
    requires Admits(q, kept, |q|, cap) && f != "" && n <= |q|
    ensures |Relatives(q, kept, n, f)| <= cap
  {
    if n == 0 {
      assert Relatives(q, kept, 0, f) == {};
    } else {
      FamilyCapped(q, kept, cap, f, n - 1);
      RelativesStep(q, kept, n - 1, f);
      hide Relatives, Blocked;
      if n - 1 in kept && q[n - 1].family == f {
        NotFull(q, kept, n - 1, cap);
      }
    }
  }

  /** No two admitted peers share a prefix, and no family has more than its share of them. */
  lemma AdmitsDiverse(q: seq<Candidate>, kept: set<nat>, cap: nat)
    requires Admits(q, kept, |q|, cap)
    ensures forall i, j :: i in kept && j in kept && i < j ==> !Share(q[i], q[j])
    ensures forall f :: f != "" ==> |Relatives(q, kept, |q|, f)| <= cap
  {
    forall i, j | i in kept && j in kept && i < j
      ensures !Share(q[i], q[j])
    {
      assert !Blocked(q, kept, j, cap);
    }
    forall f: string | f != ""
      ensures |Relatives(q, kept, |q|, f)| <= cap
    {
      FamilyCapped(q, kept, cap, f, |q|);
    }
  }

  lemma StillBlocked(q: seq<Candidate>, kept: set<nat>, more: set<nat>, i: nat, cap: nat)
    requires i < |q| && kept <= more && forall a :: a in more && a < i ==> a in kept
    ensures Blocked(q, kept, i, cap) <==> Blocked(q, more, i, cap)
  {
    assert Relatives(q, kept, i, q[i].family) == Relatives(q, more, i, q[i].family);
  }

  function Seen(families: map<string, nat>, f: string): nat {
    if f in families then families[f] else 0
  }

  /** The two tables say what the admitted peers hold. */
  ghost predicate Recorded(q: seq<Candidate>, n: nat, kept: set<nat>, subnets: set<Key>, families: map<string, nat>)
    requires n <= |q|
  {
    && (forall a :: a in kept ==> a < n)
    && (forall k :: k in subnets <==> exists a :: a in kept && k in q[a].keys)
    && (forall f :: f != "" ==> Seen(families, f) == |Relatives(q, kept, n, f)|)
  }

  lemma RecordedSkip(q: seq<Candidate>, n: nat, kept: set<nat>, subnets: set<Key>, families: map<string, nat>)
    requires n < |q| && Recorded(q, n, kept, subnets, families)
    ensures Recorded(q, n + 1, kept, subnets, families)
  {
    forall f: string
      ensures Relatives(q, kept, n + 1, f) == Relatives(q, kept, n, f)
    {}
  }

  function Counted(families: map<string, nat>, f: string): map<string, nat> {
    if f != "" then families[f := Seen(families, f) + 1] else families
  }

  lemma RelativesAdded(q: seq<Candidate>, n: nat, kept: set<nat>, f: string)
    requires n < |q|
    ensures Relatives(q, kept + {n}, n + 1, f)
         == Relatives(q, kept, n, f) + if q[n].family == f then {n} else {}
  {}

  lemma FamilyCounted(q: seq<Candidate>, n: nat, kept: set<nat>, families: map<string, nat>, f: string)
    requires n < |q| && f != "" && Seen(families, f) == |Relatives(q, kept, n, f)|
    ensures Seen(Counted(families, q[n].family), f) == |Relatives(q, kept + {n}, n + 1, f)|
  {
    RelativesAdded(q, n, kept, f);
    assert n !in Relatives(q, kept, n, f);
  }

  lemma KeysAdded(q: seq<Candidate>, n: nat, kept: set<nat>, k: Key)
    requires n < |q| && forall a :: a in kept ==> a < n
    ensures (exists a :: a in kept + {n} && k in q[a].keys)
       <==> (exists a :: a in kept && k in q[a].keys) || k in q[n].keys
  {
    assert n in kept + {n};
  }

  lemma RecordedAdd(q: seq<Candidate>, n: nat, kept: set<nat>, subnets: set<Key>, families: map<string, nat>)
    requires n < |q| && Recorded(q, n, kept, subnets, families)
    ensures Recorded(q, n + 1, kept + {n}, subnets + (set k | k in q[n].keys), Counted(families, q[n].family))
  {
    forall f: string | f != ""
      ensures Seen(Counted(families, q[n].family), f) == |Relatives(q, kept + {n}, n + 1, f)|
    {
      FamilyCounted(q, n, kept, families, f);
    }
    hide Relatives, Seen, Counted;
    var more := subnets + (set k | k in q[n].keys);
    forall k: Key
      ensures k in more <==> exists a :: a in kept + {n} && k in q[a].keys
    {
      KeysAdded(q, n, kept, k);
    }
  }

  /** What the tables decide. */
  lemma BlockedByTables(
    q: seq<Candidate>, i: nat, kept: set<nat>, subnets: set<Key>, families: map<string, nat>, cap: nat)
    requires i < |q| && Recorded(q, i, kept, subnets, families)
    ensures Blocked(q, kept, i, cap) <==>
              (exists k :: k in q[i].keys && k in subnets)
              || (q[i].family != "" && Seen(families, q[i].family) >= cap)
  {
    if k :| k in q[i].keys && k in subnets {
      var a :| a in kept && k in q[a].keys;
      assert Share(q[a], q[i]);
    }
  }

  method Apply(q: seq<Candidate>, cap: nat) returns (pool: seq<Candidate>, kept: set<nat>)
    ensures Admits(q, kept, |q|, cap)
    ensures pool == Picked(q, kept, |q|)
    ensures |pool| == |kept|
    ensures forall i :: i in kept ==> |Before(kept, i)| < |pool| && pool[|Before(kept, i)|] == q[i]
  {
    hide Blocked, Recorded;
    var seenSubnets: set<Key>, seenFamilies: map<string, nat> := {}, map[];
    pool, kept := [], {};
    NothingRecorded(q);
    for i := 0 to |q|
      invariant Recorded(q, i, kept, seenSubnets, seenFamilies) && Admits(q, kept, i, cap)
      invariant pool == Picked(q, kept, i)
    {
      var p := q[i];
      BlockedByTables(q, i, kept, seenSubnets, seenFamilies, cap);
      var blocked := exists k | k in p.keys :: k in seenSubnets;
      if blocked || (p.family != "" && Seen(seenFamilies, p.family) >= cap) {
        RecordedSkip(q, i, kept, seenSubnets, seenFamilies);
      } else {
        RecordedAdd(q, i, kept, seenSubnets, seenFamilies);
        AdmitOne(q, kept, i, cap);
        PickedSame(q, kept, kept + {i}, i);
        seenSubnets := seenSubnets + set k | k in p.keys;
        seenFamilies := Counted(seenFamilies, p.family);
        pool := pool + [p];
        kept := kept + {i};
      }
    }
    PickedExactly(q, kept, |q|);
  }

  lemma NothingRecorded(q: seq<Candidate>)
    ensures Recorded(q, 0, {}, {}, map[])
  {
    forall f: string
      ensures Relatives(q, {}, 0, f) == {}
    {}
  }

  lemma AdmitOne(q: seq<Candidate>, kept: set<nat>, i: nat, cap: nat)
    requires i < |q| && Admits(q, kept, i, cap) && !Blocked(q, kept, i, cap)
    ensures Admits(q, kept + {i}, i + 1, cap)
  {
    hide Blocked;
    forall j: nat | j <= i
      ensures Blocked(q, kept, j, cap) <==> Blocked(q, kept + {i}, j, cap)
    {
      StillBlocked(q, kept, kept + {i}, j, cap);
    }
  }

  /** The admitted peers in order. */
  function Picked(q: seq<Candidate>, kept: set<nat>, n: nat): seq<Candidate>
    requires n <= |q|
  {
    if n == 0 then []
    else Picked(q, kept, n - 1) + if n - 1 in kept then [q[n - 1]] else []
  }

  lemma {:induction false} PickedSame(q: seq<Candidate>, a: set<nat>, b: set<nat>, n: nat)
    requires n <= |q| && forall i: nat :: i < n ==> (i in a <==> i in b)
    ensures Picked(q, a, n) == Picked(q, b, n)
  {
    if n > 0 {
      PickedSame(q, a, b, n - 1);
    }
  }

  /** The admitted peers before position `i`. */
  function Before(kept: set<nat>, i: nat): set<nat> {
    set a | a in kept && a < i
  }

  /** The admitted peer at position `i` stands after exactly those admitted before it. */
  lemma PickedExactly(q: seq<Candidate>, kept: set<nat>, n: nat)
    requires n <= |q| && forall i :: i in kept ==> i < n
    ensures |Picked(q, kept, n)| == |kept|
    ensures forall i :: i in kept ==> |Before(kept, i)| < |kept| && Picked(q, kept, n)[|Before(kept, i)|] == q[i]
  {
    assert Before(kept, n) == kept;
    PickedSize(q, kept, n);
    forall i | i in kept
      ensures |Before(kept, i)| < |kept| && Picked(q, kept, n)[|Before(kept, i)|] == q[i]
    {
      PickedAt(q, kept, n, i);
    }
  }

  lemma {:induction false} PickedSize(q: seq<Candidate>, kept: set<nat>, n: nat)
    requires n <= |q|
    ensures |Picked(q, kept, n)| == |Before(kept, n)|
  {
    if n == 0 {
      assert Before(kept, 0) == {};
    } else {
      PickedSize(q, kept, n - 1);
      BeforeStep(kept, n - 1);
    }
  }

  lemma BeforeStep(kept: set<nat>, n: nat)
    ensures |Before(kept, n + 1)| == |Before(kept, n)| + if n in kept then 1 else 0
  {
    assert Before(kept, n + 1) == Before(kept, n) + if n in kept then {n} else {};
  }

  lemma {:induction false} PickedAt(q: seq<Candidate>, kept: set<nat>, n: nat, i: nat)
    requires n <= |q| && i in kept && i < n
    ensures |Before(kept, i)| < |Picked(q, kept, n)| && Picked(q, kept, n)[|Before(kept, i)|] == q[i]
  {
    if i == n - 1 {
      PickedSize(q, kept, n - 1);
    } else {
      PickedAt(q, kept, n - 1, i);
    }
  }
}
