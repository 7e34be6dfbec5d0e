# IVNP, modelled and proved in Dafny

IVNP is an I2P router. This project models the core of ten of its files and proves what they are
for. It has four parts, which do not depend on each other.

**Field arithmetic, X25519, Elligator2 and ElGamal.** Elements of GF(2^255-19) are four 64-bit
limbs. `Words` holds the word operations and the masks, `Field25519` the carry chains, the fold
and the 512-bit reduction, `FieldMul` the product and the square, `FieldPow` the power chains,
`Bytes` loading and storing. `Rfc7748` is the ladder of section 5 of RFC 7748 on plain integers,
`Montgomery` proves that it computes the multiple of a curve point, from the chord and tangent
formulas up, and `Ladder` that the limb ladder computes it. `Primes` (Euclid, Fermat) and `Quadratic`
(Euler, square roots, 2 is not a square) are the mathematics that `SqrtRatio` and `Elligator`
need. `ElGamal` is the round trip over group 14 of section 3 of RFC 3526. `ModArith` is
congruence and powers.

**Reseed peer selection and its store.** `SharedPrefix` shows that the shared-prefix length of
hashes is an ultrametric, and `FarthestPoint` that the greedy sampler therefore covers the
keyspace as well as any choice of as many peers as it picks outside the floodfill quota, and of as
many as it picks at all when all or none are floodfills. `DiversityGate` and `Stratify` are the stages
before and after it. `Retention` is the dominance order of the store, `Eviction` what a batch may
remove, and `PeerStore` the store itself with its two indexes.

**Simulated streams.** `SimStream` is the receiving side of a connection, `SimStreamRuns` its runs
with any number of concurrent writers, `Scheduler` and `SchedulerRuns` the event scheduler,
`LinkOrder` the delay of a link and which links keep the order, and `StreamOverLink` a stream
delivered by the scheduler over such a link.

**Two protocols of the facade.** `DialRace` is the concurrent dial, `PacketDeadline` the deadlines
and timers of packet sockets, and `PacketSocket` the socket that updates its fields as those steps
say. The first two are state machines over the steps that a lock, a channel or an atomic variable
makes indivisible, and the results hold for every interleaving.

## Conventions and findings

- `Prime(p)` says that p is above 1 and that no number between 1 and p divides it. Results that
  need the modulus to be prime have it as a hypothesis; the others hold without it.
- `Quadratic` and the map of `Elligator` are stated for every modulus that is 5 modulo 8;
  `Elligator.SettingHolds` derives what they ask of it from `Prime(P)` alone.
- `bits.Add64` is documented for a carry-in of 0 or 1. The reduction can pass it 2. `Words.Add64`
  extends it exactly, and everything above the reduction uses that. `Field25519.ReduceExactly`
  states what the documented contract alone gives: the reduction is right under every adder that
  meets it exactly on the values whose carry sums stay at most 1. `FieldMul.MulLeavesContract`
  gives two reduced elements whose product is not such a value.
- `sub` keeps the residue exactly when the second operand is at most the first plus p, and `neg`
  exactly up to 2p; the callers stay within that.
- A record that is touched without a newer descriptor changes its rank without a look at its
  groups, so the store can then hold a dominated peer. `PeerStore.DriftHappens` is an example, and
  `Retention.DriftExactly` says when it happens, on the store before the change.
- `Montgomery` is stated for every modulus above 1. The ladder's points are the multiples up to a
  factor for each: from the point at infinity it reaches 4u^2 : 4u instead of u : 1. The factors are
  nonzero modulo an odd prime unless u is 0, and then the result is 0 all the same.
- A link with jitter delivers in order exactly when `LinkOrder.KeepsOrder` holds of its settings.

## Model

| member | source | states |
|---|---|---|
| Words.Add64 | cryptography/field25519.go:97-103 | word addition loses nothing: low word and carry are the sum, for every carry-in |
| Masks.NonzeroMask | cryptography/field25519.go:47 | all ones for a nonzero word, zero for zero |
| Masks.ZeroMask | cryptography/field25519.go:48 | all ones for zero, zero otherwise |
| Masks.EqualMask | cryptography/field25519.go:50-52 | all ones on equal limbs, zero when any limb differs |
| Masks.Select | cryptography/field25519.go:68-75 | an all-ones mask selects the first element, a zero mask the second |
| Field25519.ValInjective | cryptography/field25519.go:12-20 | different limbs stand for different integers, so limb equality is equality of values |
| Field25519.Less | cryptography/field25519.go:56-62 | the final borrow decides the order of the two 256-bit values |
| Field25519.LessOrEqual | cryptography/field25519.go:64-66 | decides at most, for all 256-bit values |
| Field25519.Canonical | cryptography/field25519.go:77-83 | subtracts p once exactly when the value is at least p |
| Field25519.Fold | cryptography/field25519.go:86-95 | the reduced remainder of limbs plus carry times 2^256, for every carry whose fold does not wrap |
| Field25519.Add | cryptography/field25519.go:97-103 | the reduced sum of any two 256-bit values |
| Field25519.Sub | cryptography/field25519.go:105-116 | the residue of the difference is kept if and only if the second value is at most the first plus p; reduced on reduced operands |
| Field25519.Neg | cryptography/field25519.go:118-121 | the residue of the negative is right if and only if the value is at most 2p |
| Field25519.CarrySums | cryptography/field25519.go:123-139 | the carry sums at lines 129 and 133 never exceed 2, and exactly when each is 2, on the partial sums |
| Field25519.FoldBy38Exact | cryptography/field25519.go:123-137 | with exact addition limbs and carry are the low half plus 38 times the high half, and the carry is at most 39 |
| Field25519.Reduce512 | cryptography/field25519.go:123-139 | the reduced remainder of every 512-bit value, over exact addition |
| Field25519.ReduceDocumented | cryptography/field25519.go:123-139 | where both carry sums are at most 1, the limbs returned over any adder with the documented contract are the remainder |
| Field25519.ReduceOutside | cryptography/field25519.go:123-139 | on every other value the limbs returned over some adder with the documented contract are not the remainder |
| Field25519.ReduceExactly | cryptography/field25519.go:123-139 | the documented contract makes the returned limbs the remainder if and only if both carry sums are at most 1 |
| FieldMul.MulRow | cryptography/field25519.go:145-161 | one word times four limbs, exactly |
| FieldMul.AddRow | cryptography/field25519.go:162-194 | adding a row onto the limbs above the final ones loses no carry |
| FieldMul.MulWide | cryptography/field25519.go:141-194 | the eight limbs are the exact integer product of any two 256-bit values |
| FieldMul.AddMiddle | cryptography/field25519.go:210-216 | the products of the second limb with the third and fourth, added exactly |
| FieldMul.Double | cryptography/field25519.go:222-229 | the shifted limbs are twice the cross terms, with no bit lost |
| FieldMul.SquareWide | cryptography/field25519.go:199-243 | the eight limbs are the exact square of any 256-bit value |
| FieldMul.WideInjective | cryptography/field25519.go:141-246 | eight limbs are determined by their value, so square and mul of an element with itself form the same limbs |
| FieldMul.Mul | cryptography/field25519.go:141-197 | the reduced product of any two 256-bit values |
| FieldMul.Square | cryptography/field25519.go:199-246 | the reduced square of any 256-bit value |
| FieldMul.MulA24 | cryptography/field25519.go:248-258 | the reduced product by 121665 of any 256-bit value |
| FieldMul.MulLeavesContract | cryptography/field25519.go:123-194 | two reduced elements whose product makes a carry sum 2 |
| FieldPow.SquareN | cryptography/field25519.go:260-265 | n squarings are the power 2^n, and no squaring returns the limbs unchanged |
| FieldPow.Pow250 | cryptography/field25519.go:269-281 | the chain computes the powers 2^250 - 1 and 11 |
| FieldPow.Invert | cryptography/field25519.go:283-286 | the power p - 2, for every value |
| FieldPow.Pow22523 | cryptography/field25519.go:288-291 | the power (p - 5) / 8, for every value |
| Bytes.LoadValue | cryptography/field25519.go:22-30 | loading reads the little-endian integer |
| Bytes.Store | cryptography/field25519.go:32-45 | the 32 bytes written are the little-endian value, and the rest of the buffer is unchanged |
| Ladder.DoublePart | cryptography/field25519.go:318-329 | the doubled point of RFC 7748, reduced; by `Montgomery.DoubledFormula` the doubling of the curve |
| Ladder.AddPart | cryptography/field25519.go:322-327 | the differential sum of RFC 7748, reduced; by `Montgomery.AddedFormula` that of the curve |
| Ladder.Step | cryptography/field25519.go:317-329 | one pass of the loop is one pass of the RFC 7748 ladder on residues, and leaves every coordinate reduced; `Montgomery.StepFormula` gives that pass as polynomials |
| Rfc7748.ByteBit | cryptography/field25519.go:310 | bit t of the scalar is bit t mod 8 of byte t div 8 |
| Rfc7748.DecodedScalar | cryptography/field25519.go:295-298 | the clamped scalar is a multiple of 8 from 2^254 to below 2^255, and has the scalar's bits 3 to 253 |
| Rfc7748.DecodedPoint | cryptography/field25519.go:299-302 | the u-coordinate is the low 255 bits of the point, reduced |
| Montgomery.DoubledFormula | cryptography/field25519.go:317-329 | AA BB and E (AA + a24 E) are (x^2 - z^2)^2 and 4xz (x^2 + 486662 xz + z^2), for every modulus |
| Montgomery.AddedFormula | cryptography/field25519.go:322-327 | (DA + CB)^2 and u (DA - CB)^2 are 4 (x2 x3 - z2 z3)^2 and 4u (x3 z2 - x2 z3)^2, for every modulus |
| Montgomery.StepFormula | cryptography/field25519.go:317-329 | one pass is the double of the first point and the differential sum of both |
| Montgomery.TangentLaw | cryptography/field25519.go:318-329 | that double is where the tangent of y^2 = x^3 + 486662 x^2 + x says |
| Montgomery.ChordLaw | cryptography/field25519.go:322-327 | that differential sum is what the chords of sum and difference of two curve points satisfy |
| Montgomery.LadderLaw | cryptography/field25519.go:309-330 | after the bits from 254 down to t the unswapped points are the multiples k / 2^t and k / 2^t + 1 up to a factor each, which is nonzero for an odd prime and u not 0; multiples are defined by doubling and differential sum, not by the ladder |
| Montgomery.HighExactly | cryptography/field25519.go:310 | what is left of k after t halvings is k / 2^t |
| Montgomery.AffineQuotient | cryptography/field25519.go:334 | the closing power makes X / Z, and 0 where Z is 0 |
| Montgomery.X25519IsMultiple | cryptography/field25519.go:293-334 | if p is prime the result is the affine x-coordinate of the multiple of the point by the clamped scalar, for every scalar and every point, 0 included |
| Ladder.ScalarMult | cryptography/field25519.go:293-334 | for every scalar and every 32-byte u, reduced or not: the RFC 7748 result, which for prime p is the x-coordinate of the point's multiple by the clamped scalar |
| Ladder.X25519ScalarMult | cryptography/field25519.go:293-336 | the 32 output bytes are that result and, for prime p, that multiple, also when the output buffer is one of the inputs |
| Primes.Fermat | cryptography/field25519.go:283-286 | a nonzero residue modulo a prime has power p - 1 equal to 1, which makes the power p - 2 an inverse |
| Quadratic.CandidateCheck | cryptography/field25519.go:340-345 | v times the squared candidate is u times (u v^7)^((p-1)/4), without primality |
| Quadratic.CandidateExactly | cryptography/field25519.go:340-351 | up to sign the candidate is a root of u / v if and only if u v is a square |
| Quadratic.TwoNotSquare | cryptography/elligator.go:31-36 | 2 is not a square modulo p, from primality alone |
| Quadratic.NoTwoTorsion | cryptography/elligator.go:77-82 | x^2 + A x + 1 is never zero |
| SqrtRatio.HalfRange | cryptography/field25519.go:349 | the smaller of an element and its negative |
| SqrtRatio.Ratio | cryptography/field25519.go:340-351 | the root is at most (p-1)/2; a true mask means v r^2 = u, and the mask is true for u = 0 and false for v = 0 with u nonzero, all without primality; with it the mask is true for nonzero operands if and only if u v is a square |
| SqrtRatio.IsSquareNonzero | cryptography/field25519.go:353-356 | true if and only if the value is a nonzero square |
| Elligator.SettingHolds | cryptography/elligator.go:24-36 | if p is prime then -1 is a square and x^2 + A x + 1 has no root, which is all the map needs |
| Elligator.RepresentativeMaps | cryptography/elligator.go:31-82 | both representatives of a key map to the same key: x when x is on the curve, -x - A otherwise |
| Elligator.DecodeField | cryptography/elligator.go:75-82 | the decoder's field arithmetic is the map |
| Elligator.DecodeElligator2 | cryptography/elligator.go:64-91 | accepts exactly the half range whatever the two top bits, and writes the mapped key; nothing is written on an error |
| Elligator.KeyRatio | cryptography/elligator.go:31-36 | a key is eligible if and only if x times 2 (-x - A) is a square, and then the root is a representative |
| Elligator.WriteRepresentative | cryptography/elligator.go:51-59 | either entropy bit gives a representative in the half range, written under the two top bits of the entropy |
| Elligator.EncodeElligator2 | cryptography/elligator.go:15-61 | which inputs are invalid, when the random byte is read, and that the bytes written hold a half-range representative under the two random top bits |
| Elligator.RoundTrip | cryptography/elligator.go:15-91 | decoding any encoding of any eligible key, for any random byte, gives x or -x - A as above |
| ElGamal.FillThenRead | cryptography/elgamal.go:80-91 | a number that fits n bytes is read back from them |
| ElGamal.ReadThenFill | cryptography/elgamal.go:148-164 | bytes read as a number are filled back unchanged |
| ElGamal.PublicKeyValid | cryptography/elgamal.go:80-91 | every valid private key gives a public key in range, the power of the generator |
| ElGamal.Complement | cryptography/elgamal.go:154-159 | a^k raised to x times the same raised to p - 1 - x is 1 |
| ElGamal.OpenExactly | cryptography/elgamal.go:160-173 | the length, prefix and digest checks accept a number if and only if it is the message of the plaintext returned |
| ElGamal.EncryptExactly | cryptography/elgamal.go:99-132 | an encryption is accepted if and only if the sizes fit and the key is in range, and is then a zero byte and the power of the generator, a zero byte and the message masked by the power of the key, each in 256 bytes |
| ElGamal.DecryptExactly | cryptography/elgamal.go:136-174 | a plaintext is returned if and only if sizes, zero bytes, private key and both numbers are in range and the unmasked number is 0xff, the plaintext's digest and the plaintext |
| ElGamal.RoundTrip | cryptography/elgamal.go:80-174 | decrypting any encryption under any valid key and nonce returns the plaintext, given that the generator's power p - 1 is 1 |
| SharedPrefix.PrefixExactly | cmd/ivnp-reseed/selector.go:288-295 | the shared prefix is at least n if and only if the first n bits agree |
| SharedPrefix.FullPrefix | cmd/ivnp-reseed/selector.go:286-295 | the shared prefix is 256 if and only if the hashes are equal |
| SharedPrefix.Ultrametric | cmd/ivnp-reseed/selector.go:288-295 | two hashes that share n bits with a third share n bits |
| SharedPrefix.BeforeExactly | cmd/ivnp-reseed/selector.go:343 | a hash is before another if and only if at their first different byte it has the smaller one |
| FarthestPoint.NotBetterExactly | cmd/ivnp-reseed/selector.go:328-344 | a candidate does not come before a chosen peer if and only if the chosen one is no nearer; as near, is a floodfill if the candidate is; then has no longer round trip, then no lower score, then no later hash |
| FarthestPoint.Sampler.Commit | cmd/ivnp-reseed/selector.go:316-327 | after each pick the cached prefix of every unused peer is its true longest prefix with a selected one |
| FarthestPoint.Sampler.Pick | cmd/ivnp-reseed/selector.go:345-356 | none exactly when nobody is eligible; otherwise a peer that is preferred, in that sense, to every eligible one |
| FarthestPoint.Sampler.Anchor | cmd/ivnp-reseed/selector.go:361-375 | the best scored floodfill, or the best scored peer if the pool has none; the first of them at the same score |
| FarthestPoint.Sampler.FillQuota | cmd/ivnp-reseed/selector.go:382-392 | floodfills preferred to every remaining floodfill, until their quota, the target or the floodfills are exhausted |
| FarthestPoint.Sampler.FillRest | cmd/ivnp-reseed/selector.go:395-401 | the target is always reached, by peers preferred to every remaining one |
| FarthestPoint.Packing | cmd/ivnp-reseed/selector.go:297-303 | peers that pairwise share fewer than r bits need one centre each |
| FarthestPoint.Optimal | cmd/ivnp-reseed/selector.go:297-303 | the anchor and the picks over the whole pool cover the keyspace at least as well as any choice of no more peers |
| FarthestPoint.Sample | cmd/ivnp-reseed/selector.go:303-408 | exactly k distinct peers, enough floodfills, each pick preferred to all that remained eligible by distance, role, round trip, score and hash, and coverage not beaten by any set as large as the picks outside the quota; by any set of k when all or none are floodfills |
| DiversityGate.Apply | cmd/ivnp-reseed/selector.go:142-175 | a peer is admitted if and only if no earlier admitted one holds one of its prefixes and its family is not full; the pool has exactly the admitted peers, each behind those admitted before it |
| DiversityGate.AdmitsUnique | cmd/ivnp-reseed/selector.go:142-175 | there is exactly one such choice |
| DiversityGate.AdmitsDiverse | cmd/ivnp-reseed/selector.go:142-175 | no two admitted peers share a prefix, and no family has more admitted peers than its cap |
| Stratify.Sort | cmd/ivnp-reseed/selector.go:426-445 | a sorted permutation of a bucket |
| Stratify.Deal | cmd/ivnp-reseed/selector.go:451-463 | one round takes the next peer of every bucket that has one |
| Stratify.Fair | cmd/ivnp-reseed/selector.go:446-466 | in every prefix no bucket is more than one peer ahead of a bucket that has peers left |
| Stratify.DistinctFirst | cmd/ivnp-reseed/selector.go:410-414 | the first peers, as many as there are buckets in use, are in different buckets |
| Stratify.StratifyByBucketDiversity | cmd/ivnp-reseed/selector.go:415-466 | a permutation of the input, dealt round by round, with the first peers in different buckets; of two peers of a bucket the first is a floodfill if the second is, then accepts tunnels if the second does, then has no lower score, then no longer round trip |
| Retention.RetentionOrder | cmd/ivnp-reseed/store.go:496-532 | a strict total order on peers with different hashes: one outranks another if and only if the other is not at least as good in descriptor and address, then reachability, floodfill, tunnel build, score, round trip and hash |
| Retention.GroupsExactly | cmd/ivnp-reseed/store.go:358-379 | the groups are the first two bytes of every IPv4 address, and the family if there is one |
| Retention.PruneIdempotent | cmd/ivnp-reseed/store.go:335-355 | after a sweep nobody is dominated, and a second sweep removes nothing |
| Retention.PruneKeepsBest | cmd/ivnp-reseed/store.go:335-355 | a sweep keeps the member of every group that outranks all its others |
| Retention.SweepKeepsMerit | cmd/ivnp-reseed/store.go:335-355 | in every group the sweep keeps a member at least as good as every member: usable if any was, then reachable with fewer than two failures if any such was, then floodfill, tunnel build, highest score, shortest round trip |
| Retention.SweptExactly | cmd/ivnp-reseed/store.go:335-355 | a peer is swept if and only if it has groups and a kept peer outranks it in each |
| Retention.AdmissionSweeps | cmd/ivnp-reseed/store.go:118-135 | dropping the dominated co-members of a new peer is already a sweep of the whole store |
| Retention.DriftExactly | cmd/ivnp-reseed/store.go:139-170 | a changed rank leaves nobody dominated if and only if, on the store before the change, the new rank is not dominated and overtakes no co-member without another group to be at the top of |
| PeerStore.DriftHappens | cmd/ivnp-reseed/store.go:206-219 | three peers with IPv4 addresses of which a tunnel build result leaves one dominated, under any scoring |
| Eviction.FourPasses | cmd/ivnp-reseed/store.go:230-293 | a batch removes exactly its count, or everybody; buckets lose live peers only down to four and dead ones only down to two, unless every bucket is down to four; with at least four peers for each bucket and the batch beside them, the fallback pass does nothing and every bucket keeps that protection |
| PeerStore.PeerStore.IndexPeer | cmd/ivnp-reseed/store.go:358-379 | every group of the peer, and no other, gains it |
| PeerStore.PeerStore.DeindexPeer | cmd/ivnp-reseed/store.go:382-403 | every group of the peer loses it, and no empty member set stays |
| PeerStore.PeerStore.DeletePeer | cmd/ivnp-reseed/store.go:406-414 | map and both indexes lose the peer and still agree, and a removal is counted |
| PeerStore.PeerStore.TopsAnyContention | cmd/ivnp-reseed/store.go:437-458 | the indexes decide dominance as the plain map of peers defines it: true if and only if in some group the peer is at least as good as every other member |
| PeerStore.PeerStore.EvictDominated | cmd/ivnp-reseed/store.go:465-489 | exactly the dominated co-members go |
| PeerStore.PeerStore.PruneRedundant | cmd/ivnp-reseed/store.go:335-355 | the store becomes its sweep, the count is right, and every group keeps a member at least as good as each it had |
| PeerStore.PeerStore.EvictCandidates | cmd/ivnp-reseed/store.go:248-274 | one pass: only eligible peers go, no bucket falls under its floor, lowest scores first, and it stops early only if nobody eligible is left above the floor |
| PeerStore.PeerStore.EvictBatch | cmd/ivnp-reseed/store.go:230-293 | the four passes in order, each with its floor and lowest scores first, with the indexes kept in agreement and every removal counted; the first removes only unreachable peers with two failures, the second only peers not seen for twelve hours, and both all of them above their floors unless the batch is full |
| PeerStore.PeerStore.PruneStale | cmd/ivnp-reseed/store.go:303-328 | only unreachable peers go, after three failures or when not seen for the given age; no bucket falls under four, and none of those stays in a fuller bucket |
| PeerStore.PeerStore.Admit | cmd/ivnp-reseed/store.go:118-135 | admitted if and only if not dominated; the capacity is kept, and so is the absence of dominated peers; at the capacity of 5000 making room spares every bucket |
| PeerStore.PeerStore.Republish | cmd/ivnp-reseed/store.go:147-167 | a newer descriptor moves the peer to its new groups, and it goes if it is dominated there, its displaced co-members if not |
| PeerStore.PeerStore.UpdateExisting | cmd/ivnp-reseed/store.go:138-170 | the exact new map of peers for a newer and for an older descriptor |
| PeerStore.PeerStore.AddOrUpdateWithSeen | cmd/ivnp-reseed/store.go:74-170 | the exact new map, result and eviction count in every case; a new record, and a held one after a newer descriptor, say what the descriptor does, and any other descriptor changes nothing but sighting and score; a new one is reachable if and only if seen in the last two hours, and a held one keeps its history; the capacity is kept, and only a stale descriptor can leave a dominated peer |
| PeerStore.PeerStore.SetLocalHash | cmd/ivnp-reseed/store.go:51-56 | the local router leaves the map and the indexes |
| PeerStore.PeerStore.Load | cmd/ivnp-reseed/store.go:625-643 | loaded records, with a missing first sighting and missing transport flags filled in, replace held ones, and the indexes follow |
| PeerStore.MergedLast | cmd/ivnp-reseed/store.go:625-643 | the last loaded record of a hash is the one held |
| PeerStore.PeerStore.RecordTunnelBuildResult | cmd/ivnp-reseed/store.go:206-219 | a build result changes one record's flag and score, and no group |
| SimStream.TCPConn.Reserve | internal/simnet/tcp.go:335-347 | room is taken exactly if there is space and data; it is bounded by the data, a segment and the space, reaches one of them, and never overcommits the buffer |
| SimStream.TCPConn.Deliver | internal/simnet/tcp.go:499-552 | the in-place delivery is the specified one, drain loop included |
| SimStream.TCPConn.Read | internal/simnet/tcp.go:382-414 | if there is a readable segment it returns its front, as long as the buffer or the segment, and leaves the rest; otherwise reset before end of stream before closed, and exactly when each |
| SimStreamRuns.StepKeeps | internal/simnet/tcp.go:322-622 | every step of writers, network and reader keeps the invariant |
| SimStreamRuns.NeverDuplicate | internal/simnet/tcp.go:511-525 | an arriving segment was never received before: the duplicate branches are unreachable |
| SimStreamRuns.ArrivalExactly | internal/simnet/tcp.go:499-552 | an arriving segment is lost if and only if the connection is closed or reset, the link is down or it is beyond the window; otherwise it becomes readable or waits in the reorder buffer |
| SimStreamRuns.StreamSafety | internal/simnet/tcp.go:322-552 | in every run the reader has a prefix of the sent segments, each writer's part of them is the start of its data, buffered plus travelling bytes fit the receive buffer, and the reorder buffer stays within its window |
| SimStreamRuns.EndOfStreamExactly | internal/simnet/tcp.go:403-410 | at end of stream nothing travels or is reserved, and the reader has all that was sent if and only if nothing was lost |
| SimStreamRuns.HoleForever | internal/simnet/tcp.go:454-492 | nothing at or after a lost segment is ever read or readable |
| SimStreamRuns.NeverStalls | internal/simnet/tcp.go:322-552 | while nothing is lost, unread data or an unfinished write always leaves a step to take that lowers the work to do: flow control does not deadlock, and does not spin |
| SimStreamRuns.ReadWorks | internal/simnet/tcp.go:382-398 | a read lowers the readable bytes by exactly what it returns, and returns at least a byte if it has room for one |
| SimStreamRuns.ReserveFills | internal/simnet/tcp.go:335-347 | a reservation takes the rest of the data, a whole segment or all the free space |
| SimStreamRuns.StepWorks | internal/simnet/tcp.go:322-552 | reserving, sending, giving back, delivering and reading strictly lower the work to do, and only a new write adds to it |
| SimStreamRuns.RunBounded | internal/simnet/tcp.go:322-552 | no run takes more than four such steps for each byte given to write, in whatever order writers, network and reader take turns |
| SimStreamRuns.OrderlyRun | internal/simnet/tcp.go:499-552 | if segments arrive in order and none is lost, the reorder buffer stays empty |
| Scheduler.Queue.PopMin | internal/simnet/simnet.go:217-222 | the event that leaves the queue is before all that stay, by due time and then number |
| Scheduler.Queue.Schedule | internal/simnet/simnet.go:662-669 | every event gets a number of its own |
| Scheduler.Queue.PopReady | internal/simnet/simnet.go:696-706 | exactly the due events leave the queue, in the order of due time and number |
| LinkOrder.LinkState.Delay | internal/simnet/simnet.go:638-657 | the wire starts when it is free and is busy for the bytes' time at the rate in whole nanoseconds; the arrival is latency and jitter later, never in the past |
| LinkOrder.FifoExactly | internal/simnet/simnet.go:638-657 | any transmission and a later one that is not empty arrive in order if and only if jitter is within the wire time of a byte, or without a rate there is no jitter or no delay |
| SchedulerRuns.RunsInOrder | internal/simnet/simnet.go:662-711 | in every run events execute in the order of due time and then number, before all that stay queued and never early, although batches run outside the lock |
| SchedulerRuns.DeliversInOrder | internal/simnet/simnet.go:638-711 | over a link that keeps the order, and whatever traffic it carries, all that was sent before something not empty has run before it |
| StreamOverLink.OldestFirst | internal/simnet/tcp.go:489-491 | on a link shared with other streams, connection requests and datagrams, the next delivery of a stream is always that of its oldest segment on the wire |
| StreamOverLink.NeverReorders | internal/simnet/tcp.go:454-552 | over a link that keeps the order, whatever else it carries, a loss-free stream never uses its reorder buffer |
| DialRace.StepKeeps | stream_facade.go:226-288 | every step of legs, caller and drain keeps the invariant |
| DialRace.RaceSafety | stream_facade.go:226-288 | at any time no connection is closed twice; the one returned was dialed without an error, is never closed and ends the other dials; a caller that still waits has received nothing but errors |
| DialRace.NothingLeaks | stream_facade.go:263-288 | when the race is over every connection but the returned one is closed exactly once, and an error return means that no leg dialed without an error |
| DialRace.NeverStuck | stream_facade.go:226-288 | a race that is not over can always go on |
| DialRace.RunBounded | stream_facade.go:226-288 | no run has more than five steps for each leg and one more |
| PacketDeadline.ArmGuards | packet_io.go:35-58 | arming decides by the deadline in force and nothing else |
| PacketDeadline.CallbackKeeps | packet_io.go:51-57 | a callback, stale or not, looks at the deadline in force and ends the operation if that is over |
| PacketDeadline.SetDeadlineKeeps | packet_io.go:61-82 | after a change every live operation is watched for the new deadline, and an operation has ended by it if and only if it was live, registered and of a chosen direction and the deadline is over |
| PacketDeadline.SetDeadlineExactly | packet_io.go:61-82 | in any state: the chosen directions get the deadline and the others keep theirs; a live registered operation of a chosen direction ends if and only if the deadline is over; every other operation is unchanged |
| PacketDeadline.BeginExactly | packet_io.go:85-98 | a new operation is registered, and ends at once if and only if the deadline of its own direction is over |
| PacketDeadline.CloseExactly | packet.go:271-285 | closing ends exactly the live registered operations |
| PacketDeadline.StepKeeps | packet_io.go:35-110 | every step keeps a live operation with a deadline watched for exactly that deadline |
| PacketDeadline.StepJustified | packet_io.go:31-110 | an ended operation stays as it ended, and a step ends one by deadline only if it is registered and the deadline in force is over |
| PacketDeadline.EndedByDeadline | packet_io.go:31-119 | in every run an operation that ended by deadline did so when the deadline then in force for its direction was over |
| PacketDeadline.DeadlineEnforced | packet_io.go:35-58 | once the deadline of a live operation is over its timer can fire, and the callback ends it |
| PacketDeadline.CloseKeeps | packet.go:271-285 | closing ends every registered operation and leaves no timer pending |
| PacketSocket.Socket.ArmLocked | packet_io.go:35-58 | the in-place arming is the specified one: only that operation changes, and it ends if and only if it was live and the deadline of its direction is over |
| PacketSocket.Socket.SetDeadlines | packet_io.go:61-82 | fails exactly on a closed socket; otherwise sets the deadlines of the chosen directions only, ends their live registered operations if and only if the deadline is over, and leaves every other operation alone |
| PacketSocket.Socket.BeginOperation | packet_io.go:85-98 | fails exactly on a closed socket; otherwise registers a new operation, which has ended if and only if the deadline of its direction is over |
| PacketSocket.Socket.FinishOperation | packet_io.go:101-107 | the operation is unregistered and its timer stopped |
| PacketSocket.Socket.TimerCallback | packet_io.go:51-57 | the callback ends the operation if and only if it is still registered and live and the deadline now in force is over |
| PacketSocket.Socket.CloseLocked | packet.go:271-285 | exactly the live registered operations are cancelled, and their timers stopped |
| PacketDeadline.NoTimerLeft | packet_io.go:101-110 | once every operation is finished no timer is pending |

## Left out

- Words.Add64: is exact for a carry-in of 2, where the documentation of `bits.Add64` is silent; the results above the reduction hold for such an adder.
- Field25519.Fold: says nothing for carries whose fold by 19 wraps around; the largest carry a caller passes is that of the product by 121665.
- FarthestPoint.Sample: asks for a non-empty pool and a target of at least 1, as its only caller ensures; the rounded floodfill target is an input.
- Stratify.Sort: which of several sorted permutations results is left open, as in `slices.SortFunc`.
- PeerStore.PeerStore.AddOrUpdateWithSeen: reads the clock once, so that the score does not change within the call; `calculateScore` is an input.
- SimStreamRuns.StepKeeps: a network that shuts down while a segment is sent is not modelled.
- DialRace.StepKeeps: goroutines, the channel and the atomic flag are steps on values, because no sequential method has their interleavings.
- Constant time: masks are booleans above `Masks`, and timing is not modelled.
- That p is prime, and that the generator of group 14 has order dividing p - 1, are hypotheses.
- Reading random bytes, generating keys with retries, and SHA-256, which is any function to 32 bytes.
- Floating-point scores and averages: scores are real numbers that only get compared.
- Records of the store are values: a caller that keeps a returned record and writes to it later is not modelled.
- The clock never goes back, and is constant within a locked section.
- Sequence numbers, event numbers and eviction counters are unbounded, and times do not overflow.
- The qualification ladder, quality scores and coverage statistics of the peer selection; `MaxPerSubnet`, which the code never consults.
- Waking up blocked readers and writers, deadlines of simulated streams, dialing and listening in the simulator, delivery of datagrams, and changing a link's settings during a run.
- Closing of merged listeners, cleanup when the setup of a destination is cancelled, and dialing one endpoint after the other.
- A backend that returns neither a connection nor an error.
- That chords and tangents make the points of the curve a group, Streebog, ChaCha20-Poly1305 and ML-KEM.
- Network database, tunnels, transports, HTTP, SOCKS, SAM, web interface, persistence and command-line tools.
- Ring buffers, byte budgets, wire cursors and configuration checks.
