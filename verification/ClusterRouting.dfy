/** The consistent-hash router: ring construction, the replica walk, and how placements react to
    node-list changes. */
module ClusterRouting {
  import opened ByteStrings
  import opened DistinctWalk
  import Decimals

  datatype ClusterNode = ClusterNode(id: ByteString, host: ByteString, port: nat, healthy: bool, weight: nat,
                                     zone: ByteString)

  datatype RouteDecision =
    | NoRoute
    | Routed(primary: ClusterNode, replicas: seq<ClusterNode>, localOwner: bool, slot: nat)

  /** std::hash, taken as an arbitrary function. */
  type Hash = ByteString -> int

  type Ring = map<int, int>

  const HASH_SIGN: Byte := 0x23
  const SLOT_PREFIX: ByteString := [115, 108, 111, 116, 58]

  function Label(id: ByteString, replica: nat): ByteString {
    id + [HASH_SIGN] + Decimals.Decimal(replica)
  }

  /** map::emplace: the first owner of a hash keeps it. */
  function Emplace(ring: Ring, h: int, owner: nat): Ring {
    if h in ring then ring else ring[h := owner]
  }

  /** The points of one node, in replica order. */
  function AddNode(ring: Ring, hash: Hash, id: ByteString, owner: nat, points: nat): Ring {
    if points == 0 then ring
    else Emplace(AddNode(ring, hash, id, owner, points - 1), hash(Label(id, points - 1)), owner)
  }

  /** The ring of a node list, in list order. */
  function RingOf(nodes: seq<ClusterNode>, hash: Hash, points: nat): Ring {
    if nodes == [] then map[]
    else
      var n := |nodes| - 1;
      AddNode(RingOf(nodes[..n], hash, points), hash, nodes[n].id, n, points)
  }

  function SlotFor(hash: Hash, collection: ByteString, key: ByteString, slots: nat): nat
    requires slots > 0
  {
    hash(collection + [COLON] + key) % slots % 0x1_0000_0000
  }

  function SlotHash(hash: Hash, slot: nat): int {
    hash(SLOT_PREFIX + Decimals.Decimal(slot))
  }

  function Upper(points: set<int>, h: int): set<int> {
    set p | p in points && h <= p
  }

  function Lower(points: set<int>, h: int): set<int> {
    set p | p in points && p < h
  }

  /** The ring points clockwise from h: those not below h, then, past the end, the others. */
  function Clockwise(points: set<int>, h: int): (c: seq<int>)
    ensures forall p :: p in c <==> p in points
    ensures forall i :: 0 <= i < |c| ==> c[i] in points
  {
    SortedInts(Upper(points, h)) + SortedInts(Lower(points, h))
  }

  function OwnersOf(ring: Ring, points: seq<int>): (o: seq<int>)
    requires forall i :: 0 <= i < |points| ==> points[i] in ring
    ensures |o| == |points|
    ensures forall i :: 0 <= i < |o| ==> o[i] == ring[points[i]]
  {
    seq(|points|, i requires 0 <= i < |points| => ring[points[i]])
  }

  /** The owners met on one lap from h. */
  function Lap(ring: Ring, h: int): (o: seq<int>)
    ensures |o| == |ring|
  {
    LapSize(ring, h);
    OwnersOf(ring, Clockwise(ring.Keys, h))
  }

  lemma LapSize(ring: Ring, h: int)
    ensures |Clockwise(ring.Keys, h)| == |ring|
  {
    var up, low := Upper(ring.Keys, h), Lower(ring.Keys, h);
    assert ring.Keys == up + low;
  }

  function Desired(factor: nat, nodeCount: nat): nat {
    var atLeastOne := if factor < 1 then 1 else factor;
    if atLeastOne <= nodeCount then atLeastOne else nodeCount
  }

  predicate EnoughOwners(ring: Ring, h: int, factor: nat, nodeCount: nat) {
    Desired(factor, nodeCount) <= |Distinct(Lap(ring, h))|
  }

  /** The node indexes chosen for a slot: the first distinct owners of the lap. */
  function Chosen(ring: Ring, h: int, factor: nat, nodeCount: nat): (chosen: seq<int>)
    requires EnoughOwners(ring, h, factor, nodeCount)
    ensures |chosen| == Desired(factor, nodeCount)
  {
    Distinct(Lap(ring, h))[..Desired(factor, nodeCount)]
  }

  // ------------------------------------------------------------------ facts about the ring

  predicate IsPoint(hash: Hash, id: ByteString, points: nat, h: int) {
    exists i :: 0 <= i < points && hash(Label(id, i)) == h
  }

  lemma {:induction false} AddNodeFacts(ring: Ring, hash: Hash, id: ByteString, owner: nat, points: nat)
    ensures var r := AddNode(ring, hash, id, owner, points);
            && (forall h :: h in ring ==> h in r && r[h] == ring[h])
            && (forall h :: h in r && h !in ring ==> r[h] == owner)
            && (forall h :: h in r <==> h in ring || IsPoint(hash, id, points, h))
  {
    if points > 0 {
      AddNodeFacts(ring, hash, id, owner, points - 1);
      var added := hash(Label(id, points - 1));
      forall h ensures IsPoint(hash, id, points, h) <==> h == added || IsPoint(hash, id, points - 1, h) {
        if i :| 0 <= i < points - 1 && hash(Label(id, i)) == h {
          assert 0 <= i < points;
        }
      }
    }
  }

  predicate OwnersBelow(ring: Ring, n: nat) {
    forall h :: h in ring ==> 0 <= ring[h] < n
  }

  lemma {:induction false} RingOwnersBelow(nodes: seq<ClusterNode>, hash: Hash, points: nat)
    ensures OwnersBelow(RingOf(nodes, hash, points), |nodes|)
    ensures nodes != [] && points > 0 ==> RingOf(nodes, hash, points) != map[]
    decreases |nodes|
  {
    if nodes != [] {
      var n := |nodes| - 1;
      RingOwnersBelow(nodes[..n], hash, points);
      var before := RingOf(nodes[..n], hash, points);
      AddNodeFacts(before, hash, nodes[n].id, n, points);
      if points > 0 {
        assert IsPoint(hash, nodes[n].id, points, hash(Label(nodes[n].id, 0)));
      }
    }
  }

  lemma DistinctLapBelow(ring: Ring, h: int, n: nat)
    requires OwnersBelow(ring, n)
    ensures forall i :: 0 <= i < |Distinct(Lap(ring, h))| ==> 0 <= Distinct(Lap(ring, h))[i] < n
    ensures |Distinct(Lap(ring, h))| <= n
    ensures ring != map[] ==> |Distinct(Lap(ring, h))| >= 1
  {
    var lap := Lap(ring, h);
    var d := Distinct(lap);
    forall i | 0 <= i < |d| ensures 0 <= d[i] < n {
      assert d[i] in d && d[i] in lap;
      var j :| 0 <= j < |lap| && lap[j] == d[i];
      assert Clockwise(ring.Keys, h)[j] in ring;
    }
    PigeonHole(d, n);
    if ring != map[] {
      assert lap[0] in lap;
      assert lap[0] in d;
    }
  }

  // ------------------------------------------------------------------ the router object

  class ConsistentHashRouter {
    const localNodeId: ByteString
    const virtualNodes: nat
    const slotCount: nat
    const hash: Hash
    var nodes: seq<ClusterNode>
    var ring: Ring

    ghost predicate Valid()
      reads this
    {
      virtualNodes >= 1 && slotCount >= 1 && ring == RingOf(nodes, hash, virtualNodes)
    }

    constructor (localNodeId: ByteString, virtualNodes: nat, slotCount: nat, hash: Hash)
      ensures Valid() && nodes == []
      ensures this.localNodeId == localNodeId && this.hash == hash
      ensures this.virtualNodes == (if virtualNodes < 1 then 1 else virtualNodes)
      ensures this.slotCount == (if slotCount < 1 then 1 else slotCount)
    {
      this.localNodeId := localNodeId;
      this.virtualNodes := if virtualNodes < 1 then 1 else virtualNodes;
      this.slotCount := if slotCount < 1 then 1 else slotCount;
      this.hash := hash;
      this.nodes := [];
      this.ring := map[];
    }

    method Rebuild(nodes: seq<ClusterNode>)
      requires Valid()
      modifies this
      ensures Valid() && this.nodes == nodes
    {
      this.nodes := nodes;
      ring := map[];
      for nodeIndex := 0 to |nodes|
        invariant this.nodes == nodes
        invariant ring == RingOf(nodes[..nodeIndex], hash, virtualNodes)
      {
        assert nodes[..nodeIndex + 1][..nodeIndex] == nodes[..nodeIndex];
        for replicaIndex := 0 to virtualNodes
          invariant this.nodes == nodes
          invariant ring == AddNode(RingOf(nodes[..nodeIndex], hash, virtualNodes), hash, nodes[nodeIndex].id,
                                    nodeIndex, replicaIndex)
        {
          var h := hash(Label(nodes[nodeIndex].id, replicaIndex));
          if h !in ring {
            ring := ring[h := nodeIndex];
          }
        }
      }
      assert nodes[..|nodes|] == nodes;
    }

    /** The loop of Route: walk clockwise from the lower bound, wrapping around, until enough
        distinct owners are selected. */
    method SelectReplicas(h: int, desired: nat) returns (selected: seq<int>)
      requires |ring| > 0
      requires desired <= |Distinct(Lap(ring, h))|
      ensures selected == Distinct(Lap(ring, h))[..desired]
    {
      hide Lap, Distinct, SortedInts, LowerBoundInt, At, AscendingInts;
      var points := SortedInts(ring.Keys);
      var position := LowerBoundInt(points, h);
      ghost var start := position;
      ghost var lap := Lap(ring, h);
      LapIsRotation(ring, h, points, start);
      if position == |points| {
        position := 0;
      }
      selected := [];
      ghost var steps := 0;
      AtStart(start, |points|);
      assert lap[..0] == [] && lap[..|points|] == lap;
      while |selected| < desired
        invariant 0 <= steps <= |points|
        invariant position == At(start, steps, |points|)
        invariant selected == Distinct(lap[..steps])
        invariant |selected| <= desired
        decreases |points| - steps
      {
        if steps == |points| {
          assert false;
        }
        var nodeIndex := ring[points[position]];
        DistinctStep(lap, steps);
        AtNext(start, steps, |points|);
        if nodeIndex !in selected {
          selected := selected + [nodeIndex];
        }
        position := position + 1;
        if position == |points| {
          position := 0;
        }
        steps := steps + 1;
      }
      DistinctOfPrefix(lap, steps);
    }

    /** Without enough distinct owners on the ring the walk has no end, so that much is asked of the
        caller; WalkEndsExactly below shows nothing less would do. */
    method Route(collection: ByteString, key: ByteString, replicationFactor: nat) returns (decision: RouteDecision)
      requires Valid()
      requires nodes != [] ==>
                 EnoughOwners(ring, SlotHash(hash, SlotFor(hash, collection, key, slotCount)), replicationFactor,
                              |nodes|)
      ensures decision == Decision(nodes, hash, virtualNodes, slotCount, localNodeId, collection, key,
                                   replicationFactor)
    {
      hide RingOf, Lap, Distinct, SlotFor, SlotHash;
      RingOwnersBelow(nodes, hash, virtualNodes);
      if |ring| == 0 || |nodes| == 0 {
        return NoRoute;
      }
      var slot := SlotFor(hash, collection, key, slotCount);
      var h := SlotHash(hash, slot);
      var selected := SelectReplicas(h, Desired(replicationFactor, |nodes|));
      ChosenBelow(nodes, hash, virtualNodes, h, replicationFactor);
      assert selected == Chosen(ring, h, replicationFactor, |nodes|);
      hide Chosen, EnoughOwners;
      decision := Routed(nodes[selected[0]], NodesAt(nodes, selected), nodes[selected[0]].id == localNodeId, slot);
    }
  }

  /** The ring position after some steps from the lower bound. */
  function At(start: nat, steps: nat, size: nat): (position: int)
    requires start <= size && steps <= size && size > 0
  {
    if start + steps < size then start + steps
    else if start + steps < 2 * size then start + steps - size
    else 0
  }

  lemma AtStart(start: nat, size: nat)
    requires start <= size && size > 0
    ensures At(start, 0, size) == if start == size then 0 else start
  {
  }

  lemma AtNext(start: nat, steps: nat, size: nat)
    requires start <= size && steps < size
    ensures At(start, steps + 1, size) == if At(start, steps, size) + 1 == size then 0 else At(start, steps, size) + 1
  {
  }

  lemma UpperPart(points: set<int>, h: int, sorted: seq<int>, start: nat)
    requires sorted == SortedInts(points) && start == LowerBoundInt(sorted, h)
    ensures SortedInts(Upper(points, h)) == sorted[start..]
  {
    hide SortedInts, LowerBoundInt;
    var up, above := Upper(points, h), sorted[start..];
    forall p | p in SortedInts(up) ensures p in above {
      assert p in sorted;
      var j :| 0 <= j < |sorted| && sorted[j] == p;
      assert above[j - start] == p;
    }
    AscendingIntsUnique(SortedInts(up), above);
  }

  lemma LowerPart(points: set<int>, h: int, sorted: seq<int>, start: nat)
    requires sorted == SortedInts(points) && start == LowerBoundInt(sorted, h)
    ensures SortedInts(Lower(points, h)) == sorted[..start]
  {
    hide SortedInts, LowerBoundInt;
    var low, below := Lower(points, h), sorted[..start];
    forall p | p in SortedInts(low) ensures p in below {
      assert p in sorted;
      var j :| 0 <= j < |sorted| && sorted[j] == p;
      assert below[j] == p;
    }
    AscendingIntsUnique(SortedInts(low), below);
  }

  lemma ClockwiseIsRotation(points: set<int>, h: int, sorted: seq<int>, start: nat)
    requires sorted == SortedInts(points) && start == LowerBoundInt(sorted, h)
    ensures Clockwise(points, h) == sorted[start..] + sorted[..start]
  {
    UpperPart(points, h, sorted, start);
    LowerPart(points, h, sorted, start);
  }

  lemma LapIsRotation(ring: Ring, h: int, points: seq<int>, start: nat)
    requires points == SortedInts(ring.Keys) && start == LowerBoundInt(points, h) && |points| > 0
    ensures forall i :: 0 <= i < |points| ==>
              0 <= At(start, i, |points|) < |points| && points[At(start, i, |points|)] in ring
              && Lap(ring, h)[i] == ring[points[At(start, i, |points|)]]
  {
    ClockwiseIsRotation(ring.Keys, h, points, start);
    var c := Clockwise(ring.Keys, h);
    hide SortedInts, LowerBoundInt, Clockwise;
    assert Lap(ring, h) == OwnersOf(ring, c);
    hide Lap;
    RotationAt(points, start, c);
  }

  lemma RotationAt(points: seq<int>, start: nat, c: seq<int>)
    requires start <= |points| && |points| > 0 && c == points[start..] + points[..start]
    ensures forall i :: 0 <= i < |points| ==>
              0 <= At(start, i, |points|) < |points| && points[At(start, i, |points|)] == c[i]
  {
  }

  function NodesAt(nodes: seq<ClusterNode>, indexes: seq<int>): (r: seq<ClusterNode>)
    requires forall i :: 0 <= i < |indexes| ==> 0 <= indexes[i] < |nodes|
    ensures |r| == |indexes|
    ensures forall i :: 0 <= i < |r| ==> r[i] == nodes[indexes[i]]
  {
    seq(|indexes|, i requires 0 <= i < |indexes| => nodes[indexes[i]])
  }

  lemma ChosenBelow(nodes: seq<ClusterNode>, hash: Hash, points: nat, h: int, factor: nat)
    requires nodes != [] && EnoughOwners(RingOf(nodes, hash, points), h, factor, |nodes|)
    ensures |Chosen(RingOf(nodes, hash, points), h, factor, |nodes|)| >= 1
    ensures forall i :: 0 <= i < |Chosen(RingOf(nodes, hash, points), h, factor, |nodes|)| ==>
              0 <= Chosen(RingOf(nodes, hash, points), h, factor, |nodes|)[i] < |nodes|
  {
    hide RingOf, Lap, Distinct;
    RingOwnersBelow(nodes, hash, points);
    DistinctLapBelow(RingOf(nodes, hash, points), h, |nodes|);
  }

  /** What Route answers for a node list. */
  function Decision(nodes: seq<ClusterNode>, hash: Hash, points: nat, slots: nat, localId: ByteString,
                    collection: ByteString, key: ByteString, factor: nat): RouteDecision
    requires points > 0 && slots > 0
    requires nodes != [] ==>
               EnoughOwners(RingOf(nodes, hash, points), SlotHash(hash, SlotFor(hash, collection, key, slots)), factor,
                            |nodes|)
  {
    if nodes == [] then NoRoute
    else
      var slot := SlotFor(hash, collection, key, slots);
      var h := SlotHash(hash, slot);
      ChosenBelow(nodes, hash, points, h, factor);
      var chosen := Chosen(RingOf(nodes, hash, points), h, factor, |nodes|);
      Routed(nodes[chosen[0]], NodesAt(nodes, chosen), nodes[chosen[0]].id == localId, slot)
  }

  // ------------------------------------------------------------------ when the walk ends

  /** The owners met in the first steps of the walk, lap after lap. */
  function Walked(lap: seq<int>, steps: nat): (w: seq<int>)
    requires lap != []
  {
    seq(steps, i requires 0 <= i < steps => lap[i % |lap|])
  }

  /** After so many steps the walk has the desired number of owners. */
  predicate CollectedBy(lap: seq<int>, desired: nat, steps: nat)
    requires lap != []
  {
    desired <= |Distinct(Walked(lap, steps))|
  }

  lemma WalkedAddsNothing(lap: seq<int>, steps: nat)
    requires lap != []
    ensures |Distinct(Walked(lap, steps))| <= |Distinct(lap)|
  {
    hide Distinct;
    var w := Walked(lap, steps);
    forall i | 0 <= i < |Distinct(w)| ensures Distinct(w)[i] in Distinct(lap) {
      assert Distinct(w)[i] in w;
      var j :| 0 <= j < |w| && w[j] == Distinct(w)[i];
      assert lap[j % |lap|] in lap;
    }
    SubsequenceSize(Distinct(w), Distinct(lap));
  }

  /** One lap of walking meets the owners of the lap. */
  lemma OneLap(lap: seq<int>, desired: nat)
    requires lap != []
    ensures CollectedBy(lap, desired, |lap|) <==> desired <= |Distinct(lap)|
  {
    hide Distinct;
    assert Walked(lap, |lap|) == lap;
  }

  /** The walk collects the desired number of owners, ever, exactly when one lap has that many; and
      then it ends within that lap. */
  lemma WalkEndsExactly(lap: seq<int>, desired: nat)
    requires lap != []
    ensures (exists steps: nat :: CollectedBy(lap, desired, steps)) <==> desired <= |Distinct(lap)|
    ensures desired <= |Distinct(lap)| ==> CollectedBy(lap, desired, |lap|)
  {
    hide Distinct, Walked;
    OneLap(lap, desired);
    if steps: nat :| CollectedBy(lap, desired, steps) {
      hide Distinct, Walked;
      WalkedAddsNothing(lap, steps);
    }
  }

  lemma {:induction false} SubsequenceSize(a: seq<int>, b: seq<int>)
    requires NoRepeats(a) && NoRepeats(b) && forall i :: 0 <= i < |a| ==> a[i] in b
    ensures |a| <= |b|
    decreases |a|
  {
    if a != [] {
      var n := |a| - 1;
      var rest := Without(b, a[n]);
      WithoutSize(b, a[n]);
      SubsequenceSize(a[..n], rest);
    }
  }

  /** The indexes that own at least one ring point. */
  function Owners(ring: Ring): set<int> {
    set p | p in ring :: ring[p]
  }

  /** One lap visits every ring point exactly once. */
  lemma LapVisitsOnce(ring: Ring, h: int)
    ensures NoRepeats(Clockwise(ring.Keys, h)) && |Clockwise(ring.Keys, h)| == |ring|
    ensures forall p :: p in Clockwise(ring.Keys, h) <==> p in ring
  {
    hide SortedInts;
    LapSize(ring, h);
    var up, low := SortedInts(Upper(ring.Keys, h)), SortedInts(Lower(ring.Keys, h));
    forall i, j | 0 <= i < j < |up + low| ensures (up + low)[i] != (up + low)[j] {
      if i < |up| <= j {
        assert (up + low)[i] in up && (up + low)[j] in low;
      }
    }
  }

  lemma OwnsOne(ring: Ring, p: int)
    requires p in ring
    ensures ring[p] in Owners(ring)
  {
  }

  /** The owners met on a lap are the owners of the ring. */
  lemma LapMeetsAll(ring: Ring, h: int)
    ensures SetOf(Distinct(Lap(ring, h))) == Owners(ring)
    ensures |Distinct(Lap(ring, h))| == |Owners(ring)|
  {
    hide SortedInts, Distinct, Clockwise;
    var lap, points := Lap(ring, h), Clockwise(ring.Keys, h);
    forall i | 0 <= i < |lap| ensures lap[i] in Owners(ring) {
      OwnsOne(ring, points[i]);
    }
    forall p | p in ring ensures ring[p] in lap {
      assert p in points;
      var i :| 0 <= i < |points| && points[i] == p;
      assert lap[i] == ring[p];
    }
    forall x ensures x in SetOf(Distinct(lap)) <==> x in Owners(ring) {
      assert x in Distinct(lap) <==> x in lap;
    }
    NoRepeatsBySize(Distinct(lap));
  }

  /** The ring serves a replication factor exactly when it has as many owners as are desired. */
  lemma EnoughExactly(ring: Ring, h: int, factor: nat, nodeCount: nat)
    ensures EnoughOwners(ring, h, factor, nodeCount) <==> Desired(factor, nodeCount) <= |Owners(ring)|
  {
    hide Lap;
    LapMeetsAll(ring, h);
  }

  lemma ValuesBelow(ring: Ring, n: nat)
    requires OwnersBelow(ring, n)
    ensures |Owners(ring)| <= n
    ensures |Owners(ring)| == n <==> forall i :: 0 <= i < n ==> i in Owners(ring)
  {
    forall x | x in Owners(ring) ensures 0 <= x < n {
      var p :| p in ring && ring[p] == x;
    }
    BelowSize(Owners(ring), n);
  }

  lemma {:induction false} BelowSize(s: set<int>, n: nat)
    requires forall x :: x in s ==> 0 <= x < n
    ensures |s| <= n
    ensures |s| == n <==> forall i :: 0 <= i < n ==> i in s
    decreases n
  {
    if n > 0 {
      var rest := s - {n - 1};
      BelowSize(rest, n - 1);
      if n - 1 in s {
        assert s == rest + {n - 1};
        assert forall i :: 0 <= i < n - 1 ==> (i in s <==> i in rest);
      } else {
        assert s == rest;
      }
    } else if s != {} {
      var x := AnyOf(s);
      assert false;
    }
  }

  /** Every replication factor is served exactly when every entry of the node list owns a ring point. */
  lemma EveryFactorExactly(nodes: seq<ClusterNode>, hash: Hash, points: nat, h: int)
    requires nodes != []
    ensures (forall factor: nat :: EnoughOwners(RingOf(nodes, hash, points), h, factor, |nodes|))
            <==> forall i :: 0 <= i < |nodes| ==> i in Owners(RingOf(nodes, hash, points))
  {
    hide RingOf, EnoughOwners;
    var ring := RingOf(nodes, hash, points);
    RingOwnersBelow(nodes, hash, points);
    ValuesBelow(ring, |nodes|);
    EnoughExactly(ring, h, |nodes|, |nodes|);
    forall factor: nat ensures |Owners(ring)| == |nodes| ==> EnoughOwners(ring, h, factor, |nodes|) {
      EnoughExactly(ring, h, factor, |nodes|);
    }
  }

  /** Every label point of a listed node is in the ring. */
  lemma {:induction false} PointsAreIn(nodes: seq<ClusterNode>, hash: Hash, points: nat, i: nat, h: int)
    requires i < |nodes| && IsPoint(hash, nodes[i].id, points, h)
    ensures h in RingOf(nodes, hash, points)
    decreases |nodes|
  {
    hide IsPoint, AddNode;
    var n := |nodes| - 1;
    AddNodeFacts(RingOf(nodes[..n], hash, points), hash, nodes[n].id, n, points);
    if i < n {
      PointsAreIn(nodes[..n], hash, points, i, h);
    }
  }

  /** A node whose id stands earlier in the list owns no point: the first emplacement wins. */
  lemma {:induction false} RepeatedIdOwnsNothing(nodes: seq<ClusterNode>, hash: Hash, points: nat, i: nat, j: nat)
    requires i < j < |nodes| && nodes[i].id == nodes[j].id
    ensures j !in Owners(RingOf(nodes, hash, points))
    decreases |nodes|
  {
    hide IsPoint, AddNode;
    var n := |nodes| - 1;
    var before := RingOf(nodes[..n], hash, points);
    AddNodeFacts(before, hash, nodes[n].id, n, points);
    RingOwnersBelow(nodes[..n], hash, points);
    if j < n {
      RepeatedIdOwnsNothing(nodes[..n], hash, points, i, j);
    } else {
      forall h | IsPoint(hash, nodes[n].id, points, h) ensures h in before {
        PointsAreIn(nodes[..n], hash, points, i, h);
      }
    }
    var ring := RingOf(nodes, hash, points);
    forall h | h in ring ensures ring[h] != j {
      if h in before {
        assert ring[h] == before[h] && before[h] in Owners(before);
      }
    }
  }

  /** So with a repeated id a walk for as many replicas as there are list entries never ends. */
  lemma RepeatedIdStarves(nodes: seq<ClusterNode>, hash: Hash, points: nat, i: nat, j: nat, h: int)
    requires i < j < |nodes| && nodes[i].id == nodes[j].id
    ensures !EnoughOwners(RingOf(nodes, hash, points), h, |nodes|, |nodes|)
  {
    hide RingOf, EnoughOwners;
    var ring := RingOf(nodes, hash, points);
    RepeatedIdOwnsNothing(nodes, hash, points, i, j);
    RingOwnersBelow(nodes, hash, points);
    ValuesBelow(ring, |nodes|);
    EnoughExactly(ring, h, |nodes|, |nodes|);
  }

  /** One replica more only extends the list. */
  lemma MoreReplicasExtend(ring: Ring, h: int, factor: nat, nodeCount: nat)
    requires EnoughOwners(ring, h, factor + 1, nodeCount)
    ensures EnoughOwners(ring, h, factor, nodeCount)
    ensures Chosen(ring, h, factor, nodeCount) <= Chosen(ring, h, factor + 1, nodeCount)
  {
  }

  // ------------------------------------------------------------------ appending a node

  lemma {:induction false} FilterSorted(small: set<int>, big: set<int>, ring: Ring, bigRing: Ring, n: nat)
    requires small <= big && big <= bigRing.Keys && small == big * ring.Keys
    requires forall h :: h in ring ==> h in bigRing && bigRing[h] == ring[h] && ring[h] != n
    requires forall h :: h in bigRing && h !in ring ==> bigRing[h] == n
    ensures Without(OwnersOf(bigRing, SortedInts(big)), n) == OwnersOf(ring, SortedInts(small))
  {
    var kept := KeepOnly(SortedInts(big), ring.Keys);
    KeepOnlyAscends(SortedInts(big), ring.Keys);
    AscendingIntsUnique(kept, SortedInts(small));
    KeepOnlyOwners(ring, bigRing, SortedInts(big), n);
  }

  function KeepOnly(s: seq<int>, keep: set<int>): (r: seq<int>)
    ensures forall y :: y in r <==> y in s && y in keep
    ensures forall i :: 0 <= i < |r| ==> r[i] in keep
  {
    if s == [] then []
    else
      var n := |s| - 1;
      assert forall y :: y in s <==> y in s[..n] || y == s[n];
      if s[n] in keep then KeepOnly(s[..n], keep) + [s[n]] else KeepOnly(s[..n], keep)
  }

  lemma {:induction false} KeepOnlyAscends(s: seq<int>, keep: set<int>)
    requires AscendingInts(s)
    ensures AscendingInts(KeepOnly(s, keep))
    decreases |s|
  {
    if s != [] {
      var n := |s| - 1;
      var r := KeepOnly(s[..n], keep);
      assert KeepOnly(s, keep) == if s[n] in keep then r + [s[n]] else r;
      KeepOnlyAscends(s[..n], keep);
      hide KeepOnly;
      forall i | 0 <= i < |r| ensures r[i] < s[n] {
        assert r[i] in r;
        var j :| 0 <= j < n && s[..n][j] == r[i];
        assert s[j] < s[n];
      }
    }
  }

  lemma {:induction false} KeepOnlyOwners(ring: Ring, bigRing: Ring, s: seq<int>, n: nat)
    requires forall i :: 0 <= i < |s| ==> s[i] in bigRing
    requires forall h :: h in ring ==> h in bigRing && bigRing[h] == ring[h] && ring[h] != n
    requires forall h :: h in bigRing && h !in ring ==> bigRing[h] == n
    ensures Without(OwnersOf(bigRing, s), n) == OwnersOf(ring, KeepOnly(s, ring.Keys))
    decreases |s|
  {
    if s != [] {
      var last := |s| - 1;
      KeepOnlyOwners(ring, bigRing, s[..last], n);
      assert OwnersOf(bigRing, s)[..last] == OwnersOf(bigRing, s[..last]);
    }
  }

  lemma {:induction false} WithoutConcat(a: seq<int>, b: seq<int>, x: int)
    ensures Without(a + b, x) == Without(a, x) + Without(b, x)
    decreases |b|
  {
    if b == [] {
      assert a + b == a;
    } else {
      var n := |b| - 1;
      assert (a + b)[..|a + b| - 1] == a + b[..n];
      WithoutConcat(a, b[..n], x);
    }
  }

  lemma OwnersConcat(ring: Ring, a: seq<int>, b: seq<int>)
    requires forall i :: 0 <= i < |a| ==> a[i] in ring
    requires forall i :: 0 <= i < |b| ==> b[i] in ring
    ensures OwnersOf(ring, a + b) == OwnersOf(ring, a) + OwnersOf(ring, b)
  {
  }

  lemma LapSplits(ring: Ring, h: int)
    ensures var up, low := Upper(ring.Keys, h), Lower(ring.Keys, h);
            Lap(ring, h) == OwnersOf(ring, SortedInts(up)) + OwnersOf(ring, SortedInts(low))
  {
    hide SortedInts;
    var up, low := Upper(ring.Keys, h), Lower(ring.Keys, h);
    OwnersConcat(ring, SortedInts(up), SortedInts(low));
  }

  /** Adding points for a new owner leaves the lap as it was once that owner is left out. */
  lemma LapAfterAppend(ring: Ring, bigRing: Ring, h: int, n: nat)
    requires forall p :: p in ring ==> p in bigRing && bigRing[p] == ring[p] && ring[p] != n
    requires forall p :: p in bigRing && p !in ring ==> bigRing[p] == n
    ensures Without(Lap(bigRing, h), n) == Lap(ring, h)
  {
    hide SortedInts, Without, Lap;
    var up, low := Upper(ring.Keys, h), Lower(ring.Keys, h);
    var bigUp, bigLow := Upper(bigRing.Keys, h), Lower(bigRing.Keys, h);
    FilterSorted(up, bigUp, ring, bigRing, n);
    FilterSorted(low, bigLow, ring, bigRing, n);
    LapSplits(ring, h);
    LapSplits(bigRing, h);
    WithoutConcat(OwnersOf(bigRing, SortedInts(bigUp)), OwnersOf(bigRing, SortedInts(bigLow)), n);
  }

  lemma AppendedRing(nodes: seq<ClusterNode>, added: ClusterNode, hash: Hash, points: nat)
    ensures var ring, bigRing := RingOf(nodes, hash, points), RingOf(nodes + [added], hash, points);
            && (forall p :: p in ring ==> p in bigRing && bigRing[p] == ring[p] && 0 <= ring[p] < |nodes|)
            && (forall p :: p in bigRing && p !in ring ==> bigRing[p] == |nodes|)
  {
    assert (nodes + [added])[..|nodes|] == nodes;
    RingOwnersBelow(nodes, hash, points);
    AddNodeFacts(RingOf(nodes, hash, points), hash, added.id, |nodes|, points);
  }

  /** Appending a node moves as little as possible: for every slot, the new replica list without the
      new node is a prefix of the old list, and the primary is the old primary or the new node.
      Only where a walk would not end is nothing claimed. */
  lemma AppendMovesLittle(nodes: seq<ClusterNode>, added: ClusterNode, hash: Hash, points: nat, h: int, factor: nat)
    requires nodes != []
    requires EnoughOwners(RingOf(nodes, hash, points), h, factor, |nodes|)
    requires EnoughOwners(RingOf(nodes + [added], hash, points), h, factor, |nodes| + 1)
    ensures var before := Chosen(RingOf(nodes, hash, points), h, factor, |nodes|);
            var after := Chosen(RingOf(nodes + [added], hash, points), h, factor, |nodes| + 1);
            && Without(after, |nodes|) <= before
            && |after| >= 1 && (after[0] == before[0] || after[0] == |nodes|)
  {
    hide RingOf, Lap, Distinct, Without;
    var n := |nodes|;
    var ring, bigRing := RingOf(nodes, hash, points), RingOf(nodes + [added], hash, points);
    AppendedRing(nodes, added, hash, points);
    LapAfterAppend(ring, bigRing, h, n);
    var lap, bigLap := Lap(ring, h), Lap(bigRing, h);
    DistinctWithout(bigLap, n);
    DistinctLapBelow(ring, h, n);
    var before, after := Chosen(ring, h, factor, n), Chosen(bigRing, h, factor, n + 1);
    WithoutOfPrefix(Distinct(bigLap), |after|, n);
    assert Without(after, n) <= Distinct(lap);
    assert |Without(after, n)| <= |before|;
    FirstStays(after, n);
    if after[0] != n {
      assert Without(after, n)[0] == after[0];
    }
  }

  lemma {:induction false} FirstStays(s: seq<int>, x: int)
    requires s != []
    ensures s[0] != x ==> Without(s, x) != [] && Without(s, x)[0] == s[0]
    decreases |s|
  {
    if |s| > 1 {
      FirstStays(s[..|s| - 1], x);
    } else {
      assert s[..0] == [];
    }
  }

  /** The primary half needs no premise about the hash at all: one owner is always enough. */
  lemma PrimaryMovesOnlyToNewNode(nodes: seq<ClusterNode>, added: ClusterNode, hash: Hash, points: nat, h: int)
    requires nodes != [] && points > 0
    ensures EnoughOwners(RingOf(nodes, hash, points), h, 1, |nodes|)
    ensures EnoughOwners(RingOf(nodes + [added], hash, points), h, 1, |nodes| + 1)
    ensures var before := Chosen(RingOf(nodes, hash, points), h, 1, |nodes|);
            var after := Chosen(RingOf(nodes + [added], hash, points), h, 1, |nodes| + 1);
            after[0] == before[0] || after[0] == |nodes|
  {
    RingOwnersBelow(nodes, hash, points);
    RingOwnersBelow(nodes + [added], hash, points);
    DistinctLapBelow(RingOf(nodes, hash, points), h, |nodes|);
    DistinctLapBelow(RingOf(nodes + [added], hash, points), h, |nodes| + 1);
    AppendMovesLittle(nodes, added, hash, points, h, 1);
  }

  // ------------------------------------------------------------------ reordering the node list

  predicate DistinctIds(nodes: seq<ClusterNode>) {
    forall i, j :: 0 <= i < j < |nodes| ==> nodes[i].id != nodes[j].id
  }

  /** No two points of the list's nodes collide. */
  ghost predicate CollisionFree(hash: Hash, nodes: seq<ClusterNode>, points: nat) {
    forall m, n, i, j :: 0 <= m < |nodes| && 0 <= n < |nodes| && 0 <= i < points && 0 <= j < points
                         && hash(Label(nodes[m].id, i)) == hash(Label(nodes[n].id, j)) ==>
                         Label(nodes[m].id, i) == Label(nodes[n].id, j)
  }

  lemma LabelInjective(a: ByteString, i: nat, b: ByteString, j: nat)
    ensures Label(a, i) == Label(b, j) ==> a == b && i == j
  {
    if Label(a, i) == Label(b, j) {
      var x, y := Decimals.Decimal(i), Decimals.Decimal(j);
      assert HASH_SIGN !in x && HASH_SIGN !in y;
      Decimals.SplitAtLast(HASH_SIGN, a, x, b, y);
      Decimals.DecimalInjective(i, j);
    }
  }

  predicate PointsOwned(ring: Ring, nodes: seq<ClusterNode>, hash: Hash, points: nat) {
    forall m, i :: 0 <= m < |nodes| && 0 <= i < points ==>
                     hash(Label(nodes[m].id, i)) in ring && ring[hash(Label(nodes[m].id, i))] == m
  }

  predicate PointsExplained(ring: Ring, nodes: seq<ClusterNode>, hash: Hash, points: nat) {
    forall h :: h in ring ==> 0 <= ring[h] < |nodes| && IsPoint(hash, nodes[ring[h]].id, points, h)
  }

  lemma {:induction false} RingExplained(nodes: seq<ClusterNode>, hash: Hash, points: nat)
    ensures PointsExplained(RingOf(nodes, hash, points), nodes, hash, points)
    decreases |nodes|
  {
    if nodes != [] {
      var n := |nodes| - 1;
      RingExplained(nodes[..n], hash, points);
      var before, ring := RingOf(nodes[..n], hash, points), RingOf(nodes, hash, points);
      AddNodeFacts(before, hash, nodes[n].id, n, points);
      forall h | h in ring ensures 0 <= ring[h] < |nodes| && IsPoint(hash, nodes[ring[h]].id, points, h) {
        if h in before {
          assert nodes[..n][before[h]] == nodes[before[h]];
        }
      }
    }
  }

  lemma NewPointsAreFree(nodes: seq<ClusterNode>, hash: Hash, points: nat, i: nat)
    requires nodes != [] && i < points
    requires DistinctIds(nodes) && CollisionFree(hash, nodes, points)
    ensures hash(Label(nodes[|nodes| - 1].id, i)) !in RingOf(nodes[..|nodes| - 1], hash, points)
  {
    var n := |nodes| - 1;
    var before := RingOf(nodes[..n], hash, points);
    var h := hash(Label(nodes[n].id, i));
    RingExplained(nodes[..n], hash, points);
    if h in before {
      var m := before[h];
      assert nodes[..n][m] == nodes[m];
      var j :| 0 <= j < points && hash(Label(nodes[m].id, j)) == h;
      LabelInjective(nodes[n].id, i, nodes[m].id, j);
      assert false;
    }
  }

  /** Without collisions every node owns all its points. */
  lemma {:induction false} EveryNodeOwns(nodes: seq<ClusterNode>, hash: Hash, points: nat)
    requires DistinctIds(nodes) && CollisionFree(hash, nodes, points)
    ensures PointsOwned(RingOf(nodes, hash, points), nodes, hash, points)
    decreases |nodes|
  {
    if nodes != [] {
      var n := |nodes| - 1;
      var front := nodes[..n];
      EveryNodeOwns(front, hash, points);
      var before, ring := RingOf(front, hash, points), RingOf(nodes, hash, points);
      AddNodeFacts(before, hash, nodes[n].id, n, points);
      forall m, i | 0 <= m < |nodes| && 0 <= i < points
        ensures hash(Label(nodes[m].id, i)) in ring && ring[hash(Label(nodes[m].id, i))] == m
      {
        if m < n {
          assert front[m] == nodes[m];
        } else {
          NewPointsAreFree(nodes, hash, points, i);
        }
      }
    }
  }

  /** So no walk starves: every factor finds enough owners. */
  lemma CollisionFreeHasEnough(nodes: seq<ClusterNode>, hash: Hash, points: nat, h: int, factor: nat)
    requires DistinctIds(nodes) && CollisionFree(hash, nodes, points) && points > 0
    ensures EnoughOwners(RingOf(nodes, hash, points), h, factor, |nodes|)
  {
    EveryNodeOwns(nodes, hash, points);
    var ring := RingOf(nodes, hash, points);
    var lap := Lap(ring, h);
    forall k | 0 <= k < |nodes| ensures k in Distinct(lap) {
      var p := hash(Label(nodes[k].id, 0));
      var c := Clockwise(ring.Keys, h);
      assert p in c;
      var j :| 0 <= j < |c| && c[j] == p;
      assert lap[j] == k;
    }
    Covering(Distinct(lap), |nodes|);
  }

  ghost predicate SameNodes(a: seq<ClusterNode>, b: seq<ClusterNode>) {
    |a| == |b| && (forall i :: 0 <= i < |a| ==> a[i] in b) && (forall i :: 0 <= i < |b| ==> b[i] in a)
  }

  lemma PointsShared(a: seq<ClusterNode>, b: seq<ClusterNode>, hash: Hash, points: nat)
    requires SameNodes(a, b) && DistinctIds(b) && CollisionFree(hash, b, points)
    ensures var x, y := RingOf(a, hash, points), RingOf(b, hash, points);
            && OwnersBelow(x, |a|) && OwnersBelow(y, |b|)
            && (forall h :: h in x ==> h in y && b[y[h]] == a[x[h]])
  {
    var x, y := RingOf(a, hash, points), RingOf(b, hash, points);
    RingOwnersBelow(a, hash, points);
    RingOwnersBelow(b, hash, points);
    RingExplained(a, hash, points);
    EveryNodeOwns(b, hash, points);
    hide RingOf;
    forall h | h in x ensures h in y && b[y[h]] == a[x[h]] {
      var i :| 0 <= i < points && hash(Label(a[x[h]].id, i)) == h;
      assert a[x[h]] in b;
      var m :| 0 <= m < |b| && b[m] == a[x[h]];
      assert hash(Label(b[m].id, i)) in y;
    }
  }

  /** Both rings have the same points, and each point the same node. */
  lemma SamePoints(a: seq<ClusterNode>, b: seq<ClusterNode>, hash: Hash, points: nat)
    requires SameNodes(a, b) && DistinctIds(a) && DistinctIds(b)
    requires CollisionFree(hash, a, points) && CollisionFree(hash, b, points)
    ensures var x, y := RingOf(a, hash, points), RingOf(b, hash, points);
            && OwnersBelow(x, |a|) && OwnersBelow(y, |b|) && x.Keys == y.Keys
            && (forall h :: h in x ==> b[y[h]] == a[x[h]])
  {
    hide RingOf, CollisionFree, DistinctIds;
    PointsShared(a, b, hash, points);
    PointsShared(b, a, hash, points);
    var x, y := RingOf(a, hash, points), RingOf(b, hash, points);
    assert forall h :: h in x <==> h in y;
    assert x.Keys == y.Keys;
  }

  /** Routers built from the same nodes in any order give the same answer for every key. */
  lemma OrderDoesNotMatter(a: seq<ClusterNode>, b: seq<ClusterNode>, hash: Hash, points: nat, slots: nat,
                           localId: ByteString, collection: ByteString, key: ByteString, factor: nat)
    requires SameNodes(a, b) && DistinctIds(a) && DistinctIds(b) && points > 0 && slots > 0
    requires CollisionFree(hash, a, points) && CollisionFree(hash, b, points)
    ensures var h := SlotHash(hash, SlotFor(hash, collection, key, slots));
            && EnoughOwners(RingOf(a, hash, points), h, factor, |a|)
            && EnoughOwners(RingOf(b, hash, points), h, factor, |b|)
    ensures Decision(a, hash, points, slots, localId, collection, key, factor) ==
            Decision(b, hash, points, slots, localId, collection, key, factor)
  {
    var h := SlotHash(hash, SlotFor(hash, collection, key, slots));
    hide RingOf, Lap, CollisionFree, SameNodes, DistinctIds, Distinct, SlotHash, SlotFor;
    CollisionFreeHasEnough(a, hash, points, h, factor);
    CollisionFreeHasEnough(b, hash, points, h, factor);
    SameLength(a, b);
    if a != [] {
      SameChoiceOfRings(a, b, hash, points, h, factor);
      ChosenBelow(a, hash, points, h, factor);
      hide Chosen, EnoughOwners;
      SameNamingNodes(a, Chosen(RingOf(a, hash, points), h, factor, |a|), b,
                      Chosen(RingOf(b, hash, points), h, factor, |b|));
      hide SameNaming, NodesAt;
    }
  }

  /** Two index lists that name the same nodes, each in its own node list. */
  ghost predicate SameNaming(a: seq<ClusterNode>, x: seq<int>, b: seq<ClusterNode>, y: seq<int>) {
    |x| == |y| && forall i :: 0 <= i < |x| ==> 0 <= x[i] < |a| && 0 <= y[i] < |b| && a[x[i]] == b[y[i]]
  }

  lemma SameChoiceOfRings(a: seq<ClusterNode>, b: seq<ClusterNode>, hash: Hash, points: nat, h: int, factor: nat)
    requires SameNodes(a, b) && DistinctIds(a) && DistinctIds(b)
    requires CollisionFree(hash, a, points) && CollisionFree(hash, b, points)
    requires EnoughOwners(RingOf(a, hash, points), h, factor, |a|)
               && EnoughOwners(RingOf(b, hash, points), h, factor, |b|)
    ensures SameNaming(a, Chosen(RingOf(a, hash, points), h, factor, |a|), b,
                       Chosen(RingOf(b, hash, points), h, factor, |b|))
  {
    hide RingOf, Lap, CollisionFree, SameNodes, Distinct, DistinctIds, OwnersBelow;
    assert |a| == |b| by { SameLength(a, b); }
    SamePoints(a, b, hash, points);
    var x, y := RingOf(a, hash, points), RingOf(b, hash, points);
    SameLapNodes(a, b, x, y, h);
    SameDistinct(a, Lap(x, h), b, Lap(y, h));
    SameNamingPrefix(a, Distinct(Lap(x, h)), b, Distinct(Lap(y, h)), Desired(factor, |a|));
  }

  lemma SameLength(a: seq<ClusterNode>, b: seq<ClusterNode>)
    requires SameNodes(a, b)
    ensures |a| == |b|
  {
  }

  lemma SameNamingNodes(a: seq<ClusterNode>, x: seq<int>, b: seq<ClusterNode>, y: seq<int>)
    requires SameNaming(a, x, b, y)
    ensures forall i :: 0 <= i < |x| ==> 0 <= x[i] < |a|
    ensures forall i :: 0 <= i < |y| ==> 0 <= y[i] < |b|
    ensures NodesAt(a, x) == NodesAt(b, y)
    ensures x != [] ==> y != [] && a[x[0]] == b[y[0]]
  {
  }

  lemma SameNamingPrefix(a: seq<ClusterNode>, x: seq<int>, b: seq<ClusterNode>, y: seq<int>, n: nat)
    requires SameNaming(a, x, b, y) && n <= |x|
    ensures SameNaming(a, x[..n], b, y[..n])
  {
  }

  lemma SameLapNodes(a: seq<ClusterNode>, b: seq<ClusterNode>, x: Ring, y: Ring, h: int)
    requires OwnersBelow(x, |a|) && OwnersBelow(y, |b|) && x.Keys == y.Keys
    requires forall p :: p in x ==> b[y[p]] == a[x[p]]
    ensures SameNaming(a, Lap(x, h), b, Lap(y, h))
  {
    var c := Clockwise(x.Keys, h);
    hide Clockwise;
    var p, q := Lap(x, h), Lap(y, h);
    assert |p| == |q| by { assert |x| == |x.Keys| && |y| == |y.Keys|; }
    forall i | 0 <= i < |p| ensures 0 <= p[i] < |a| && 0 <= q[i] < |b| && a[p[i]] == b[q[i]] {
      var k := c[i];
      assert k in x && k in y && p[i] == x[k] && q[i] == y[k];
      assert 0 <= x[k] < |a| && 0 <= y[k] < |b|;
    }
  }

  /** Dropping repetitions keeps the naming: with distinct ids equal nodes have equal indexes. */
  lemma {:induction false} SameDistinct(a: seq<ClusterNode>, x: seq<int>, b: seq<ClusterNode>, y: seq<int>)
    requires SameNaming(a, x, b, y) && DistinctIds(a) && DistinctIds(b)
    ensures SameNaming(a, Distinct(x), b, Distinct(y))
    decreases |x|
  {
    if x != [] {
      var n := |x| - 1;
      SameDistinct(a, x[..n], b, y[..n]);
      DistinctStep(x, n);
      DistinctStep(y, n);
      assert x[..n + 1] == x && y[..n + 1] == y;
      hide Distinct;
      var d, e := Distinct(x[..n]), Distinct(y[..n]);
      SameMembership(a, d, b, e, x[n], y[n]);
    }
  }

  lemma SameMembership(a: seq<ClusterNode>, d: seq<int>, b: seq<ClusterNode>, e: seq<int>, i: int, j: int)
    requires SameNaming(a, d, b, e) && DistinctIds(a) && DistinctIds(b)
    requires 0 <= i < |a| && 0 <= j < |b| && a[i] == b[j]
    ensures i in d <==> j in e
  {
    if i in d {
      var k :| 0 <= k < |d| && d[k] == i;
      assert b[e[k]].id == b[j].id;
    }
    if j in e {
      var k :| 0 <= k < |e| && e[k] == j;
      assert a[d[k]].id == a[i].id;
    }
  }
}
