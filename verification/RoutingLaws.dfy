/** What a routing decision depends on: the text of collection and key picks the slot, the slot picks a
    point of the ring, and the point picks its clockwise successors. */
module RoutingLaws {
  import opened ByteStrings
  import opened Documents
  import opened DistinctWalk
  import opened ClusterRouting
  import Decimals

  // ------------------------------------------------------------------ slots

  /** Under one or the other hash the two pairs get different slots. */
  ghost predicate AlwaysShareSlot(c1: ByteString, k1: ByteString, c2: ByteString, k2: ByteString, slots: nat)
    requires slots > 0
  {
    forall hash: Hash :: SlotFor(hash, c1, k1, slots) == SlotFor(hash, c2, k2, slots)
  }

  /** Two pairs share their slot under every hash exactly when collection, colon and key read the same. */
  lemma SharedSlotExactly(c1: ByteString, k1: ByteString, c2: ByteString, k2: ByteString, slots: nat)
    requires slots >= 2
    ensures AlwaysShareSlot(c1, k1, c2, k2, slots) <==> Join(COLON, c1, k1) == Join(COLON, c2, k2)
  {
    hide SlotFor, Join;
    var t1 := Join(COLON, c1, k1);
    if t1 != Join(COLON, c2, k2) {
      var hash: Hash := (x: ByteString) => if x == t1 then 1 else 0;
      SmallHash(hash, c1, k1, slots, 1);
      SmallHash(hash, c2, k2, slots, 0);
      assert SlotFor(hash, c1, k1, slots) != SlotFor(hash, c2, k2, slots);
    } else {
      forall hash: Hash ensures SlotFor(hash, c1, k1, slots) == SlotFor(hash, c2, k2, slots) {
        SlotOfText(hash, c1, k1, c2, k2, slots);
      }
    }
  }

  lemma SmallHash(hash: Hash, c: ByteString, k: ByteString, slots: nat, n: nat)
    requires n < slots && n < 0x1_0000_0000 && hash(Join(COLON, c, k)) == n
    ensures SlotFor(hash, c, k, slots) == n
  {
    SmallSlot(slots, n);
  }

  lemma SlotOfText(hash: Hash, c1: ByteString, k1: ByteString, c2: ByteString, k2: ByteString, slots: nat)
    requires slots > 0 && Join(COLON, c1, k1) == Join(COLON, c2, k2)
    ensures SlotFor(hash, c1, k1, slots) == SlotFor(hash, c2, k2, slots)
  {
    assert c1 + [COLON] + k1 == c2 + [COLON] + k2;
  }

  /** A slot number is the hash reduced by the slot count and cut to 32 bits. */
  lemma SlotFollowsHash(hash: Hash, c: ByteString, k: ByteString, slots: nat)
    requires slots > 0
    ensures SlotFor(hash, c, k, slots) < slots && SlotFor(hash, c, k, slots) < 0x1_0000_0000
    ensures slots <= 0x1_0000_0000 ==>
              exists laps: int :: hash(Join(COLON, c, k)) == laps * slots + SlotFor(hash, c, k, slots)
  {
    var h := hash(Join(COLON, c, k));
    assert h == (h / slots) * slots + h % slots;
  }

  lemma SmallSlot(slots: nat, n: nat)
    requires n < slots && n < 0x1_0000_0000
    ensures n % slots % 0x1_0000_0000 == n
  {
    assert n % slots == n;
  }

  /** Exactly the slots below the slot count that fit 32 bits are reached. */
  lemma SlotsReached(c: ByteString, k: ByteString, slots: nat, n: nat)
    requires slots > 0
    ensures (exists hash: Hash :: SlotFor(hash, c, k, slots) == n) <==> n < slots && n < 0x1_0000_0000
  {
    if n < slots && n < 0x1_0000_0000 {
      var hash: Hash := (x: ByteString) => n;
      SmallSlot(slots, n);
      assert SlotFor(hash, c, k, slots) == n;
    }
    hide SlotFor;
    if hash: Hash :| SlotFor(hash, c, k, slots) == n {
      SlotFollowsHash(hash, c, k, slots);
    }
  }

  /** Two slots start at the same place on the ring under every hash only if they are the same slot. */
  lemma SlotsStartApart(a: nat, b: nat)
    ensures (forall hash: Hash :: SlotHash(hash, a) == SlotHash(hash, b)) <==> a == b
  {
    if a != b {
      Decimals.DecimalInjective(a, b);
      var x, y := SLOT_PREFIX + Decimals.Decimal(a), SLOT_PREFIX + Decimals.Decimal(b);
      assert x[|SLOT_PREFIX|..] == Decimals.Decimal(a) && y[|SLOT_PREFIX|..] == Decimals.Decimal(b);
      var hash: Hash := (t: ByteString) => if t == x then 1 else 0;
      assert SlotHash(hash, a) == 1 && SlotHash(hash, b) == 0;
    }
  }

  // ------------------------------------------------------------------ clockwise

  /** Clockwise from h come first the points not below h, then the others, each part ascending. */
  lemma ClockwiseOrder(points: set<int>, h: int, i: nat, j: nat)
    requires i < j < |Clockwise(points, h)|
    ensures var c := Clockwise(points, h);
            (c[i] < h ==> c[j] < h) && ((c[i] < h <==> c[j] < h) ==> c[i] < c[j])
  {
    hide SortedInts;
    var up, low := SortedInts(Upper(points, h)), SortedInts(Lower(points, h));
    var c := Clockwise(points, h);
    if j < |up| {
      assert c[i] == up[i] && c[j] == up[j];
    } else if i < |up| {
      assert c[i] == up[i] && c[j] == low[j - |up|];
    } else {
      assert c[i] == low[i - |up|] && c[j] == low[j - |up|];
    }
  }

  /** The successor of h: the least point not below it, or past the end the least point of all. */
  predicate Successor(points: set<int>, h: int, p: int) {
    && p in points
    && if h <= p then forall q :: q in points && h <= q ==> p <= q
       else forall q :: q in points ==> q < h && p <= q
  }

  /** The primary of a slot owns the successor of the slot's point. */
  lemma PrimaryOwnsSuccessor(ring: Ring, h: int, factor: nat, nodeCount: nat, p: int)
    requires EnoughOwners(ring, h, factor, nodeCount) && nodeCount > 0 && Successor(ring.Keys, h, p)
    ensures |Chosen(ring, h, factor, nodeCount)| > 0 && Chosen(ring, h, factor, nodeCount)[0] == ring[p]
  {
    hide SortedInts, Clockwise;
    var c := Clockwise(ring.Keys, h);
    LapVisitsOnce(ring, h);
    FirstIsSuccessor(ring.Keys, h, p);
    var lap := Lap(ring, h);
    assert lap[0] == ring[c[0]];
    FirstStaysFirst(lap);
  }

  lemma FirstIsSuccessor(points: set<int>, h: int, p: int)
    requires Successor(points, h, p)
    ensures |Clockwise(points, h)| > 0 && Clockwise(points, h)[0] == p
  {
    hide Clockwise;
    var c := Clockwise(points, h);
    assert p in c;
    var i :| 0 <= i < |c| && c[i] == p;
    assert c[0] in points;
    if i > 0 {
      ClockwiseOrder(points, h, 0, i);
    }
  }

  lemma FirstStaysFirst(s: seq<int>)
    requires s != []
    ensures Distinct(s) != [] && Distinct(s)[0] == s[0]
  {
    DistinctOfPrefix(s, 1);
    assert s[..1] == [s[0]];
    OneIsDistinct(s[0]);
  }

  lemma OneIsDistinct(x: int)
    ensures Distinct([x]) == [x]
  {
    assert [x][..0] == [];
  }

  /** The chosen owners come in the order in which the lap first meets them. */
  lemma ChosenInLapOrder(ring: Ring, h: int, factor: nat, nodeCount: nat, n: nat)
    requires EnoughOwners(ring, h, factor, nodeCount) && n <= |Lap(ring, h)|
    ensures var met := Distinct(Lap(ring, h)[..n]);
            met <= Chosen(ring, h, factor, nodeCount) || Chosen(ring, h, factor, nodeCount) <= met
  {
    hide Lap, Distinct;
    DistinctOfPrefix(Lap(ring, h), n);
  }

  // ------------------------------------------------------------------ the decision

  /** There is no route exactly without nodes; otherwise the primary is the first replica, as many
      different list entries serve as were asked for, at least one and at most all, and the decision is
      local exactly when the primary carries the router's own id. */
  lemma DecisionMeans(nodes: seq<ClusterNode>, hash: Hash, points: nat, slots: nat, localId: ByteString,
                      collection: ByteString, key: ByteString, factor: nat)
    requires points > 0 && slots > 0
    requires nodes != [] ==>
               EnoughOwners(RingOf(nodes, hash, points), SlotHash(hash, SlotFor(hash, collection, key, slots)), factor,
                            |nodes|)
    ensures var d := Decision(nodes, hash, points, slots, localId, collection, key, factor);
            && (d.NoRoute? <==> nodes == [])
            && (d.Routed? ==>
                  && d.replicas != [] && d.primary == d.replicas[0]
                  && |d.replicas| == (if factor == 0 then 1 else if factor <= |nodes| then factor else |nodes|)
                  && (forall i :: 0 <= i < |d.replicas| ==> d.replicas[i] in nodes)
                  && (d.localOwner <==> d.primary.id == localId)
                  && d.slot < slots)
    ensures var d := Decision(nodes, hash, points, slots, localId, collection, key, factor);
            d.Routed? && DistinctIds(nodes) ==>
              forall i, j :: 0 <= i < j < |d.replicas| ==> d.replicas[i].id != d.replicas[j].id
  {
    hide SlotHash, RingOf, EnoughOwners;
    SlotFollowsHash(hash, collection, key, slots);
    hide SlotFor;
    if nodes != [] {
      var h := SlotHash(hash, SlotFor(hash, collection, key, slots));
      var ring := RingOf(nodes, hash, points);
      ChosenBelow(nodes, hash, points, h, factor);
      ChosenApart(ring, h, factor, |nodes|);
      ChosenSize(ring, h, factor, |nodes|);
      hide Chosen;
      ApartNodes(nodes, Chosen(ring, h, factor, |nodes|));
    }
  }

  lemma ChosenSize(ring: Ring, h: int, factor: nat, nodeCount: nat)
    requires EnoughOwners(ring, h, factor, nodeCount)
    ensures |Chosen(ring, h, factor, nodeCount)| == if factor == 0 && nodeCount > 0 then 1
                                                    else if factor <= nodeCount then factor else nodeCount
  {
    hide Lap, Distinct, EnoughOwners;
  }

  /** Different positions of a list with distinct ids hold different ids. */
  lemma ApartNodes(nodes: seq<ClusterNode>, chosen: seq<int>)
    requires forall i :: 0 <= i < |chosen| ==> 0 <= chosen[i] < |nodes|
    requires NoRepeats(chosen)
    ensures var replicas := NodesAt(nodes, chosen);
            && |replicas| == |chosen|
            && (forall i :: 0 <= i < |replicas| ==> replicas[i] == nodes[chosen[i]] && replicas[i] in nodes)
            && (DistinctIds(nodes) ==> forall i, j :: 0 <= i < j < |replicas| ==> replicas[i].id != replicas[j].id)
  {
    if DistinctIds(nodes) {
      forall i, j | 0 <= i < j < |chosen| ensures nodes[chosen[i]].id != nodes[chosen[j]].id {
        assert chosen[i] != chosen[j];
      }
    }
  }

  lemma ChosenApart(ring: Ring, h: int, factor: nat, nodeCount: nat)
    requires EnoughOwners(ring, h, factor, nodeCount)
    ensures NoRepeats(Chosen(ring, h, factor, nodeCount))
  {
  }

  // ------------------------------------------------------------------ the key decides the primary

  /** The texts that a hash for the example has to tell apart. */
  function Filler(n: nat, b: Byte): ByteString {
    seq(n, _ => b)
  }

  function Node(id: ByteString): ClusterNode {
    ClusterNode(id, [], 0, true, 0, [])
  }

  /** A hash that sends text t1 to slot 1 and t2 to slot 0, the points of the node with the first id to
      1 and those of the other to slots + 1, and starts slot 1 at or before 1 and slot 0 behind it. */
  function Telling(t1: ByteString, p0: ByteString, a: ByteString, b: ByteString, slots: nat): Hash {
    (x: ByteString) =>
      if x == p0 then slots + (if x == t1 then 1 else 0)
      else if x == t1 then 1
      else if a <= x then 1
      else if b <= x then slots + 1
      else 0
  }

  lemma OneNodeRing(hash: Hash, a: ByteString, points: nat, h: int)
    requires points > 0 && forall i: nat :: hash(Label(a, i)) == h
    ensures RingOf([Node(a)], hash, points) == map[h := 0]
  {
    assert [Node(a)][..0] == [];
    var ring := RingOf([Node(a)], hash, points);
    assert ring == AddNode(map[], hash, a, 0, points) by {
      assert RingOf([Node(a)][..0], hash, points) == map[];
    }
    hide RingOf, AddNode;
    AddNodeFacts(map[], hash, a, 0, points);
    assert IsPoint(hash, a, points, h) by {
      assert hash(Label(a, 0)) == h;
    }
    forall x | IsPoint(hash, a, points, x) ensures x == h {
    }
    assert forall x :: x in ring <==> x == h;
  }

  lemma TwoNodeRing(hash: Hash, a: ByteString, b: ByteString, points: nat, g: int, h: int)
    requires points > 0 && g != h
    requires (forall i: nat :: hash(Label(a, i)) == g) && (forall i: nat :: hash(Label(b, i)) == h)
    ensures RingOf([Node(a), Node(b)], hash, points) == map[g := 0, h := 1]
  {
    var nodes := [Node(a), Node(b)];
    assert nodes[..1] == [Node(a)];
    OneNodeRing(hash, a, points, g);
    assert RingOf(nodes, hash, points) == AddNode(map[g := 0], hash, b, 1, points);
    var ring := RingOf(nodes, hash, points);
    hide RingOf, AddNode;
    AddNodeFacts(map[g := 0], hash, b, 1, points);
    assert IsPoint(hash, b, points, h) by {
      assert hash(Label(b, 0)) == h;
    }
    forall x | IsPoint(hash, b, points, x) ensures x == h {
    }
    assert forall x :: x in ring <==> x == g || x == h;
  }

  /** For two pairs whose texts differ there are a hash and a node list that route them to different
      primaries: the whole text counts, and so does the way from the slot to the ring. */
  lemma KeyDecidesPrimary(c1: ByteString, k1: ByteString, c2: ByteString, k2: ByteString, points: nat, slots: nat)
      returns (hash: Hash, nodes: seq<ClusterNode>)
    requires points > 0 && slots >= 2 && Join(COLON, c1, k1) != Join(COLON, c2, k2)
    ensures nodes != []
    ensures EnoughOwners(RingOf(nodes, hash, points), SlotHash(hash, SlotFor(hash, c1, k1, slots)), 1, |nodes|)
    ensures EnoughOwners(RingOf(nodes, hash, points), SlotHash(hash, SlotFor(hash, c2, k2, slots)), 1, |nodes|)
    ensures Decision(nodes, hash, points, slots, [], c1, k1, 1).primary !=
            Decision(nodes, hash, points, slots, [], c2, k2, 1).primary
  {
    var t1, t2 := Join(COLON, c1, k1), Join(COLON, c2, k2);
    var p0, p1 := SLOT_PREFIX + Decimals.Decimal(0), SLOT_PREFIX + Decimals.Decimal(1);
    var length := |t1| + |t2| + |p0| + |p1| + 1;
    var a, b := Filler(length, 0), Filler(length, 1);
    hash := Telling(t1, p0, a, b, slots);
    nodes := [Node(a), Node(b)];
    LabelsTold(t1, p0, a, b, slots);
    hide Telling, Decimals.Decimal, RingOf, SlotFor, Successor, OwnersBelow, Join;
    TwoNodeRing(hash, a, b, points, 1, slots + 1);
    SlotTextsApart();
    TextsTold(t1, t2, p0, p1, a, b, slots);
    TextSlot(hash, c1, k1, slots, 1);
    TextSlot(hash, c2, k2, slots, 0);
    TwoPoints(slots, hash(p1), hash(p0));
    assert a[0] != b[0];
    hide Filler;
    PrimaryIs(nodes, hash, points, slots, c1, k1, 1);
    PrimaryIs(nodes, hash, points, slots, c2, k2, slots + 1);
  }

  lemma TextSlot(hash: Hash, c: ByteString, k: ByteString, slots: nat, n: nat)
    requires slots > 0 && hash(Join(COLON, c, k)) % slots % 0x1_0000_0000 == n
    ensures SlotFor(hash, c, k, slots) == n
    ensures SlotHash(hash, n) == hash(SLOT_PREFIX + Decimals.Decimal(n))
  {
  }

  /** A ring of two points, seen from in front of the first and from between them. */
  lemma TwoPoints(slots: nat, low: int, high: int)
    requires 0 <= low <= 1 && 1 < slots <= high <= slots + 1
    ensures var ring: Ring := map[1 := 0, slots + 1 := 1];
            && ring != map[] && OwnersBelow(ring, 2)
            && Successor(ring.Keys, low, 1) && Successor(ring.Keys, high, slots + 1)
  {
    var ring: Ring := map[1 := 0, slots + 1 := 1];
    assert 1 in ring;
    assert ring.Keys == {1, slots + 1};
  }

  /** The primary of a pair, for one replica of two nodes. */
  lemma PrimaryIs(nodes: seq<ClusterNode>, hash: Hash, points: nat, slots: nat, c: ByteString, k: ByteString, p: int)
    requires points > 0 && slots > 0 && |nodes| == 2
    requires RingOf(nodes, hash, points) != map[] && OwnersBelow(RingOf(nodes, hash, points), 2)
    requires Successor(RingOf(nodes, hash, points).Keys, SlotHash(hash, SlotFor(hash, c, k, slots)), p)
    ensures EnoughOwners(RingOf(nodes, hash, points), SlotHash(hash, SlotFor(hash, c, k, slots)), 1, 2)
    ensures Decision(nodes, hash, points, slots, [], c, k, 1).primary == nodes[RingOf(nodes, hash, points)[p]]
  {
    hide RingOf, SlotFor, SlotHash, EnoughOwners, Chosen, Successor;
    var ring, h := RingOf(nodes, hash, points), SlotHash(hash, SlotFor(hash, c, k, slots));
    OneOwnerIsEnough(ring, h);
    PrimaryOwnsSuccessor(ring, h, 1, 2, p);
    ChosenBelow(nodes, hash, points, h, 1);
  }

  lemma OneOwnerIsEnough(ring: Ring, h: int)
    requires ring != map[] && OwnersBelow(ring, 2)
    ensures EnoughOwners(ring, h, 1, 2)
  {
    hide Lap, Distinct;
    DistinctLapBelow(ring, h, 2);
  }

  lemma LabelsTold(t1: ByteString, p0: ByteString, a: ByteString, b: ByteString, slots: nat)
    requires |a| == |b| > |t1| && |a| > |p0| && a[0] != b[0]
    ensures forall i: nat :: Telling(t1, p0, a, b, slots)(Label(a, i)) == 1
    ensures forall i: nat :: Telling(t1, p0, a, b, slots)(Label(b, i)) == slots + 1
  {
    forall i: nat ensures Telling(t1, p0, a, b, slots)(Label(a, i)) == 1 {
      assert a <= Label(a, i) && |Label(a, i)| > |a|;
    }
    forall i: nat ensures Telling(t1, p0, a, b, slots)(Label(b, i)) == slots + 1 {
      var x := Label(b, i);
      assert b <= x && |x| > |b| && x[0] == b[0];
      assert !(a <= x);
    }
  }

  lemma TextsTold(t1: ByteString, t2: ByteString, p0: ByteString, p1: ByteString, a: ByteString, b: ByteString,
                  slots: nat)
    requires slots >= 2 && t1 != t2 && p0 != p1
    requires |a| == |b| && |a| > |t1| && |a| > |t2| && |a| > |p0| && |a| > |p1|
    ensures var hash := Telling(t1, p0, a, b, slots);
            && hash(t1) % slots % 0x1_0000_0000 == 1 && hash(t2) % slots % 0x1_0000_0000 == 0
            && 0 <= hash(p1) <= 1 && slots <= hash(p0) <= slots + 1
  {
    Modulo(slots);
  }

  lemma Modulo(slots: nat)
    requires slots >= 2
    ensures (slots + 1) % slots == 1 && slots % slots == 0 && 1 % slots == 1 && 0 % slots == 0
  {
  }

  lemma SlotTextsApart()
    ensures SLOT_PREFIX + Decimals.Decimal(0) != SLOT_PREFIX + Decimals.Decimal(1)
  {
    var x, y := SLOT_PREFIX + Decimals.Decimal(0), SLOT_PREFIX + Decimals.Decimal(1);
    assert x[|SLOT_PREFIX|..] == Decimals.Decimal(0) && y[|SLOT_PREFIX|..] == Decimals.Decimal(1);
    Decimals.DecimalInjective(0, 1);
  }
}
