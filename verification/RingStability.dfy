/** What happens to the replicas of a key when a node leaves the ring (api/queel/cluster/ring.go). */
module RingStability {
  import opened Bytes
  import opened HashRing

  // ---- The order covers every node once ----

  lemma WalkElements(points: seq<Point>, h: nat)
    ensures forall n :: n in NodesOf(Walk(points, h)) <==> exists p :: p in points && p.node == n
  {
    var start, walk := Start(points, h), Walk(points, h);
    forall n | n in NodesOf(walk)
      ensures exists p :: p in points && p.node == n
    {
      var i :| 0 <= i < |walk| && walk[i].node == n;
      WalkSplit(points, start, i);
      assert walk[i] in points;
    }
    forall p | p in points
      ensures p.node in NodesOf(walk)
    {
      var i :| 0 <= i < |points| && points[i] == p;
      var j := if i < start then i + |points| - start else i - start;
      WalkSplit(points, start, j);
      assert NodesOf(walk)[j] == p.node;
    }
  }

  /** For every key the ring orders all its nodes, each once. */
  lemma OrderCovers(ring: Ring, nodes: set<Node>, factor: nat, hash: Key -> nat, position: nat)
    requires IsRingOver(ring, nodes, factor, hash)
    ensures ToSet(Order(ring, position)) == nodes && |Order(ring, position)| == |nodes|
    ensures forall i, j :: 0 <= i < j < |Order(ring, position)| ==> Order(ring, position)[i] != Order(ring, position)[j]
  {
    var order := Order(ring, position);
    DistinctElements(NodesOf(Walk(ring.points, position)));
    WalkElements(ring.points, position);
    forall n | n in nodes
      ensures n in order
    {
      var p := Point(hash(Label(n, 0)), n);
      assert IsPointOf(p, nodes, hash);
    }
    forall n | n in order
      ensures n in nodes
    {
      var p :| p in ring.points && p.node == n;
      assert IsPointOf(p, nodes, hash);
    }
    assert ToSet(order) == nodes;
    SizeOfDistinct(order);
  }

  // ---- The order is clockwise ----

  /** Going up from a position and round past the highest point, `p` comes no later than `q`. */
  predicate Clockwise(h: nat, p: Point, q: Point)
  {
    if (p.hash >= h) == (q.hash >= h) then p.hash <= q.hash else p.hash >= h
  }

  lemma WalkIsClockwise(points: seq<Point>, h: nat, i: nat, j: nat)
    requires InOrder(points) && i < j < |points|
    ensures Clockwise(h, Walk(points, h)[i], Walk(points, h)[j])
  {
    var start := Start(points, h);
    WalkSplit(points, start, i);
    WalkSplit(points, start, j);
    assert forall k :: start <= k < |points| ==> points[start].hash <= points[k].hash;
  }

  /** Each node is listed where it is first met, so everything of a later one is met later. */
  lemma {:induction false} FirstMet(s: seq<Node>, i: nat, j: nat) returns (a: nat)
    requires i < j < |Distinct(s)|
    ensures a < |s| && s[a] == Distinct(s)[i] && forall b :: 0 <= b < |s| && s[b] == Distinct(s)[j] ==> a < b
  {
    var front, last := s[..|s| - 1], s[|s| - 1];
    if j < |Distinct(front)| {
      a := FirstMet(front, i, j);
      DistinctElements(front);
      assert Distinct(s)[i] == Distinct(front)[i] && Distinct(s)[j] == Distinct(front)[j];
    } else {
      DistinctElements(front);
      assert Distinct(front)[i] in front;
      a :| 0 <= a < |front| && front[a] == Distinct(front)[i];
      assert last !in front;
      assert forall b :: 0 <= b < |front| ==> front[b] == s[b] && front[b] in front;
    }
  }

  lemma InWalk(points: seq<Point>, h: nat, i: nat)
    requires i < |points|
    ensures Walk(points, h)[i] in points
  {
    WalkSplit(points, Start(points, h), i);
  }

  lemma MetInWalk(points: seq<Point>, h: nat, p: Point) returns (i: nat)
    requires p in points
    ensures i < |points| && Walk(points, h)[i] == p
  {
    var start := Start(points, h);
    var k :| 0 <= k < |points| && points[k] == p;
    i := if k < start then k + |points| - start else k - start;
    WalkSplit(points, start, i);
  }

  /** A key prefers one node to another because the first has a point that comes before every point of the second. */
  lemma OrderIsClockwise(ring: Ring, position: nat, i: nat, j: nat) returns (p: Point)
    requires InOrder(ring.points) && i < j < |Order(ring, position)|
    ensures p in ring.points && p.node == Order(ring, position)[i]
    ensures forall q :: q in ring.points && q.node == Order(ring, position)[j] ==> Clockwise(position, p, q)
  {
    var walk := Walk(ring.points, position);
    var a := FirstMet(NodesOf(walk), i, j);
    p := walk[a];
    hide InOrder;
    hide Walk;
    hide Distinct;
    hide Clockwise;
    InWalk(ring.points, position, a);
    forall q | q in ring.points && q.node == Order(ring, position)[j]
      ensures Clockwise(position, p, q)
    {
      var b := MetInWalk(ring.points, position, q);
      assert NodesOf(walk)[b] == q.node;
      WalkIsClockwise(ring.points, position, a, b);
    }
  }

  lemma {:induction false} SizeOfDistinct(s: seq<Node>)
    requires forall i, j :: 0 <= i < j < |s| ==> s[i] != s[j]
    ensures |ToSet(s)| == |s|
  {
    if s != [] {
      var front := s[..|s| - 1];
      SizeOfDistinct(front);
      assert s[|s| - 1] !in front;
      assert ToSet(s) == ToSet(front) + {s[|s| - 1]};
    }
  }

  /** The replicas of a key are the first min(factor, nodes) of its order, all different. */
  lemma ReplicasAreFirst(ring: Ring, nodes: set<Node>, factor: nat, hash: Key -> nat, position: nat)
    requires IsRingOver(ring, nodes, factor, hash)
    ensures |Order(ring, position)| == |nodes|
    ensures Replicas(ring, position) == Order(ring, position)[..Min(factor, |nodes|)]
    ensures |ToSet(Replicas(ring, position))| == |Replicas(ring, position)| == Min(factor, |nodes|)
    ensures ToSet(Replicas(ring, position)) <= nodes
  {
    OrderCovers(ring, nodes, factor, hash, position);
    SizeOfDistinct(Replicas(ring, position));
  }

  // ---- Removing a node ----

  function PointsWithout(points: seq<Point>, x: Node): seq<Point>
  {
    if points == [] then [] else
    var front, p := PointsWithout(points[..|points| - 1], x), points[|points| - 1];
    if p.node == x then front else front + [p]
  }

  lemma {:induction false} PointsWithoutElements(points: seq<Point>, x: Node)
    ensures forall p :: p in PointsWithout(points, x) <==> p in points && p.node != x
    ensures Rising(points) ==> Rising(PointsWithout(points, x))
  {
    if points != [] {
      var front := points[..|points| - 1];
      PointsWithoutElements(front, x);
      assert points == front + [points[|points| - 1]];
      if Rising(points) {
        forall q | q in PointsWithout(front, x)
          ensures q.hash < points[|points| - 1].hash
        {
          assert q in front;
        }
      }
    }
  }

  lemma {:induction false} WithoutSum(a: seq<Point>, b: seq<Point>, x: Node)
    ensures PointsWithout(a + b, x) == PointsWithout(a, x) + PointsWithout(b, x)
  {
    if b == [] {
      assert a + b == a;
    } else {
      WithoutSum(a, b[..|b| - 1], x);
      assert (a + b)[..|a + b| - 1] == a + b[..|b| - 1];
    }
  }

  lemma {:induction false} WithoutSumNodes(a: seq<Node>, b: seq<Node>, x: Node)
    ensures Without(a + b, x) == Without(a, x) + Without(b, x)
  {
    if b == [] {
      assert a + b == a;
    } else {
      WithoutSumNodes(a, b[..|b| - 1], x);
      assert (a + b)[..|a + b| - 1] == a + b[..|b| - 1];
    }
  }

  lemma {:induction false} NodesOfWithout(points: seq<Point>, x: Node)
    ensures NodesOf(PointsWithout(points, x)) == Without(NodesOf(points), x)
  {
    if points != [] {
      var front := points[..|points| - 1];
      NodesOfWithout(front, x);
      assert NodesOf(points)[..|points| - 1] == NodesOf(front);
    }
  }

  /** The position where the hashes reach `h` is the only such split. */
  lemma StartIs(points: seq<Point>, h: nat, a: seq<Point>, b: seq<Point>)
    requires points == a + b
    requires forall p :: p in a ==> p.hash < h
    requires forall p :: p in b ==> h <= p.hash
    ensures Start(points, h) == |a|
  {
    forall i | 0 <= i < |a|
      ensures points[i].hash < h
    {
      assert points[i] == a[i];
    }
    if b != [] {
      assert points[|a|] == b[0] && b[0] in b;
    }
  }

  /** The walk starts where the hashes reach `h`. */
  lemma SplitAtStart(points: seq<Point>, h: nat)
    requires InOrder(points)
    ensures points == points[..Start(points, h)] + points[Start(points, h)..]
    ensures forall p :: p in points[..Start(points, h)] ==> p.hash < h
    ensures forall p :: p in points[Start(points, h)..] ==> h <= p.hash
  {
    JoinCut(points, Start(points, h));
    AllBelow(points, Start(points, h), h);
    AllAbove(points, Start(points, h), h);
  }

  lemma AllBelow(points: seq<Point>, start: nat, h: nat)
    requires start <= |points| && forall i :: 0 <= i < start ==> points[i].hash < h
    ensures forall p :: p in points[..start] ==> p.hash < h
  {
  }

  lemma AllAbove(points: seq<Point>, start: nat, h: nat)
    requires InOrder(points) && start <= |points| && (start < |points| ==> h <= points[start].hash)
    ensures forall p :: p in points[start..] ==> h <= p.hash
  {
    forall p | p in points[start..]
      ensures h <= p.hash
    {
      var i :| 0 <= i < |points[start..]| && points[start..][i] == p;
      assert points[start + i] == p;
    }
  }

  lemma JoinCut(points: seq<Point>, start: nat)
    requires start <= |points|
    ensures points == points[..start] + points[start..]
  {
  }

  /** The walk on a ring without `x` is the walk with the points of `x` left out. */
  lemma WalkWithout(points: seq<Point>, h: nat, x: Node)
    requires InOrder(points)
    ensures Walk(PointsWithout(points, x), h) == PointsWithout(Walk(points, h), x)
  {
    hide InOrder;
    hide Rising;
    hide PointsWithout;
    hide Start;
    SplitAtStart(points, h);
    var a, b := points[..Start(points, h)], points[Start(points, h)..];
    WithoutSum(a, b, x);
    WithoutSum(b, a, x);
    PointsWithoutElements(a, x);
    PointsWithoutElements(b, x);
    var a', b' := PointsWithout(a, x), PointsWithout(b, x);
    StartIs(PointsWithout(points, x), h, a', b');
    CutSum(a', b');
  }

  lemma CutSum(a: seq<Point>, b: seq<Point>)
    ensures (a + b)[|a|..] == b && (a + b)[..|a|] == a
  {
  }

  lemma {:induction false} DistinctWithout(s: seq<Node>, x: Node)
    ensures Distinct(Without(s, x)) == Without(Distinct(s), x)
  {
    if s != [] {
      var front, n := s[..|s| - 1], s[|s| - 1];
      DistinctWithout(front, x);
      WithoutElements(Distinct(front), x);
      if n != x {
        assert Without(s, x)[..|Without(s, x)| - 1] == Without(front, x);
      }
      if n !in Distinct(front) {
        assert (Distinct(front) + [n])[..|Distinct(front)|] == Distinct(front);
      }
    }
  }

  lemma {:induction false} WithoutElements(s: seq<Node>, x: Node)
    ensures forall n :: n in Without(s, x) <==> n in s && n != x
  {
    if s != [] {
      WithoutElements(s[..|s| - 1], x);
      assert s == s[..|s| - 1] + [s[|s| - 1]];
    }
  }

  /** Removing a node deletes just that node from the order of every key. */
  lemma OrderWithout(ring: Ring, rest: Ring, nodes: set<Node>, x: Node, factor: nat, hash: Key -> nat, position: nat)
    requires IsRing(ring, nodes, factor, hash) && IsRing(rest, nodes - {x}, factor, hash)
    ensures Order(rest, position) == Without(Order(ring, position), x)
  {
    PointsWithoutElements(ring.points, x);
    forall p
      ensures p in rest.points <==> p in PointsWithout(ring.points, x)
    {
      assert p in rest.points <==> IsPointOf(p, nodes - {x}, hash);
      assert p in ring.points <==> IsPointOf(p, nodes, hash);
    }
    RisingUnique(rest.points, PointsWithout(ring.points, x));
    hide Walk;
    hide NodesOf;
    hide Distinct;
    hide IsPointOf;
    WalkWithout(ring.points, position, x);
    NodesOfWithout(Walk(ring.points, position), x);
    DistinctWithout(NodesOf(Walk(ring.points, position)), x);
  }

  lemma {:induction false} WithoutShort(s: seq<Node>, x: Node)
    requires forall i, j :: 0 <= i < j < |s| ==> s[i] != s[j]
    ensures |Without(s, x)| == if x in s then |s| - 1 else |s|
    ensures x !in s ==> Without(s, x) == s
  {
    if s != [] {
      var front := s[..|s| - 1];
      WithoutShort(front, x);
      assert s == front + [s[|s| - 1]];
    }
  }

  /** Cutting an order of distinct nodes before and after deleting `x`. */
  lemma CutWithout(order: seq<Node>, x: Node, k: nat, k': nat)
    requires forall i, j :: 0 <= i < j < |order| ==> order[i] != order[j]
    requires k <= |order| && k' <= |Without(order, x)|
    requires k' == k || (k' == k - 1 && x in order[..k])
    ensures var before, after := order[..k], Without(order, x)[..k'];
            && Without(before, x) <= after
            && |after| <= |Without(before, x)| + 1
            && (x !in before ==> after == before)
  {
    var before, tail := order[..k], order[k..];
    assert order == before + tail;
    WithoutSumNodes(before, tail, x);
    WithoutShort(before, x);
  }

  /**
   * When `x` leaves, the old replicas other than `x` stay replicas, in the same order and ahead of any
   * other; at most one node joins them, and none does unless `x` was a replica.
   */
  lemma ReplicasWithout(ring: Ring, rest: Ring, nodes: set<Node>, x: Node, factor: nat, hash: Key -> nat, position: nat)
    requires IsRing(ring, nodes, factor, hash) && IsRing(rest, nodes - {x}, factor, hash)
    ensures var before, after := Replicas(ring, position), Replicas(rest, position);
            && Without(before, x) <= after
            && |after| <= |Without(before, x)| + 1
            && (x !in before ==> after == before)
            && |after| == Min(factor, |nodes - {x}|)
  {
    OrderCovers(ring, nodes, factor, hash, position);
    OrderCovers(rest, nodes - {x}, factor, hash, position);
    OrderWithout(ring, rest, nodes, x, factor, hash, position);
    hide Order;
    hide Without;
    hide IsRing;
    var order := Order(ring, position);
    WithoutShort(order, x);
    assert x in order <==> x in nodes;
    var k, k' := Min(factor, |nodes|), Min(factor, |nodes - {x}|);
    assert x !in nodes ==> nodes - {x} == nodes;
    if k' != k {
      assert order[..k] == order;
    }
    RingFactors(ring, rest, nodes, x, factor, hash);
    CutWithout(order, x, k, k');
  }

  lemma RingFactors(ring: Ring, rest: Ring, nodes: set<Node>, x: Node, factor: nat, hash: Key -> nat)
    requires IsRing(ring, nodes, factor, hash) && IsRing(rest, nodes - {x}, factor, hash)
    ensures ring.replicationFactor == Min(factor, |nodes|) && rest.replicationFactor == Min(factor, |nodes - {x}|)
  {
  }
}
