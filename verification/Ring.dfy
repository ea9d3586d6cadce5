/** The consistent-hash ring that decides which nodes store a key (api/queel/cluster/ring.go). */
module HashRing {
  import opened Bytes
  import opened Sorting

  /** A node is identified by its address, a Go string. */
  type Node = Key

  const VIRTUAL_NODES: nat := 100

  datatype Point = Point(hash: nat, node: Node)

  datatype Ring = Ring(replicationFactor: nat, points: seq<Point>)

  function Decimal(n: nat): seq<Byte>
  {
    if n < 10 then [48 + n] else Decimal(n / 10) + [48 + n % 10]
  }

  /** `fmt.Sprintf("%s#%d", node, v)`: what is hashed to place a virtual node. */
  function Label(node: Node, v: nat): Key
  {
    node + [35] + Decimal(v)
  }

  function Min(a: nat, b: nat): nat
  {
    if a < b then a else b
  }

  /** The smallest number of replicas that is a majority of `replicas`. */
  function Quorum(replicas: nat): nat
  {
    replicas / 2 + 1
  }

  // ---- What a ring is ----

  /** No two virtual nodes of these nodes fall on the same point. */
  ghost predicate DistinctHashes(nodes: set<Node>, hash: Key -> nat)
  {
    forall a, b, u: nat, v: nat {:trigger hash(Label(a, u)), hash(Label(b, v))} ::
      (a in nodes && b in nodes && u < VIRTUAL_NODES && v < VIRTUAL_NODES
       && hash(Label(a, u)) == hash(Label(b, v))) ==> a == b && u == v
  }

  ghost predicate IsPointOf(p: Point, nodes: set<Node>, hash: Key -> nat)
  {
    p.node in nodes && exists v: nat :: v < VIRTUAL_NODES && p.hash == hash(Label(p.node, v))
  }

  ghost predicate Rising(points: seq<Point>)
  {
    forall i, j :: 0 <= i < j < |points| ==> points[i].hash < points[j].hash
  }

  ghost predicate InOrder(points: seq<Point>)
  {
    forall i, j :: 0 <= i < j < |points| ==> points[i].hash <= points[j].hash
  }

  /** A ring over `nodes`: their points in order, tied ones in any order, and a clamped replication factor. */
  ghost predicate IsRingOver(ring: Ring, nodes: set<Node>, factor: nat, hash: Key -> nat)
  {
    && ring.replicationFactor == Min(factor, |nodes|)
    && InOrder(ring.points)
    && forall p :: p in ring.points <==> IsPointOf(p, nodes, hash)
  }

  /** The ring over `nodes`, where no two points are tied. */
  ghost predicate IsRing(ring: Ring, nodes: set<Node>, factor: nat, hash: Key -> nat)
  {
    IsRingOver(ring, nodes, factor, hash) && Rising(ring.points)
  }

  lemma {:induction false} RisingUnique(a: seq<Point>, b: seq<Point>)
    requires Rising(a) && Rising(b) && forall p :: p in a <==> p in b
    ensures a == b
    decreases |a|
  {
    assert a != [] ==> a[0] in b;
    assert b != [] ==> b[0] in a;
    if a != [] {
      RisingRest(a);
      RisingRest(b);
      assert a[0] == b[0];
      RisingUnique(a[1..], b[1..]);
      assert a == [a[0]] + a[1..] && b == [b[0]] + b[1..];
    }
  }

  lemma RisingRest(a: seq<Point>)
    requires Rising(a) && a != []
    ensures Rising(a[1..])
    ensures forall p :: p in a[1..] <==> p in a && p != a[0]
    ensures forall p :: p in a ==> p == a[0] || a[0].hash < p.hash
  {
    forall p | p in a && p != a[0]
      ensures p in a[1..]
    {
      var i :| 0 <= i < |a| && a[i] == p;
      assert a[1..][i - 1] == p;
    }
  }

  // ---- Building ----

  /** `points` are the points of the nodes `done` and the first `v` points of `node`, `which` saying which each is. */
  ghost predicate Placed(points: seq<Point>, which: seq<nat>, done: set<Node>, node: Node, v: nat, hash: Key -> nat)
  {
    && |which| == |points|
    && (forall i :: 0 <= i < |points| ==>
          && points[i].hash == hash(Label(points[i].node, which[i]))
          && which[i] < VIRTUAL_NODES
          && (points[i].node in done || (points[i].node == node && which[i] < v)))
    && (forall n, u: nat :: n in done && u < VIRTUAL_NODES ==> Point(hash(Label(n, u)), n) in points)
    && (forall u: nat :: u < v ==> Point(hash(Label(node, u)), node) in points)
    && (forall i, j :: 0 <= i < j < |points| ==> points[i].node != points[j].node || which[i] != which[j])
  }

  lemma PlaceOne(points: seq<Point>, which: seq<nat>, done: set<Node>, node: Node, v: nat, hash: Key -> nat)
    requires Placed(points, which, done, node, v, hash) && node !in done && v < VIRTUAL_NODES
    ensures Placed(points + [Point(hash(Label(node, v)), node)], which + [v], done, node, v + 1, hash)
  {
    var points', p := points + [Point(hash(Label(node, v)), node)], Point(hash(Label(node, v)), node);
    assert points'[|points|] == p;
    forall n, u: nat | (n in done && u < VIRTUAL_NODES) || (n == node && u < v)
      ensures Point(hash(Label(n, u)), n) in points'
    {
      assert Point(hash(Label(n, u)), n) in points;
    }
  }

  /** Placed points, sorted by hash, are the points of the nodes. */
  lemma SortedArePoints(points: seq<Point>, which: seq<nat>, sorted: seq<Point>, nodes: set<Node>, node: Node,
      hash: Key -> nat)
    requires Placed(points, which, nodes, node, 0, hash) && multiset(sorted) == multiset(points)
    ensures |sorted| == |points| && forall p :: p in sorted <==> IsPointOf(p, nodes, hash)
  {
    assert |multiset(sorted)| == |sorted| && |multiset(points)| == |points|;
    forall p
      ensures p in sorted <==> p in points
    {
      assert p in sorted <==> p in multiset(sorted);
      assert p in points <==> p in multiset(points);
    }
    forall p | p in points
      ensures IsPointOf(p, nodes, hash)
    {
      var i :| 0 <= i < |points| && points[i] == p;
      assert which[i] < VIRTUAL_NODES;
    }
    forall p | IsPointOf(p, nodes, hash)
      ensures p in points
    {
      var v: nat :| v < VIRTUAL_NODES && p.hash == hash(Label(p.node, v));
      assert Point(hash(Label(p.node, v)), p.node) == p;
    }
  }

  /** Without ties they are in rising order. */
  lemma SortedIsRising(points: seq<Point>, which: seq<nat>, sorted: seq<Point>, nodes: set<Node>, node: Node,
      hash: Key -> nat)
    requires Placed(points, which, nodes, node, 0, hash) && DistinctHashes(nodes, hash)
    requires multiset(sorted) == multiset(points) && InOrder(sorted)
    ensures Rising(sorted)
  {
    forall i, j | 0 <= i < j < |sorted|
      ensures sorted[i].hash < sorted[j].hash
    {
      if sorted[i].hash == sorted[j].hash {
        assert sorted[i] in multiset(points) && sorted[j] in multiset(points);
        var a :| 0 <= a < |points| && points[a] == sorted[i];
        var b :| 0 <= b < |points| && points[b] == sorted[j];
        assert hash(Label(points[a].node, which[a])) == hash(Label(points[b].node, which[b]));
        assert sorted[i] == sorted[j];
        TwiceInSeq(sorted, i, j);
        PlacedOnce(points, which, nodes, node, hash, a);
      }
    }
  }

  lemma SortedIsRing(points: seq<Point>, which: seq<nat>, sorted: seq<Point>, nodes: set<Node>, node: Node,
      factor: nat, hash: Key -> nat)
    requires Placed(points, which, nodes, node, 0, hash)
    requires multiset(sorted) == multiset(points) && InOrder(sorted)
    ensures |sorted| == |points|
    ensures IsRingOver(Ring(Min(factor, |nodes|), sorted), nodes, factor, hash)
    ensures DistinctHashes(nodes, hash) ==> IsRing(Ring(Min(factor, |nodes|), sorted), nodes, factor, hash)
  {
    hide Placed;
    hide DistinctHashes;
    hide InOrder;
    hide IsPointOf;
    hide Rising;
    SortedArePoints(points, which, sorted, nodes, node, hash);
    if DistinctHashes(nodes, hash) {
      SortedIsRising(points, which, sorted, nodes, node, hash);
    }
  }

  lemma PlacedOnce(points: seq<Point>, which: seq<nat>, nodes: set<Node>, node: Node, hash: Key -> nat, a: nat)
    requires Placed(points, which, nodes, node, 0, hash) && DistinctHashes(nodes, hash) && a < |points|
    ensures multiset(points)[points[a]] == 1
  {
    hide Label;
    forall i | 0 <= i < |points| && i != a
      ensures points[i] != points[a]
    {
      assert points[i].hash == hash(Label(points[i].node, which[i]));
      assert points[a].hash == hash(Label(points[a].node, which[a]));
    }
    OnlyAt(points, a);
  }

  method NewRing(nodes: seq<Node>, factor: nat, hash: Key -> nat) returns (ring: Ring)
    ensures IsRingOver(ring, ToSet(nodes), factor, hash) && |ring.points| == VIRTUAL_NODES * |ToSet(nodes)|
    ensures DistinctHashes(ToSet(nodes), hash) ==> IsRing(ring, ToSet(nodes), factor, hash)
  {
    var distinct := ToSet(nodes);
    var points: seq<Point>, rest := [], distinct;
    ghost var which: seq<nat>, node: Node, done: set<Node> := [], [], {};
    NothingPlaced(node, hash);
    hide Placed;
    hide Label;
    hide DistinctHashes;
    hide IsRingOver;
    hide IsRing;
    hide InOrder;
    hide Min;
    while rest != {}
      invariant done + rest == distinct && done !! rest
      invariant Placed(points, which, done, node, 0, hash)
      invariant |points| == VIRTUAL_NODES * |done|
      decreases rest
    {
      var next :| next in rest;
      rest := rest - {next};
      NextNode(points, which, done, node, next, hash);
      points, which := PlaceNode(points, next, hash, which, done);
      done, node := done + {next}, next;
    }
    var sorted := SortPoints(points);
    SortedIsRing(points, which, sorted, distinct, node, factor, hash);
    ring := Ring(Min(factor, |distinct|), sorted);
  }

  /** The points of one more node. */
  method PlaceNode(points: seq<Point>, node: Node, hash: Key -> nat, ghost which: seq<nat>, ghost done: set<Node>)
    returns (more: seq<Point>, ghost which': seq<nat>)
    requires Placed(points, which, done, node, 0, hash) && node !in done
    ensures Placed(more, which', done + {node}, node, 0, hash) && |more| == |points| + VIRTUAL_NODES
  {
    hide Placed;
    hide Label;
    more, which' := points, which;
    for v := 0 to VIRTUAL_NODES
      invariant Placed(more, which', done, node, v, hash) && |more| == |points| + v
    {
      PlaceOne(more, which', done, node, v, hash);
      more, which' := more + [Point(hash(Label(node, v)), node)], which' + [v];
    }
    NodeDone(more, which', done, node, hash);
  }

  method SortPoints(points: seq<Point>) returns (sorted: seq<Point>)
    ensures InOrder(sorted) && multiset(sorted) == multiset(points)
  {
    sorted := SortSlice(points, (p: Point, q: Point) => p.hash < q.hash);
  }

  lemma NothingPlaced(node: Node, hash: Key -> nat)
    ensures Placed([], [], {}, node, 0, hash)
  {
  }

  lemma NextNode(points: seq<Point>, which: seq<nat>, done: set<Node>, node: Node, next: Node, hash: Key -> nat)
    requires Placed(points, which, done, node, 0, hash)
    ensures Placed(points, which, done, next, 0, hash)
  {
  }

  lemma NodeDone(points: seq<Point>, which: seq<nat>, done: set<Node>, node: Node, hash: Key -> nat)
    requires Placed(points, which, done, node, VIRTUAL_NODES, hash)
    ensures Placed(points, which, done + {node}, node, 0, hash)
  {
  }

  function ToSet(nodes: seq<Node>): set<Node>
  {
    set n | n in nodes
  }

  // ---- Walking ----

  /** Each node where it first appears. */
  function Distinct(s: seq<Node>): seq<Node>
  {
    if s == [] then [] else
    var front, n := Distinct(s[..|s| - 1]), s[|s| - 1];
    if n in front then front else front + [n]
  }

  function Without(s: seq<Node>, x: Node): seq<Node>
  {
    if s == [] then [] else
    var front, n := Without(s[..|s| - 1], x), s[|s| - 1];
    if n == x then front else front + [n]
  }

  function NodesOf(points: seq<Point>): (nodes: seq<Node>)
    ensures |nodes| == |points| && forall i :: 0 <= i < |nodes| ==> nodes[i] == points[i].node
  {
    seq(|points|, i requires 0 <= i < |points| => points[i].node)
  }

  /** Where the walk for a position starts: the first point not before it. */
  function Start(points: seq<Point>, h: nat): (start: nat)
    ensures start <= |points|
    ensures forall i :: 0 <= i < start ==> points[i].hash < h
    ensures start < |points| ==> h <= points[start].hash
  {
    if points == [] || h <= points[0].hash then 0 else 1 + Start(points[1..], h)
  }

  /** The points clockwise from a position, once round the ring. */
  function Walk(points: seq<Point>, h: nat): (walk: seq<Point>)
    ensures |walk| == |points|
  {
    points[Start(points, h)..] + points[..Start(points, h)]
  }

  /** The order in which a key prefers the nodes of a ring. */
  function Order(ring: Ring, position: nat): seq<Node>
  {
    Distinct(NodesOf(Walk(ring.points, position)))
  }

  /** The nodes responsible for the position of a key. */
  function Replicas(ring: Ring, position: nat): seq<Node>
  {
    var order := Order(ring, position);
    order[..Min(ring.replicationFactor, |order|)]
  }

  lemma {:induction false} DistinctElements(s: seq<Node>)
    ensures forall n :: n in Distinct(s) <==> n in s
    ensures forall i, j :: 0 <= i < j < |Distinct(s)| ==> Distinct(s)[i] != Distinct(s)[j]
  {
    if s != [] {
      DistinctElements(s[..|s| - 1]);
      assert s == s[..|s| - 1] + [s[|s| - 1]];
    }
  }

  lemma {:induction false} DistinctPrefix(s: seq<Node>, i: nat)
    requires i <= |s|
    ensures Distinct(s[..i]) <= Distinct(s)
  {
    if i < |s| {
      DistinctPrefix(s[..|s| - 1], i);
      assert s[..|s| - 1][..i] == s[..i];
    } else {
      assert s[..i] == s;
    }
  }

  method SearchPoints(points: seq<Point>, h: nat) returns (start: nat)
    requires InOrder(points)
    ensures start == Start(points, h)
  {
    var lo, hi := 0, |points|;
    while lo < hi
      invariant 0 <= lo <= hi <= |points|
      invariant forall i :: 0 <= i < lo ==> points[i].hash < h
      invariant hi < |points| ==> h <= points[hi].hash
    {
      var mid := (lo + hi) / 2;
      if points[mid].hash >= h {
        hi := mid;
      } else {
        lo := mid + 1;
      }
    }
    start := lo;
  }

  /** The distinct nodes passed after `i` points of the walk. */
  function Passed(points: seq<Point>, h: nat, i: nat): seq<Node>
    requires i <= |points|
  {
    Distinct(NodesOf(Walk(points, h))[..i])
  }

  lemma NonePassed(points: seq<Point>, h: nat)
    ensures Passed(points, h, 0) == []
  {
  }

  lemma PassedMore(points: seq<Point>, h: nat, i: nat)
    requires i < |points|
    ensures var before, n := Passed(points, h, i), PointAt(points, Start(points, h) + i).node;
            Passed(points, h, i + 1) == if n in before then before else before + [n]
  {
    WalkAt(points, h, i);
    DistinctMore(NodesOf(Walk(points, h)), i);
  }

  /** Walks the ring clockwise from the key's position, collecting distinct nodes. */
  method ReplicasFor(ring: Ring, position: nat) returns (replicas: seq<Node>)
    requires InOrder(ring.points)
    ensures replicas == Replicas(ring, position)
  {
    if |ring.points| == 0 || ring.replicationFactor == 0 {
      NoneToWalk(ring, position);
      return [];
    }
    var start := SearchPoints(ring.points, position);
    hide Replicas;
    hide Passed;
    hide Start;
    hide InOrder;
    hide PointAt;
    NonePassed(ring.points, position);
    var seen: set<Node> := {};
    replicas := [];
    var i := 0;
    while |replicas| < ring.replicationFactor && i < |ring.points|
      invariant 0 <= i <= |ring.points|
      invariant |replicas| <= ring.replicationFactor
      invariant replicas == Passed(ring.points, position, i)
      invariant forall n :: n in seen <==> n in replicas
    {
      PassedMore(ring.points, position, i);
      var p := PointAt(ring.points, start + i);
      i := i + 1;
      if p.node in seen {
        continue;
      }
      seen := seen + {p.node};
      replicas := replicas + [p.node];
    }
    EnoughWalked(ring, position, i);
  }

  lemma NoneToWalk(ring: Ring, position: nat)
    requires ring.points == [] || ring.replicationFactor == 0
    ensures Replicas(ring, position) == []
  {
    assert NodesOf(Walk([], position)) == [];
  }

  /** The walk may stop once it has enough nodes. */
  lemma EnoughWalked(ring: Ring, position: nat, i: nat)
    requires i <= |ring.points|
    requires var n := |Passed(ring.points, position, i)|;
             n <= ring.replicationFactor && (n == ring.replicationFactor || i == |ring.points|)
    ensures Passed(ring.points, position, i) == Replicas(ring, position)
  {
    hide Distinct;
    hide Walk;
    var walk := NodesOf(Walk(ring.points, position));
    DistinctPrefix(walk, i);
    if i == |walk| {
      assert walk[..i] == walk;
    }
  }

  function PointAt(points: seq<Point>, i: nat): Point
    requires points != []
  {
    points[i % |points|]
  }

  lemma WalkAt(points: seq<Point>, h: nat, i: nat)
    requires i < |points|
    ensures NodesOf(Walk(points, h))[i] == PointAt(points, Start(points, h) + i).node
  {
    var start := Start(points, h);
    hide Start;
    assert Walk(points, h)[i] == (points[start..] + points[..start])[i];
    WrapAround(start + i, |points|);
    WalkSplit(points, start, i);
  }

  lemma WalkSplit(points: seq<Point>, start: nat, i: nat)
    requires start <= |points| && i < |points|
    ensures (points[start..] + points[..start])[i]
      == points[if start + i < |points| then start + i else start + i - |points|]
  {
  }

  lemma WrapAround(a: nat, n: nat)
    requires 0 < n && a < 2 * n
    ensures a % n == if a < n then a else a - n
  {
    if a >= n {
      assert a == n + (a - n);
    }
  }

  lemma DistinctMore(s: seq<Node>, i: nat)
    requires i < |s|
    ensures Distinct(s[..i + 1]) == if s[i] in Distinct(s[..i]) then Distinct(s[..i]) else Distinct(s[..i]) + [s[i]]
  {
    assert s[..i + 1][..i] == s[..i];
  }
}
