/** A fixed-depth binary Merkle tree and its comparison (api/queel/merkle/tree.go). */
module Merkle {
  import opened Wrappers

  /** `levels[0]` are the leaves, each further level has one hash per pair below it, the last is the root. */
  datatype Tree<H> = Tree(levels: seq<seq<H>>)

  datatype TreeError = NoLeaves | NotPowerOfTwo | DifferentLeafCounts

  function Pow2(d: nat): (n: nat)
    ensures n > 0
  {
    if d == 0 then 1 else 2 * Pow2(d - 1)
  }

  ghost predicate PowerOfTwo(n: nat)
  {
    exists d: nat :: n == Pow2(d)
  }

  /** The bitwise `&` of two non-negative integers. */
  function BitAnd(a: nat, b: nat): nat
  {
    if a == 0 || b == 0 then 0
    else 2 * BitAnd(a / 2, b / 2) + if a % 2 == 1 && b % 2 == 1 then 1 else 0
  }

  lemma {:induction false} AndWithItself(n: nat)
    ensures BitAnd(n, n) == n
  {
    if n > 0 {
      AndWithItself(n / 2);
      assert BitAnd(n, n) == 2 * (n / 2) + n % 2;
    }
  }

  /** `n & (n - 1) == 0` recognises exactly the powers of two. */
  lemma {:induction false} BitTest(n: nat)
    requires n > 0
    ensures BitAnd(n, n - 1) == 0 <==> PowerOfTwo(n)
  {
    if n == 1 {
      assert n == Pow2(0);
    } else if n % 2 == 1 {
      AndWithItself(n / 2);
      assert (n - 1) / 2 == n / 2;
      OddIsNoPower(n);
    } else {
      BitTest(n / 2);
      assert (n - 1) / 2 == n / 2 - 1;
      if PowerOfTwo(n) {
        var d: nat :| n == Pow2(d);
        assert n / 2 == Pow2(d - 1);
      }
      if PowerOfTwo(n / 2) {
        var d: nat :| n / 2 == Pow2(d);
        assert n == Pow2(d + 1);
      }
    }
  }

  lemma OddIsNoPower(n: nat)
    requires n > 1 && n % 2 == 1
    ensures !PowerOfTwo(n)
  {
    forall d: nat
      ensures n != Pow2(d)
    {
      if d > 0 {
        assert Pow2(d) == 2 * Pow2(d - 1);
      }
    }
  }

  lemma {:induction false} Pow2Injective(a: nat, b: nat)
    requires Pow2(a) == Pow2(b)
    ensures a == b
  {
    if a > 0 && b > 0 {
      Pow2Injective(a - 1, b - 1);
    }
  }

  // ---- What a tree is ----

  /** Levels over `Pow2(depth)` leaves: each halves the one below, and each hash is the hash of the two beneath it. */
  ghost predicate Rising<H>(levels: seq<seq<H>>, depth: nat, hashPair: (H, H) -> H)
  {
    && 0 < |levels| <= depth + 1
    && (forall l :: 0 <= l < |levels| ==> |levels[l]| == Pow2(depth - l))
    && forall l, i {:trigger levels[l + 1][i]} :: 0 <= l < |levels| - 1 && 0 <= i < |levels[l + 1]| ==>
         levels[l + 1][i] == hashPair(levels[l][2 * i], levels[l][2 * i + 1])
  }

  /** A whole tree rises to a single root. */
  ghost predicate WellBuilt<H>(t: Tree<H>, hashPair: (H, H) -> H)
  {
    t.levels != [] && Rising(t.levels, |t.levels| - 1, hashPair)
  }

  function Depth<H>(t: Tree<H>): nat
    requires t.levels != []
  {
    |t.levels| - 1
  }

  function Leaves<H>(t: Tree<H>): seq<H>
    requires t.levels != []
  {
    t.levels[0]
  }

  function Root<H>(t: Tree<H>): H
    requires t.levels != [] && |t.levels[|t.levels| - 1]| > 0
  {
    t.levels[|t.levels| - 1][0]
  }

  /** One more level: a hash per pair of the level below. */
  function Above<H>(level: seq<H>, hashPair: (H, H) -> H): (next: seq<H>)
    ensures |next| == |level| / 2
    ensures forall i :: 0 <= i < |next| ==> next[i] == hashPair(level[2 * i], level[2 * i + 1])
  {
    seq(|level| / 2, i requires 0 <= i < |level| / 2 => hashPair(level[2 * i], level[2 * i + 1]))
  }

  /** Builds level upon level; succeeds exactly on a power-of-two number of leaves. */
  method Build<H>(leaves: seq<H>, hashPair: (H, H) -> H) returns (r: Result<Tree<H>, TreeError>)
    ensures r.Ok? <==> PowerOfTwo(|leaves|)
    ensures r.Ok? ==> WellBuilt(r.value, hashPair) && Leaves(r.value) == leaves
  {
    if |leaves| == 0 {
      return Err(NoLeaves);
    }
    BitTest(|leaves|);
    if BitAnd(|leaves|, |leaves| - 1) != 0 {
      return Err(NotPowerOfTwo);
    }
    ghost var d: nat :| |leaves| == Pow2(d);
    var levels := [leaves];
    while |levels[|levels| - 1]| > 1
      invariant levels != [] && levels[0] == leaves && Rising(levels, d, hashPair)
      decreases d + 1 - |levels|
    {
      var next := Above(levels[|levels| - 1], hashPair);
      RiseMore(levels, d, hashPair, next);
      levels := levels + [next];
    }
    OnlyOne(d - (|levels| - 1));
    return Ok(Tree(levels));
  }

  lemma RiseMore<H>(levels: seq<seq<H>>, depth: nat, hashPair: (H, H) -> H, next: seq<H>)
    requires Rising(levels, depth, hashPair) && |levels[|levels| - 1]| > 1
    requires next == Above(levels[|levels| - 1], hashPair)
    ensures Rising(levels + [next], depth, hashPair)
  {
    var more, top := levels + [next], |levels|;
    assert top <= depth;
    assert Pow2(depth - (top - 1)) == 2 * Pow2(depth - top);
    forall l, i | 0 <= l < top && 0 <= i < |more[l + 1]|
      ensures more[l + 1][i] == hashPair(more[l][2 * i], more[l][2 * i + 1])
    {
      if l + 1 < top {
        assert levels[l + 1][i] == hashPair(levels[l][2 * i], levels[l][2 * i + 1]);
      }
    }
  }

  lemma OnlyOne(k: nat)
    requires Pow2(k) <= 1
    ensures k == 0
  {
  }

  // ---- Comparing ----

  ghost predicate InjectivePair<H(!new)>(hashPair: (H, H) -> H)
  {
    forall a, b, c, d {:trigger hashPair(a, b), hashPair(c, d)} ::
      hashPair(a, b) == hashPair(c, d) ==> a == c && b == d
  }

  /** Two trees over the same number of buckets. */
  ghost predicate Comparable<H>(a: Tree<H>, b: Tree<H>, hashPair: (H, H) -> H)
  {
    WellBuilt(a, hashPair) && WellBuilt(b, hashPair) && |a.levels| == |b.levels|
  }

  /** The leaves below a node. */
  predicate Below(leaf: nat, level: nat, index: nat)
  {
    index * Pow2(level) <= leaf < (index + 1) * Pow2(level)
  }

  lemma BelowHalves(leaf: nat, level: nat, index: nat)
    requires level > 0
    ensures Below(leaf, level, index) <==> Below(leaf, level - 1, 2 * index) || Below(leaf, level - 1, 2 * index + 1)
    ensures Below(leaf, level - 1, 2 * index) ==> leaf < (2 * index + 1) * Pow2(level - 1)
    ensures Below(leaf, level - 1, 2 * index + 1) ==> (2 * index + 1) * Pow2(level - 1) <= leaf
  {
    var p := Pow2(level - 1);
    assert Pow2(level) == 2 * p;
    assert index * (2 * p) == (2 * index) * p;
    assert (index + 1) * (2 * p) == (2 * index + 2) * p;
    assert (2 * index) * p <= (2 * index + 1) * p <= (2 * index + 2) * p;
  }

  lemma NodeInRange(level: nat, index: nat, depth: nat)
    requires level <= depth && index < Pow2(depth - level)
    ensures (index + 1) * Pow2(level) <= Pow2(depth)
    ensures level > 0 ==> 2 * index + 1 < Pow2(depth - level + 1)
  {
    PowersMultiply(depth - level, level);
    assert (index + 1) * Pow2(level) <= Pow2(depth - level) * Pow2(level) by {
      MulMonotone(index + 1, Pow2(depth - level), Pow2(level));
    }
  }

  /** A node above the leaves has two children, and is their hash. */
  lemma ChildrenOf<H>(t: Tree<H>, hashPair: (H, H) -> H, level: nat, index: nat)
    requires WellBuilt(t, hashPair) && 0 < level <= Depth(t) && index < |t.levels[level]|
    ensures 2 * index + 1 < |t.levels[level - 1]|
    ensures t.levels[level][index] == hashPair(t.levels[level - 1][2 * index], t.levels[level - 1][2 * index + 1])
  {
    var l := level - 1;
    assert Pow2(Depth(t) - l) == 2 * Pow2(Depth(t) - level);
    assert t.levels[l + 1][index] == hashPair(t.levels[l][2 * index], t.levels[l][2 * index + 1]);
  }

  /** Comparable trees have levels of the same lengths. */
  lemma SameWidths<H>(a: Tree<H>, b: Tree<H>, hashPair: (H, H) -> H, level: nat)
    requires Comparable(a, b, hashPair) && level <= Depth(a)
    ensures |a.levels[level]| == |b.levels[level]|
  {
  }

  lemma MulMonotone(a: nat, b: nat, p: nat)
    requires a <= b
    ensures a * p <= b * p
  {
  }

  lemma {:induction false} PowersMultiply(a: nat, b: nat)
    ensures Pow2(a) * Pow2(b) == Pow2(a + b)
  {
    if a > 0 {
      PowersMultiply(a - 1, b);
      Doubled(Pow2(a - 1), Pow2(b));
    }
  }

  lemma Doubled(p: nat, q: nat)
    ensures (2 * p) * q == 2 * (p * q)
  {
  }

  /** The child of a node that covers a leaf below the node. */
  function Child(leaf: nat, level: nat, index: nat): nat
    requires level > 0
  {
    if Below(leaf, level - 1, 2 * index) then 2 * index else 2 * index + 1
  }

  /** Every node on the way from a node down to a leaf carries different hashes in the two trees. */
  ghost predicate Reached<H(!new)>(a: Tree<H>, b: Tree<H>, hashPair: (H, H) -> H, level: nat, index: nat, leaf: nat)
    requires Comparable(a, b, hashPair)
    requires level <= Depth(a) && index < |a.levels[level]|
  {
    && a.levels[level][index] != b.levels[level][index]
    && (level > 0 ==>
          (NodeInRange(level, index, Depth(a)); Reached(a, b, hashPair, level - 1, Child(leaf, level, index), leaf)))
  }

  /** No two different pairs of children, one in each tree at the same place, share a hash. */
  ghost predicate NoCollision<H>(a: Tree<H>, b: Tree<H>, hashPair: (H, H) -> H)
    requires Comparable(a, b, hashPair)
  {
    forall l, i {:trigger a.levels[l + 1][i]} :: 0 <= l < |a.levels| - 1 && 0 <= i < |a.levels[l + 1]| ==>
      a.levels[l + 1][i] == b.levels[l + 1][i] ==>
        a.levels[l][2 * i] == b.levels[l][2 * i] && a.levels[l][2 * i + 1] == b.levels[l][2 * i + 1]
  }

  lemma InjectiveHasNoCollision<H(!new)>(a: Tree<H>, b: Tree<H>, hashPair: (H, H) -> H)
    requires Comparable(a, b, hashPair) && InjectivePair(hashPair)
    ensures NoCollision(a, b, hashPair)
  {
    forall l, i | 0 <= l < |a.levels| - 1 && 0 <= i < |a.levels[l + 1]| && a.levels[l + 1][i] == b.levels[l + 1][i]
      ensures a.levels[l][2 * i] == b.levels[l][2 * i] && a.levels[l][2 * i + 1] == b.levels[l][2 * i + 1]
    {
      assert a.levels[l + 1][i] == hashPair(a.levels[l][2 * i], a.levels[l][2 * i + 1]);
      assert b.levels[l + 1][i] == hashPair(b.levels[l][2 * i], b.levels[l][2 * i + 1]);
    }
  }

  /** Where nothing collides, a matching branch has matching leaves. */
  lemma {:induction false} EqualBranch<H(!new)>(a: Tree<H>, b: Tree<H>, hashPair: (H, H) -> H, level: nat,
      index: nat, leaf: nat)
    requires Comparable(a, b, hashPair) && NoCollision(a, b, hashPair)
    requires level <= Depth(a) && index < |a.levels[level]| && Below(leaf, level, index)
    requires a.levels[level][index] == b.levels[level][index]
    ensures leaf < |Leaves(a)| && Leaves(a)[leaf] == Leaves(b)[leaf]
  {
    NodeInRange(level, index, Depth(a));
    if level == 0 {
      assert leaf == index;
    } else {
      BelowHalves(leaf, level, index);
      var l := level - 1;
      assert a.levels[l + 1][index] == b.levels[l + 1][index];
      EqualBranch(a, b, hashPair, l, Child(leaf, level, index), leaf);
    }
  }

  /** Two branches with different hashes have different leaves somewhere, whatever the hash. */
  lemma {:induction false} DifferentBranch<H(!new)>(a: Tree<H>, b: Tree<H>, hashPair: (H, H) -> H, level: nat,
      index: nat)
    returns (leaf: nat)
    requires Comparable(a, b, hashPair)
    requires level <= Depth(a) && index < |a.levels[level]|
    requires a.levels[level][index] != b.levels[level][index]
    ensures Below(leaf, level, index) && leaf < |Leaves(a)| && Leaves(a)[leaf] != Leaves(b)[leaf]
  {
    SameWidths(a, b, hashPair, level);
    if level == 0 {
      leaf := index;
    } else {
      ChildrenOf(a, hashPair, level, index);
      ChildrenOf(b, hashPair, level, index);
      hide Rising;
      hide Below;
      leaf := DifferentBranch(a, b, hashPair, level - 1,
        if a.levels[level - 1][2 * index] != b.levels[level - 1][2 * index] then 2 * index else 2 * index + 1);
      BelowHalves(leaf, level, index);
    }
  }

  /** A leaf that is reached is reached from every node above it, and differs. */
  lemma {:induction false} ReachedBelow<H(!new)>(a: Tree<H>, b: Tree<H>, hashPair: (H, H) -> H, level: nat, index: nat,
      leaf: nat, l: nat, i: nat)
    requires Comparable(a, b, hashPair)
    requires level <= Depth(a) && index < |a.levels[level]| && Below(leaf, level, index)
    requires Reached(a, b, hashPair, level, index, leaf)
    requires l <= level && i < |a.levels[l]| && Below(leaf, l, i)
    ensures a.levels[l][i] != b.levels[l][i]
  {
    if l < level {
      NodeInRange(level, index, Depth(a));
      BelowHalves(leaf, level, index);
      ReachedBelow(a, b, hashPair, level - 1, Child(leaf, level, index), leaf, l, i);
    } else {
      SameNode(leaf, level, index, i);
    }
  }

  lemma SameNode(leaf: nat, level: nat, i: nat, j: nat)
    requires Below(leaf, level, i) && Below(leaf, level, j)
    ensures i == j
  {
    if i < j {
      MulMonotone(i + 1, j, Pow2(level));
    } else if j < i {
      MulMonotone(j + 1, i, Pow2(level));
    }
  }

  /** The indices at which two sequences of leaves differ. */
  predicate Differs<H(==)>(a: seq<H>, b: seq<H>, leaf: nat)
    requires |a| == |b|
  {
    leaf < |a| && a[leaf] != b[leaf]
  }

  /** The leaves reached from the root are all the leaves that differ exactly when no two pairs collide. */
  lemma ReachedExactlyWithoutCollision<H(!new)>(a: Tree<H>, b: Tree<H>, hashPair: (H, H) -> H)
    requires Comparable(a, b, hashPair)
    ensures forall leaf: nat :: leaf < |Leaves(a)| && Reached(a, b, hashPair, Depth(a), 0, leaf) ==>
      Differs(Leaves(a), Leaves(b), leaf)
    ensures NoCollision(a, b, hashPair) <==>
      forall leaf: nat :: Differs(Leaves(a), Leaves(b), leaf) ==> Reached(a, b, hashPair, Depth(a), 0, leaf)
  {
    hide Reached;
    AllBelowRoot(|Leaves(a)|, Depth(a));
    forall leaf: nat | leaf < |Leaves(a)| && Reached(a, b, hashPair, Depth(a), 0, leaf)
      ensures Differs(Leaves(a), Leaves(b), leaf)
    {
      ReachedBelow(a, b, hashPair, Depth(a), 0, leaf, 0, leaf);
    }
    if NoCollision(a, b, hashPair) {
      forall leaf: nat | Differs(Leaves(a), Leaves(b), leaf)
        ensures Reached(a, b, hashPair, Depth(a), 0, leaf)
      {
        DifferingIsReached(a, b, hashPair, Depth(a), 0, leaf);
      }
    } else {
      var leaf := CollisionHides(a, b, hashPair);
    }
  }

  /** A collision hides a leaf that differs. */
  lemma CollisionHides<H(!new)>(a: Tree<H>, b: Tree<H>, hashPair: (H, H) -> H) returns (leaf: nat)
    requires Comparable(a, b, hashPair) && !NoCollision(a, b, hashPair)
    ensures Differs(Leaves(a), Leaves(b), leaf) && !Reached(a, b, hashPair, Depth(a), 0, leaf)
  {
    var l: nat, i: nat :| l < |a.levels| - 1 && i < |a.levels[l + 1]| && a.levels[l + 1][i] == b.levels[l + 1][i] &&
      !(a.levels[l][2 * i] == b.levels[l][2 * i] && a.levels[l][2 * i + 1] == b.levels[l][2 * i + 1]);
    SameWidths(a, b, hashPair, l);
    ChildrenOf(a, hashPair, l + 1, i);
    hide Rising;
    leaf := HiddenBelow(a, b, hashPair, l, i, if a.levels[l][2 * i] != b.levels[l][2 * i] then 2 * i else 2 * i + 1);
  }

  lemma HiddenBelow<H(!new)>(a: Tree<H>, b: Tree<H>, hashPair: (H, H) -> H, l: nat, i: nat,
      child: nat) returns (leaf: nat)
    requires Comparable(a, b, hashPair)
    requires l < Depth(a) && i < |a.levels[l + 1]| && a.levels[l + 1][i] == b.levels[l + 1][i]
    requires child < |a.levels[l]| && a.levels[l][child] != b.levels[l][child] && (child == 2 * i || child == 2 * i + 1)
    ensures Differs(Leaves(a), Leaves(b), leaf) && !Reached(a, b, hashPair, Depth(a), 0, leaf)
  {
    hide Reached;
    leaf := DifferentBranch(a, b, hashPair, l, child);
    AllBelowRoot(|Leaves(a)|, Depth(a));
    BelowHalves(leaf, l + 1, i);
    if Reached(a, b, hashPair, Depth(a), 0, leaf) {
      ReachedBelow(a, b, hashPair, Depth(a), 0, leaf, l + 1, i);
    }
  }

  lemma {:induction false} DifferingIsReached<H(!new)>(a: Tree<H>, b: Tree<H>, hashPair: (H, H) -> H,
      level: nat, index: nat, leaf: nat)
    requires Comparable(a, b, hashPair) && NoCollision(a, b, hashPair)
    requires level <= Depth(a) && index < |a.levels[level]| && Below(leaf, level, index)
    requires Differs(Leaves(a), Leaves(b), leaf)
    ensures Reached(a, b, hashPair, level, index, leaf)
  {
    if a.levels[level][index] == b.levels[level][index] {
      EqualBranch(a, b, hashPair, level, index, leaf);
    } else if level > 0 {
      NodeInRange(level, index, Depth(a));
      BelowHalves(leaf, level, index);
      DifferingIsReached(a, b, hashPair, level - 1, Child(leaf, level, index), leaf);
    }
  }

  /** What comparing one branch adds to the output: the leaves below it that are reached, in order. */
  ghost predicate Found<H(!new)>(a: Tree<H>, b: Tree<H>, hashPair: (H, H) -> H, level: nat, index: nat, found: seq<nat>)
    requires Comparable(a, b, hashPair)
    requires level <= Depth(a) && index < |a.levels[level]|
  {
    && (forall i, j :: 0 <= i < j < |found| ==> found[i] < found[j])
    && (forall leaf: nat :: leaf in found <==> Below(leaf, level, index) && Reached(a, b, hashPair, level, index, leaf))
    && (found == [] <==> a.levels[level][index] == b.levels[level][index])
  }

  /** The root, and at most two nodes per level on the way down to each leaf found. */
  function VisitBound(found: nat, level: nat): nat
  {
    1 + 2 * (found * level)
  }

  /** Compares two branches, descending only where their hashes differ; `calls` counts the nodes visited. */
  method DiffNode<H(==,!new)>(a: Tree<H>, b: Tree<H>, ghost hashPair: (H, H) -> H, level: nat, index: nat,
      out: seq<nat>)
    returns (out': seq<nat>, ghost calls: nat)
    requires Comparable(a, b, hashPair)
    requires level <= Depth(a) && index < |a.levels[level]|
    ensures out <= out' && Found(a, b, hashPair, level, index, out'[|out|..])
    ensures calls <= VisitBound(|out'| - |out|, level)
    decreases level
  {
    hide Found;
    hide Below;
    calls := 1;
    SameWidths(a, b, hashPair, level);
    if a.levels[level][index] == b.levels[level][index] {
      FoundNothing(a, b, hashPair, level, index);
      assert out[|out|..] == [];
      return out, calls;
    }
    if level == 0 {
      FoundLeaf(a, b, hashPair, index);
      out' := out + [index];
      assert out'[|out|..] == [index];
      return;
    }
    ChildrenOf(a, hashPair, level, index);
    hide Rising;
    hide WellBuilt;
    hide VisitBound;
    ghost var c;
    out', c := DiffNode(a, b, hashPair, level - 1, 2 * index, out);
    ghost var left, middle := out'[|out|..], |out'|;
    calls := calls + c;
    out', c := DiffNode(a, b, hashPair, level - 1, 2 * index + 1, out');
    ghost var right := out'[middle..];
    calls := calls + c;
    assert out'[|out|..] == left + right;
    FoundBelow(a, b, hashPair, level, index, left, right);
    CountCalls(|left|, |right|, level);
  }

  lemma FoundLeaf<H(!new)>(a: Tree<H>, b: Tree<H>, hashPair: (H, H) -> H, index: nat)
    requires Comparable(a, b, hashPair)
    requires index < |a.levels[0]| && a.levels[0][index] != b.levels[0][index]
    ensures Found(a, b, hashPair, 0, index, [index])
  {
    hide Below;
    hide WellBuilt;
    forall leaf: nat
      ensures Below(leaf, 0, index) <==> leaf == index
      ensures Reached(a, b, hashPair, 0, index, leaf)
    {
      OnlyItself(leaf, index);
    }
  }

  lemma OnlyItself(leaf: nat, index: nat)
    ensures Below(leaf, 0, index) <==> leaf == index
  {
    assert Pow2(0) == 1;
  }

  lemma FoundNothing<H(!new)>(a: Tree<H>, b: Tree<H>, hashPair: (H, H) -> H, level: nat, index: nat)
    requires Comparable(a, b, hashPair) && level <= Depth(a) && index < |a.levels[level]|
    requires a.levels[level][index] == b.levels[level][index]
    ensures Found(a, b, hashPair, level, index, [])
  {
  }

  lemma CountCalls(left: nat, right: nat, level: nat)
    requires level > 0 && left + right > 0
    ensures 1 + VisitBound(left, level - 1) + VisitBound(right, level - 1) <= VisitBound(left + right, level)
  {
    assert left * (level - 1) + right * (level - 1) == (left + right) * (level - 1);
    assert (left + right) * level == (left + right) * (level - 1) + (left + right);
  }

  lemma FoundBelow<H(!new)>(a: Tree<H>, b: Tree<H>, hashPair: (H, H) -> H, level: nat, index: nat,
      left: seq<nat>, right: seq<nat>)
    requires Comparable(a, b, hashPair)
    requires 0 < level <= Depth(a) && index < |a.levels[level]| && 2 * index + 1 < |a.levels[level - 1]|
    requires a.levels[level][index] != b.levels[level][index]
    requires Found(a, b, hashPair, level - 1, 2 * index, left)
    requires Found(a, b, hashPair, level - 1, 2 * index + 1, right)
    ensures Found(a, b, hashPair, level, index, left + right) && |left + right| > 0
  {
    var l := level - 1;
    ChildrenOf(a, hashPair, level, index);
    ChildrenOf(b, hashPair, level, index);
    SameWidths(a, b, hashPair, level);
    SameWidths(a, b, hashPair, l);
    hide Rising;
    forall leaf: nat
      ensures Below(leaf, level, index) <==> Below(leaf, l, 2 * index) || Below(leaf, l, 2 * index + 1)
      ensures Below(leaf, l, 2 * index) ==> leaf < (2 * index + 1) * Pow2(l)
      ensures Below(leaf, l, 2 * index + 1) ==> (2 * index + 1) * Pow2(l) <= leaf
      ensures Reached(a, b, hashPair, level, index, leaf) <==>
        Reached(a, b, hashPair, l, Child(leaf, level, index), leaf)
    {
      BelowHalves(leaf, level, index);
    }
    forall i, j | 0 <= i < j < |left + right|
      ensures (left + right)[i] < (left + right)[j]
    {
      if i < |left| <= j {
        assert left[i] in left && right[j - |left|] in right;
      }
    }
  }

  /**
   * The leaves in which two trees differ: those on every differing path from the root, in ascending order,
   * which is all of them exactly when no two pairs of children collide.
   */
  method Diff<H(==,!new)>(a: Tree<H>, b: Tree<H>, ghost hashPair: (H, H) -> H)
    returns (r: Result<seq<nat>, TreeError>, ghost calls: nat)
    requires WellBuilt(a, hashPair) && WellBuilt(b, hashPair)
    ensures r.Ok? <==> |Leaves(a)| == |Leaves(b)|
    ensures r.Ok? ==> forall i, j :: 0 <= i < j < |r.value| ==> r.value[i] < r.value[j]
    ensures r.Ok? ==> forall leaf: nat :: leaf in r.value ==> Differs(Leaves(a), Leaves(b), leaf)
    ensures r.Ok? ==> Comparable(a, b, hashPair)
    ensures r.Ok? ==>
      (NoCollision(a, b, hashPair) <==> forall leaf: nat :: Differs(Leaves(a), Leaves(b), leaf) ==> leaf in r.value)
    ensures r.Ok? ==> (r.value == [] <==> Root(a) == Root(b))
    ensures r.Ok? ==> calls <= VisitBound(|r.value|, Depth(a)) && |Leaves(a)| == Pow2(Depth(a))
  {
    calls := 0;
    if |Leaves(a)| != |Leaves(b)| {
      return Err(DifferentLeafCounts), calls;
    }
    Pow2Injective(Depth(a), Depth(b));
    AllBelowRoot(|Leaves(a)|, Depth(a));
    ReachedExactlyWithoutCollision(a, b, hashPair);
    if Root(a) == Root(b) {
      return Ok([]), calls;
    }
    var out;
    out, calls := DiffNode(a, b, hashPair, Depth(a), 0, []);
    assert out[0..] == out;
    BelowRootInRange(|Leaves(a)|, Depth(a));
    return Ok(out), calls;
  }

  lemma AllBelowRoot(n: nat, depth: nat)
    requires n == Pow2(depth)
    ensures forall leaf: nat :: leaf < n ==> Below(leaf, depth, 0)
  {
  }

  lemma BelowRootInRange(n: nat, depth: nat)
    requires n == Pow2(depth)
    ensures forall leaf: nat :: Below(leaf, depth, 0) ==> leaf < n
  {
  }
}
