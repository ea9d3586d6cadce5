/**
 * Leaving the cluster safely: the handoff a node makes before it leaves the ring keeps every
 * quorum-held entry visible on the ring without it (api/queel/cluster/decommission.go).
 */
module Leaving {
  import opened Wrappers
  import opened Bytes
  import opened HashRing
  import opened RingStability
  import opened Replication
  import opened QuorumHistory
  import opened Coordination

  /**
   * What a completed handoff of `x` achieves: every entry `x` held has reached all its replicas on the
   * ring without `x`; nothing moved to an older entry, and only entries of `x` were copied.
   */
  ghost predicate HandedOff(c: Cluster, c': Cluster, x: Node, rest: Placement)
  {
    && x in c && Climbs(c, c')
    && (forall k, n :: k in c[x] && n in rest.Of(k) ==> n in c && Reaches(c'[n], k, c[x][k].timestamp))
    && (forall n, k {:trigger c'[n][k]} :: n in c' && k in c'[n] ==>
          (k in c[n] && c'[n][k] == c[n][k]) || (k in c[x] && c'[n][k] == c[x][k]))
  }

  lemma ClimbsKeys(c: Cluster, c': Cluster)
    requires Climbs(c, c')
    ensures c'.Keys == c.Keys
  {
  }

  lemma LeaverStillHeld(c: Cluster, c': Cluster, x: Node, rest: Placement, key: Key, t: int)
    requires HandedOff(c, c', x, rest) && Reaches(c[x], key, t)
    requires |ToSet(rest.Of(key))| == |rest.Of(key)| > 0 && x !in rest.Of(key)
    ensures Held(rest, c' - {x}, key, t)
  {
    hide Replicas;
    hide Climbs;
    forall n | n in ToSet(rest.Of(key))
      ensures n in Holders(c' - {x}, rest.Of(key), key, t)
    {
      assert c'.Keys == c.Keys by { ClimbsKeys(c, c'); }
      assert Reaches(c'[n], key, c[x][key].timestamp);
    }
    SubsetSize(ToSet(rest.Of(key)), Holders(c' - {x}, rest.Of(key), key, t));
  }

  lemma OthersStillHold(c: Cluster, c': Cluster, x: Node, p: Placement, rest: Placement, key: Key, t: int)
    requires HandedOff(c, c', x, rest) && Held(p, c, key, t)
    requires x !in Holders(c, p.Of(key), key, t)
    requires Without(p.Of(key), x) <= rest.Of(key) && |rest.Of(key)| <= |p.Of(key)|
    ensures Held(rest, c' - {x}, key, t)
  {
    hide Replicas;
    hide Without;
    WithoutElements(p.Of(key), x);
    assert forall n :: n in Without(p.Of(key), x) ==> n in rest.Of(key);
    forall n | n in Holders(c, p.Of(key), key, t)
      ensures n in Holders(c' - {x}, rest.Of(key), key, t)
    {
      assert n in Without(p.Of(key), x);
      assert key in c[n] && c[n][key].timestamp >= t;
    }
    SubsetSize(Holders(c, p.Of(key), key, t), Holders(c' - {x}, rest.Of(key), key, t));
  }

  /** An entry a quorum held on the old ring is held by a quorum on the ring without the leaver. */
  lemma LeavingKeepsHeld(c: Cluster, c': Cluster, nodes: set<Node>, x: Node, factor: nat,
                         p: Placement, rest: Placement, key: Key, t: int)
    requires IsRing(p.ring, nodes, factor, p.hash) && IsRing(rest.ring, nodes - {x}, factor, rest.hash)
    requires rest.hash == p.hash && nodes - {x} != {}
    requires HandedOff(c, c', x, rest) && Held(p, c, key, t)
    ensures Held(rest, c' - {x}, key, t)
  {
    var position := p.hash(key);
    ReplicasWithout(p.ring, rest.ring, nodes, x, factor, p.hash, position);
    ReplicasAreFirst(p.ring, nodes, factor, p.hash, position);
    ReplicasAreFirst(rest.ring, nodes - {x}, factor, p.hash, position);
    SubsetSize(nodes - {x}, nodes);
    if x in Holders(c, p.Of(key), key, t) {
      assert x !in ToSet(rest.Of(key));
      SubsetSize({x}, ToSet(p.Of(key)));
      LeaverStillHeld(c, c', x, rest, key, t);
    } else {
      OthersStillHold(c, c', x, p, rest, key, t);
    }
  }

  lemma LeavingKeepsSourced(c: Cluster, c': Cluster, x: Node, rest: Placement, attempted: set<Item>, clock: int)
    requires HandedOff(c, c', x, rest) && Sourced(c, attempted, clock)
    ensures Sourced(c' - {x}, attempted, clock)
  {
  }

  /**
   * Leaving safely. Once `x` has completed its handoff and is gone from the ring, and whatever happens on the
   * ring without it afterwards, every successful read still sees each write that had reached its quorum
   * before, or a later one.
   */
  lemma LeavingSafely(c: Cluster, c': Cluster, nodes: set<Node>, x: Node, factor: nat,
                      p: Placement, rest: Placement, key: Key, t: int,
                      events: seq<Event>, attempted: set<Item>, clock: int,
                      answers: Node -> bool, arrival: seq<Node>)
    requires IsRing(p.ring, nodes, factor, p.hash) && IsRing(rest.ring, nodes - {x}, factor, rest.hash)
    requires rest.hash == p.hash && nodes - {x} != {}
    requires HandedOff(c, c', x, rest) && Sourced(c, attempted, clock) && Held(p, c, key, t)
    requires ProperRun(rest, events, clock)
    requires var after := Run(rest, c' - {x}, events);
             ToSet(arrival) == ToSet(rest.Of(key)) && ReadOk(rest, after, key, answers, arrival)
    ensures var best := Best(Run(rest, c' - {x}, events), key, arrival, answers);
            && best.Some? && best.value.timestamp >= t
            && Item(key, best.value) in attempted + AllAttempts(events)
  {
    LeavingKeepsHeld(c, c', nodes, x, factor, p, rest, key, t);
    LeavingKeepsSourced(c, c', x, rest, attempted, clock);
    HeldThroughRun(rest, c' - {x}, events, key, t, attempted, clock);
    RunSourced(rest, c' - {x}, events, attempted, clock);
    ReadSees(rest, Run(rest, c' - {x}, events), key, answers, arrival, attempted + AllAttempts(events),
      Clock(events, clock));
  }

  // ---- The handoff as it runs ----

  datatype LeaveError = NobodyRemains | TargetUnreachable | PutFailed

  type Pair = (Key, Node)

  /** The replicas' stores once `pushed` entries of the leaver have been copied. */
  function Copied(c: Cluster, self: Node, pushed: set<Pair>, n: Node): Store
    requires n in c && self in c
  {
    map k | k in c[n].Keys + c[self].Keys && (k in c[n] || (k in c[self] && (k, n) in pushed)) ::
      if k in c[self] && (k, n) in pushed then c[self][k] else c[n][k]
  }

  /** The entry of the leaver under `k` is newer than what `n` has, or `n` has none. */
  predicate Wanting(c: Cluster, self: Node, k: Key, n: Node)
  {
    self in c && n in c && k in c[self] && NeedsRepair(c[n], k, c[self][k])
  }

  /** The leaver can settle this pair: the node answers, and acknowledges the entry if it has none as new. */
  predicate Settles(c: Cluster, self: Node, k: Key, n: Node, reachable: bool, fate: Fate)
  {
    n in c && reachable && (Wanting(c, self, k, n) ==> fate == Acked)
  }

  ghost predicate OnlyWanted(c: Cluster, self: Node, pushed: set<Pair>)
  {
    self in c && forall k, n :: (k, n) in pushed ==> n != self && Wanting(c, self, k, n)
  }

  ghost predicate StoresAre(network: map<Node, Replica>, c: Cluster, self: Node, pushed: set<Pair>)
    requires self in c
    reads network.Values
  {
    network.Keys == c.Keys && forall n :: n in network ==> network[n].store == Copied(c, self, pushed, n)
  }

  lemma CopyOne(c: Cluster, self: Node, pushed: set<Pair>, k: Key, n: Node)
    requires self in c && n in c && k in c[self]
    ensures forall m :: m in c ==>
      Copied(c, self, pushed + {(k, n)}, m)
        == if m == n then Copied(c, self, pushed, m)[k := c[self][k]] else Copied(c, self, pushed, m)
  {
    forall m | m in c
      ensures Copied(c, self, pushed + {(k, n)}, m)
        == if m == n then Copied(c, self, pushed, m)[k := c[self][k]] else Copied(c, self, pushed, m)
    {
      assert forall j :: (j, m) in pushed + {(k, n)} <==> (j, m) in pushed || (j == k && m == n);
    }
  }

  /** Pairs for key `k` whose target is among the first `i` targets have been dealt with. */
  ghost predicate Dealt(c: Cluster, self: Node, pushed: set<Pair>, k: Key, targets: seq<Node>)
  {
    forall n :: n in targets ==> n in c && (Wanting(c, self, k, n) <==> (k, n) in pushed)
  }

  /** Offers one entry of the leaver to one node, which takes it unless it has the same or a newer one. */
  method Offer(network: map<Node, Replica>, self: Node, key: Key, entry: Entry, target: Node,
               reachable: bool, fate: Fate, ghost c: Cluster, ghost pushed: set<Pair>)
    returns (r: Result<bool, LeaveError>, ghost pushed': set<Pair>)
    requires Separate(network) && self in c && key in c[self] && entry == c[self][key]
    requires StoresAre(network, c, self, pushed) && OnlyWanted(c, self, pushed)
    requires target != self && (key, target) !in pushed
    modifies network.Values
    ensures StoresAre(network, c, self, pushed') && OnlyWanted(c, self, pushed')
    ensures pushed' == if reachable && Wanting(c, self, key, target) && fate != Lost then pushed + {(key, target)}
                       else pushed
    ensures r.Ok? <==> Settles(c, self, key, target, reachable, fate)
    ensures r.Ok? ==> (r.value <==> Wanting(c, self, key, target))
    ensures r.Ok? ==> pushed' == if r.value then pushed + {(key, target)} else pushed
    ensures r.Err? ==> r.error == if target in c && reachable then PutFailed else TargetUnreachable
  {
    pushed' := pushed;
    if target !in network || !reachable {
      return Err(TargetUnreachable), pushed';
    }
    var existing := network[target].HandleGet(key);
    if existing.Some? && existing.value.timestamp >= entry.timestamp {
      return Ok(false), pushed';
    }
    assert Wanting(c, self, key, target);
    CopyOne(c, self, pushed, key, target);
    hide Copied;
    var ok := SendPut(network, target, key, entry, fate);
    if fate != Lost {
      pushed' := pushed + {(key, target)};
    }
    return if ok then Ok(true) else Err(PutFailed), pushed';
  }

  lemma SettledIsKnown(c: Cluster, self: Node, k: Key, n: Node, reachable: bool, fate: Fate)
    ensures Settles(c, self, k, n, reachable, fate) ==> n in c
  {
  }

  /** Offers one entry of the leaver to each of its future replicas. */
  method HandOffKey(network: map<Node, Replica>, self: Node, key: Key, entry: Entry, targets: seq<Node>,
                    reachable: Node -> bool, fate: Node -> Fate, ghost c: Cluster, ghost pushed: set<Pair>)
    returns (r: Result<nat, LeaveError>, ghost pushed': set<Pair>)
    requires Separate(network) && self in c && key in c[self] && entry == c[self][key]
    requires self !in targets && forall i, j :: 0 <= i < j < |targets| ==> targets[i] != targets[j]
    requires StoresAre(network, c, self, pushed) && OnlyWanted(c, self, pushed)
    requires forall n :: (key, n) !in pushed
    modifies network.Values
    ensures StoresAre(network, c, self, pushed') && OnlyWanted(c, self, pushed')
    ensures pushed <= pushed' && forall p :: p in pushed' - pushed ==> p.0 == key && p.1 in targets
    ensures r.Ok? <==> forall n :: n in targets ==> Settles(c, self, key, n, reachable(n), fate(n))
    ensures r != Err(NobodyRemains)
    ensures r.Ok? ==> Dealt(c, self, pushed', key, targets) && r.value == |pushed'| - |pushed|
  {
    pushed' := pushed;
    var handedOff := 0;
    hide Settles;
    hide StoresAre;
    hide OnlyWanted;
    hide Wanting;
    for i := 0 to |targets|
      invariant StoresAre(network, c, self, pushed') && OnlyWanted(c, self, pushed')
      invariant pushed <= pushed' && forall p :: p in pushed' - pushed ==> p.0 == key && p.1 in targets[..i]
      invariant Dealt(c, self, pushed', key, targets[..i])
      invariant forall n :: n in targets[..i] ==> Settles(c, self, key, n, reachable(n), fate(n))
      invariant handedOff == |pushed'| - |pushed|
    {
      OneMore(targets, i);
      SettledIsKnown(c, self, key, targets[i], reachable(targets[i]), fate(targets[i]));
      var wrote: Result<bool, LeaveError>;
      wrote, pushed' := Offer(network, self, key, entry, targets[i], reachable(targets[i]), fate(targets[i]), c,
        pushed');
      if wrote.Err? {
        return Err(wrote.error), pushed';
      }
      if wrote.value {
        handedOff := handedOff + 1;
      }
    }
    assert targets[..|targets|] == targets;
    return Ok(handedOff), pushed';
  }

  /** `pushed` are exactly the pairs of a key in `keys` and a future replica that lacked the leaver's entry. */
  ghost predicate Complete(c: Cluster, self: Node, rest: Placement, keys: set<Key>, pushed: set<Pair>)
  {
    && self in c
    && (forall k, n :: k in keys && n in rest.Of(k) ==> n in c)
    && forall k, n :: (k, n) in pushed <==> k in keys && n in rest.Of(k) && Wanting(c, self, k, n)
  }

  lemma NotYetPushed(c: Cluster, self: Node, rest: Placement, keys: set<Key>, pushed: set<Pair>, key: Key)
    requires Complete(c, self, rest, keys, pushed) && key !in keys
    ensures forall n :: (key, n) !in pushed
  {
    hide Replicas;
    hide Wanting;
  }

  lemma CompleteMore(c: Cluster, self: Node, rest: Placement, keys: set<Key>, pushed: set<Pair>, key: Key,
      pushed': set<Pair>)
    requires Complete(c, self, rest, keys, pushed) && key !in keys
    requires pushed <= pushed' && forall p :: p in pushed' - pushed ==> p.0 == key && p.1 in rest.Of(key)
    requires Dealt(c, self, pushed', key, rest.Of(key))
    ensures Complete(c, self, rest, keys + {key}, pushed')
  {
    hide Replicas;
    hide Wanting;
    forall k, n
      ensures (k, n) in pushed' <==> k in keys + {key} && n in rest.Of(k) && Wanting(c, self, k, n)
    {
      if (k, n) in pushed' && (k, n) !in pushed {
        assert (k, n) in pushed' - pushed;
      }
    }
  }

  lemma CopyingClimbs(network: map<Node, Replica>, c: Cluster, self: Node, pushed: set<Pair>)
    requires self in c && StoresAre(network, c, self, pushed) && OnlyWanted(c, self, pushed)
    ensures Climbs(c, StateOf(network)) && StateOf(network)[self] == c[self]
  {
    forall n, k | n in c && k in c[n]
      ensures Reaches(StateOf(network)[n], k, c[n][k].timestamp)
    {
      if (k, n) in pushed {
        assert Wanting(c, self, k, n);
      }
    }
    assert forall k :: (k, self) !in pushed;
    assert Copied(c, self, pushed, self) == c[self];
  }

  lemma CompleteIsHandedOff(network: map<Node, Replica>, c: Cluster, self: Node, rest: Placement, pushed: set<Pair>)
    requires self in c && StoresAre(network, c, self, pushed) && OnlyWanted(c, self, pushed)
    requires Complete(c, self, rest, c[self].Keys, pushed)
    ensures HandedOff(c, StateOf(network), self, rest)
  {
    CopyingClimbs(network, c, self, pushed);
    hide Replicas;
    forall k, n | k in c[self] && n in rest.Of(k)
      ensures n in c && Reaches(StateOf(network)[n], k, c[self][k].timestamp)
    {
      assert (k, n) in pushed <==> Wanting(c, self, k, n);
    }
  }

  /**
   * The handoff a node runs before it leaves: for every key it holds, its entry goes to each future replica
   * that does not have it or a newer one. Any failed call stops it with an error.
   */
  method Decommission(network: map<Node, Replica>, self: Node, aliveNodes: seq<Node>, factor: nat, hash: Key -> nat,
                      reachable: Pair -> bool, fate: Pair -> Fate)
    returns (r: Result<nat, LeaveError>, ghost rest: Placement, ghost pushed: set<Pair>)
    requires Separate(network) && self in network
    modifies network.Values
    ensures Climbs(old(StateOf(network)), StateOf(network))
    ensures StateOf(network)[self] == old(StateOf(network))[self]
    ensures IsRingOver(rest.ring, ToSet(aliveNodes) - {self}, factor, hash) && rest.hash == hash
    ensures DistinctHashes(ToSet(aliveNodes) - {self}, hash) ==>
      IsRing(rest.ring, ToSet(aliveNodes) - {self}, factor, hash)
    ensures r.Ok? <==> CanLeave(old(StateOf(network)), aliveNodes, self, rest, reachable, fate)
    ensures r == Err(NobodyRemains) <==> !(exists n :: n in aliveNodes && n != self)
    ensures r.Ok? ==>
      && HandedOff(old(StateOf(network)), StateOf(network), self, rest)
      && Complete(old(StateOf(network)), self, rest, old(network[self].store.Keys), pushed)
      && r.value == |pushed|
  {
    ghost var c := StateOf(network);
    pushed := {};
    rest := Placement(Ring(0, []), hash);
    NothingCopied(network, self);
    hide Replicas;
    hide StoresAre;
    hide OnlyWanted;
    hide IsRingOver;
    hide IsRing;
    hide DistinctHashes;
    hide HandedOff;
    hide Complete;
    hide SettlesAll;
    hide Climbs;
    hide CanLeave;
    hide ToSet;
    var remaining := Remaining(aliveNodes, self);
    SomebodyRemains(aliveNodes, self, remaining);
    if |remaining| == 0 {
      NobodyCanLeave(c, aliveNodes, self, rest, reachable, fate);
      NoRing(factor, hash);
      CopyingClimbs(network, c, self, pushed);
      return Err(NobodyRemains), rest, pushed;
    }
    var futureRing := NewRing(remaining, factor, hash);
    rest := Placement(futureRing, hash);
    var handedOff;
    handedOff, pushed := HandOffAll(network, self, network[self].store, Placement(futureRing, hash), ToSet(remaining),
      factor,
                                    reachable, fate, c);
    CopyingClimbs(network, c, self, pushed);
    CanLeaveIs(c, aliveNodes, self, rest, reachable, fate);
    if handedOff.Ok? {
      CompleteIsHandedOff(network, c, self, rest, pushed);
    }
    return handedOff, rest, pushed;
  }

  lemma SomebodyRemains(aliveNodes: seq<Node>, self: Node, remaining: seq<Node>)
    requires ToSet(remaining) == ToSet(aliveNodes) - {self}
    ensures remaining != [] <==> exists n :: n in aliveNodes && n != self
    ensures remaining == [] ==> ToSet(aliveNodes) - {self} == {}
    ensures remaining != [] ==> ToSet(aliveNodes) - {self} != {}
  {
    if remaining != [] {
      assert remaining[0] in ToSet(remaining);
    }
    if n :| n in aliveNodes && n != self {
      assert n in ToSet(remaining);
    }
  }

  /** Nobody's ring has no points. */
  lemma NoRing(factor: nat, hash: Key -> nat)
    ensures IsRing(Ring(0, []), {}, factor, hash)
  {
  }

  /** Every entry of the leaver in `keys` can be settled with each of its future replicas. */
  ghost predicate SettlesAll(c: Cluster, self: Node, rest: Placement, keys: set<Key>, reachable: Pair -> bool,
      fate: Pair -> Fate)
  {
    forall k, n :: k in keys && n in rest.Of(k) ==> Settles(c, self, k, n, reachable((k, n)), fate((k, n)))
  }

  /**
   * When a handoff succeeds: some other node is alive, and for every entry of the leaver each of its future replicas
   * answers and, if it has nothing as new under the key, acknowledges the entry.
   */
  ghost predicate CanLeave(c: Cluster, aliveNodes: seq<Node>, self: Node, rest: Placement, reachable: Pair -> bool,
      fate: Pair -> Fate)
    requires self in c
  {
    && (exists n :: n in aliveNodes && n != self)
    && forall k, n :: k in c[self] && n in rest.Of(k) ==>
         && n in c && reachable((k, n))
         && (k !in c[n] || c[n][k].timestamp < c[self][k].timestamp ==> fate((k, n)) == Acked)
  }

  lemma CanLeaveIs(c: Cluster, aliveNodes: seq<Node>, self: Node, rest: Placement, reachable: Pair -> bool,
      fate: Pair -> Fate)
    requires self in c && exists n :: n in aliveNodes && n != self
    ensures SettlesAll(c, self, rest, c[self].Keys, reachable, fate) <==>
      CanLeave(c, aliveNodes, self, rest, reachable, fate)
  {
    hide Replicas;
  }

  lemma NobodyCanLeave(c: Cluster, aliveNodes: seq<Node>, self: Node, rest: Placement, reachable: Pair -> bool,
      fate: Pair -> Fate)
    requires self in c && !(exists n :: n in aliveNodes && n != self)
    ensures !CanLeave(c, aliveNodes, self, rest, reachable, fate)
  {
  }

  /** One entry to all replicas it has on the ring without the leaver. */
  method HandOffOne(network: map<Node, Replica>, self: Node, key: Key, entry: Entry, rest: Placement,
      ghost nodes: set<Node>,
                    ghost factor: nat, reachable: Pair -> bool, fate: Pair -> Fate, ghost c: Cluster,
                    ghost keys: set<Key>,
                    ghost pushed: set<Pair>)
    returns (r: Result<nat, LeaveError>, ghost pushed': set<Pair>)
    requires Separate(network) && self in c && key in c[self] && entry == c[self][key] && key !in keys
    requires IsRingOver(rest.ring, nodes, factor, rest.hash) && self !in nodes
    requires StoresAre(network, c, self, pushed) && OnlyWanted(c, self, pushed) && Complete(c, self, rest, keys, pushed)
    modifies network.Values
    ensures StoresAre(network, c, self, pushed') && OnlyWanted(c, self, pushed')
    ensures r.Ok? <==> SettlesAll(c, self, rest, {key}, reachable, fate)
    ensures r != Err(NobodyRemains)
    ensures r.Ok? ==> Complete(c, self, rest, keys + {key}, pushed') && r.value == |pushed'| - |pushed|
  {
    hide Settles;
    hide StoresAre;
    hide OnlyWanted;
    hide Replicas;
    hide IsRingOver;
    hide Complete;
    hide Dealt;
    RingInOrder(rest, nodes, factor);
    var targets := ReplicasFor(rest.ring, rest.hash(key));
    FutureReplicas(rest, nodes, factor, self, key);
    assert targets == rest.Of(key);
    NotYetPushed(c, self, rest, keys, pushed, key);
    r, pushed' := HandOffKey(network, self, key, entry, targets, n => reachable((key, n)), n => fate((key, n)), c,
      pushed);
    if r.Ok? {
      CompleteMore(c, self, rest, keys, pushed, key, pushed');
    }
  }

  method HandOffAll(network: map<Node, Replica>, self: Node, kvs: Store, rest: Placement, ghost nodes: set<Node>,
                    ghost factor: nat, reachable: Pair -> bool, fate: Pair -> Fate, ghost c: Cluster)
    returns (r: Result<nat, LeaveError>, ghost pushed: set<Pair>)
    requires Separate(network) && self in c && kvs == c[self]
    requires IsRingOver(rest.ring, nodes, factor, rest.hash) && self !in nodes
    requires StoresAre(network, c, self, {}) && OnlyWanted(c, self, {})
    modifies network.Values
    ensures StoresAre(network, c, self, pushed) && OnlyWanted(c, self, pushed)
    ensures r.Ok? <==> SettlesAll(c, self, rest, kvs.Keys, reachable, fate)
    ensures r != Err(NobodyRemains)
    ensures r.Ok? ==> Complete(c, self, rest, kvs.Keys, pushed) && r.value == |pushed|
  {
    var todo, handedOff := kvs.Keys, 0;
    pushed := {};
    assert Complete(c, self, rest, kvs.Keys - todo, pushed);
    assert SettlesAll(c, self, rest, kvs.Keys - todo, reachable, fate);
    hide SettlesAll;
    hide StoresAre;
    hide OnlyWanted;
    hide Replicas;
    hide IsRingOver;
    hide Complete;
    hide Dealt;
    while todo != {}
      invariant todo <= kvs.Keys
      invariant StoresAre(network, c, self, pushed) && OnlyWanted(c, self, pushed)
      invariant Complete(c, self, rest, kvs.Keys - todo, pushed)
      invariant SettlesAll(c, self, rest, kvs.Keys - todo, reachable, fate)
      invariant handedOff == |pushed|
      decreases todo
    {
      var key :| key in todo;
      ghost var keys := kvs.Keys - todo;
      todo := todo - {key};
      assert keys + {key} == kvs.Keys - todo;
      SettlesOneMore(c, self, rest, keys, key, reachable, fate);
      SettlesFewer(c, self, rest, {key}, kvs.Keys, reachable, fate);
      var result: Result<nat, LeaveError>;
      result, pushed := HandOffOne(network, self, key, kvs[key], rest, nodes, factor, reachable, fate, c, keys, pushed);
      if result.Err? {
        return Err(result.error), pushed;
      }
      handedOff := handedOff + result.value;
    }
    assert kvs.Keys - todo == kvs.Keys;
    return Ok(handedOff), pushed;
  }

  lemma SettlesOneMore(c: Cluster, self: Node, rest: Placement, keys: set<Key>, key: Key, reachable: Pair -> bool,
      fate: Pair -> Fate)
    ensures SettlesAll(c, self, rest, keys, reachable, fate) && SettlesAll(c, self, rest, {key}, reachable, fate) ==>
      SettlesAll(c, self, rest, keys + {key}, reachable, fate)
  {
  }

  lemma SettlesFewer(c: Cluster, self: Node, rest: Placement, few: set<Key>, keys: set<Key>, reachable: Pair -> bool,
      fate: Pair -> Fate)
    requires few <= keys
    ensures SettlesAll(c, self, rest, keys, reachable, fate) ==> SettlesAll(c, self, rest, few, reachable, fate)
  {
  }

  lemma NothingCopied(network: map<Node, Replica>, self: Node)
    requires self in network
    ensures StoresAre(network, StateOf(network), self, {}) && OnlyWanted(StateOf(network), self, {})
  {
    var c := StateOf(network);
    forall n | n in c
      ensures c[n] == Copied(c, self, {}, n)
    {
    }
  }

  lemma RingInOrder(rest: Placement, nodes: set<Node>, factor: nat)
    requires IsRingOver(rest.ring, nodes, factor, rest.hash)
    ensures InOrder(rest.ring.points)
  {
  }

  lemma FutureReplicas(rest: Placement, nodes: set<Node>, factor: nat, self: Node, key: Key)
    requires IsRingOver(rest.ring, nodes, factor, rest.hash) && self !in nodes
    ensures self !in rest.Of(key)
    ensures forall i, j :: 0 <= i < j < |rest.Of(key)| ==> rest.Of(key)[i] != rest.Of(key)[j]
  {
    ReplicasAreFirst(rest.ring, nodes, factor, rest.hash, rest.hash(key));
    ReplicasDiffer(rest, key);
    assert self !in ToSet(rest.Of(key));
  }

  lemma ToSetMore(s: seq<Node>, n: Node)
    ensures ToSet(s + [n]) == ToSet(s) + {n}
  {
  }

  /** The alive nodes other than the one that leaves. */
  method Remaining(aliveNodes: seq<Node>, self: Node) returns (remaining: seq<Node>)
    ensures ToSet(remaining) == ToSet(aliveNodes) - {self}
  {
    remaining := [];
    for i := 0 to |aliveNodes|
      invariant ToSet(remaining) == ToSet(aliveNodes[..i]) - {self}
    {
      OneMore(aliveNodes, i);
      ToSetMore(remaining, aliveNodes[i]);
      if aliveNodes[i] != self {
        remaining := remaining + [aliveNodes[i]];
      }
    }
    assert aliveNodes[..|aliveNodes|] == aliveNodes;
  }
}
