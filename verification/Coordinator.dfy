/**
 * The coordinator as it runs: fanning calls out to replicas, counting answers, repairing stale
 * replicas (api/queel/cluster/coordinator.go), and what a replica does with a call
 * (api/queel/server/internal.go).
 */
module Coordination {
  import opened Wrappers
  import opened Bytes
  import opened HashRing
  import opened Replication
  import opened QuorumHistory

  datatype ClusterError = NoReplicas | QuorumNotReached | NoPeerReachable

  /** A replica's local engine, seen as the map it stores. */
  class Replica {
    var store: Store

    constructor ()
      ensures store == map[]
    {
      store := map[];
    }

    /**
     * Stores the entry over whatever was there, without comparing timestamps: the replica falls behind what it
     * held exactly if it held something newer under the key.
     */
    method HandlePut(key: Key, entry: Entry)
      modifies this
      ensures store == old(store)[key := entry]
      ensures (forall k :: k in old(store) ==> Reaches(store, k, old(store)[k].timestamp)) <==>
        (key in old(store) ==> old(store)[key].timestamp <= entry.timestamp)
    {
      store := store[key := entry];
    }

    /** Stores the items one by one; a failing store call stops it with a prefix stored. */
    method HandlePutBatch(items: seq<Item>, fate: BatchFate) returns (ok: bool)
      modifies this
      ensures store == ApplyItems(old(store), Arrived(items, fate))
      ensures ok == fate.BatchAcked?
    {
      var n := if fate.BatchAcked? then |items| else Min(fate.applied, |items|);
      for i := 0 to n
        invariant store == ApplyItems(old(store), items[..i])
      {
        assert items[..i + 1][..i] == items[..i];
        store := store[items[i].key := items[i].entry];
      }
      assert items[..|items|] == items;
      return fate.BatchAcked?;
    }

    method HandleGet(key: Key) returns (entry: Option<Entry>)
      ensures entry == if key in store then Some(store[key]) else None
    {
      entry := if key in store then Some(store[key]) else None;
    }

    method HandleScan(prefix: Key) returns (entries: map<Key, Entry>)
      ensures entries == map k | k in store && prefix <= k :: store[k]
    {
      entries := map k | k in store && prefix <= k :: store[k];
    }
  }

  /** Every node has an engine of its own. */
  ghost predicate Separate(peers: map<Node, Replica>)
  {
    forall m, n :: m in peers && n in peers && m != n ==> peers[m] != peers[n]
  }

  ghost function StateOf(peers: map<Node, Replica>): Cluster
    reads peers.Values
  {
    map n | n in peers :: peers[n].store
  }

  /** The answers in the order they arrive come from each replica once. */
  ghost predicate AnswerOrder(arrival: seq<Node>, replicas: seq<Node>)
  {
    && multiset(arrival) == multiset(replicas)
    && forall i, j :: 0 <= i < j < |arrival| ==> arrival[i] != arrival[j]
  }

  /** One put to one node, which may be unknown, unreachable, or slow to confirm. */
  method SendPut(peers: map<Node, Replica>, node: Node, key: Key, entry: Entry, fate: Fate) returns (ok: bool)
    requires Separate(peers)
    modifies peers.Values
    ensures ok == (node in peers && fate == Acked)
    ensures forall n :: n in peers ==>
      peers[n].store == if n == node && fate != Lost then old(peers[n].store)[key := entry] else old(peers[n].store)
  {
    if node !in peers {
      return false;
    }
    if fate != Lost {
      peers[node].HandlePut(key, entry);
    }
    return fate == Acked;
  }

  /** What the coordinator remembers of one answer. */
  datatype Response = Failed(node: Node) | Answered(node: Node, entry: Option<Entry>)

  function AnswerOf(c: Cluster, key: Key, n: Node, answers: Node -> bool): Response
  {
    if n !in c || !answers(n) then Failed(n)
    else Answered(n, if key in c[n] then Some(c[n][key]) else None)
  }

  /** A read's answer: the newest value, nothing if there is none or it was deleted, or too few answers. */
  function ReadResult(p: Placement, c: Cluster, key: Key, answers: Node -> bool, arrival: seq<Node>)
    : Result<Option<seq<Byte>>, ClusterError>
  {
    if |p.Of(key)| == 0 then Err(NoReplicas)
    else if !ReadOk(p, c, key, answers, arrival) then Err(QuorumNotReached)
    else
      match Best(c, key, arrival, answers)
      case None => Ok(None)
      case Some(e) => Ok(if e.tombstone then None else Some(e.value))
  }

  lemma NoAnswers(c: Cluster, key: Key, answers: Node -> bool)
    ensures Responders(c, [], answers) == {} && Best(c, key, [], answers) == None
  {
  }

  lemma OneMoreAnswer(c: Cluster, key: Key, arrival: seq<Node>, i: nat, answers: Node -> bool)
    requires i < |arrival| && forall a, b :: 0 <= a < b < |arrival| ==> arrival[a] != arrival[b]
    ensures |Responders(c, arrival[..i + 1], answers)|
      == |Responders(c, arrival[..i], answers)| + if arrival[i] in c && answers(arrival[i]) then 1 else 0
    ensures Best(c, key, arrival[..i + 1], answers)
      == var best, n := Best(c, key, arrival[..i], answers), arrival[i];
         if n !in c || !answers(n) || key !in c[n] then best
         else if best.None? || c[n][key].timestamp > best.value.timestamp then Some(c[n][key])
         else best
  {
    assert arrival[..i + 1] == arrival[..i] + [arrival[i]];
    assert arrival[..i + 1][..i] == arrival[..i];
    var before, after := Responders(c, arrival[..i], answers), Responders(c, arrival[..i + 1], answers);
    assert after == if arrival[i] in c && answers(arrival[i]) then before + {arrival[i]} else before;
  }

  /**
   * A read shows the value of a newest entry among the answers, or nothing if that is a deletion, and leaves it with
   * every replica that answered with something older or nothing; without any entry it shows nothing.
   */
  ghost predicate ReadLeaves(c: Cluster, c': Cluster, nodes: set<Node>, key: Key, repair: Node -> Fate,
      shown: Option<seq<Byte>>)
  {
    || (c' == c && shown == None && forall n :: n in nodes && n in c ==> key !in c[n])
    || exists e :: Newest(c, nodes, key, e) && shown == (if e.tombstone then None else Some(e.value))
                   && Repaired(c, c', nodes, key, e, repair)
  }

  ghost predicate Repaired(c: Cluster, c': Cluster, nodes: set<Node>, key: Key, e: Entry, repair: Node -> Fate)
  {
    && c'.Keys == c.Keys
    && forall n :: n in c ==>
         c'[n] == if n in nodes && repair(n) != Lost && (key !in c[n] || c[n][key].timestamp < e.timestamp)
                  then c[n][key := e] else c[n]
  }

  /** The nodes of these that are known and answer. */
  function Answerers(c: Cluster, replicas: seq<Node>, answers: Node -> bool): set<Node>
  {
    set n | n in replicas && n in c && answers(n)
  }

  /**
   * What a read amounts to: it succeeds exactly if more than half of the replicas answer, and then shows and leaves
   * what their answers call for; otherwise it is an error and changes nothing.
   */
  ghost predicate ReadMeans(replicas: seq<Node>, c: Cluster, c': Cluster, key: Key, answers: Node -> bool,
      repair: Node -> Fate, r: Result<Option<seq<Byte>>, ClusterError>)
  {
    var nodes := Answerers(c, replicas, answers);
    if 2 * |nodes| > |replicas| then r.Ok? && ReadLeaves(c, c', nodes, key, repair, r.value)
    else c' == c && r == Err(if replicas == [] then NoReplicas else QuorumNotReached)
  }

  lemma ReadResultShows(p: Placement, c: Cluster, key: Key, answers: Node -> bool, arrival: seq<Node>,
      repair: Node -> Fate)
    requires forall n :: n in arrival <==> n in p.Of(key)
    ensures ReadMeans(p.Of(key), c, Step(p, c, Event.Read(key, answers, arrival, repair)), key, answers, repair,
      ReadResult(p, c, key, answers, arrival))
  {
    hide Replicas;
    var nodes := Answerers(c, p.Of(key), answers);
    assert Responders(c, arrival, answers) == nodes;
    QuorumIsMajority(|nodes|, |p.Of(key)|);
    BestIsNewest(c, key, arrival, answers);
    hide Best;
    if p.Of(key) == [] {
      assert nodes == {};
    }
    var best := Best(c, key, arrival, answers);
    if best.Some? && ReadOk(p, c, key, answers, arrival) {
      assert Newest(c, nodes, key, best.value);
      assert Repaired(c, AfterRepair(c, nodes, key, best.value, repair), nodes, key, best.value, repair);
    }
  }

  lemma ReadIs(p: Placement, c: Cluster, key: Key, answers: Node -> bool, arrival: seq<Node>, repair: Node -> Fate)
    ensures var r, c' := ReadResult(p, c, key, answers, arrival), Step(p, c, Event.Read(key, answers, arrival, repair));
            if |p.Of(key)| == 0 then r == Err(NoReplicas) && c' == c
            else if |Responders(c, arrival, answers)| < Quorum(|p.Of(key)|) then r == Err(QuorumNotReached) && c' == c
            else
              match Best(c, key, arrival, answers)
              case None => r == Ok(None) && c' == c
              case Some(e) =>
                && r == Ok(if e.tombstone then None else Some(e.value))
                && c' == AfterRepair(c, Responders(c, arrival, answers), key, e, repair)
  {
    hide Replicas;
    hide Best;
  }

  /** Every successful read shows an attempted write at least as new as anything a quorum holds. */
  lemma HeldIsRead(p: Placement, c: Cluster, c': Cluster, key: Key, t: int, attempted: set<Item>, clock: int,
      answers: Node -> bool, repair: Node -> Fate, shown: Option<seq<Byte>>) returns (e: Entry)
    requires Held(p, c, key, t) && Sourced(c, attempted, clock)
    requires 2 * |Answerers(c, p.Of(key), answers)| > |p.Of(key)|
    requires ReadLeaves(c, c', Answerers(c, p.Of(key), answers), key, repair, shown)
    ensures e.timestamp >= t && Item(key, e) in attempted && shown == if e.tombstone then None else Some(e.value)
  {
    hide Replicas;
    var nodes, holders := Answerers(c, p.Of(key), answers), Holders(c, p.Of(key), key, t);
    QuorumIsMajority(|nodes|, |p.Of(key)|);
    var n := QuorumsMeet(nodes, holders, p.Of(key));
    assert n in c && key in c[n];
    e :| Newest(c, nodes, key, e) && shown == (if e.tombstone then None else Some(e.value))
         && Repaired(c, c', nodes, key, e, repair);
  }

  /**
   * What an acknowledged write, or a fully repaired read, established is what every later successful read shows, or
   * it shows a later attempt.
   */
  lemma EstablishedIsRead(p: Placement, c: Cluster, events: seq<Event>, i: nat, attempted: set<Item>, clock: int,
      key: Key, t: int, c': Cluster, answers: Node -> bool, repair: Node -> Fate, shown: Option<seq<Byte>>)
    returns (e: Entry)
    requires ProperRun(p, events, clock) && Sourced(c, attempted, clock) && i < |events|
    requires Established(p, Run(p, c, events[..i]), events[i], key) == Some(t)
    requires var now := Run(p, c, events); 2 * |Answerers(now, p.Of(key), answers)| > |p.Of(key)|
    requires var now := Run(p, c, events);
             ReadLeaves(now, c', Answerers(now, p.Of(key), answers), key, repair, shown)
    ensures e.timestamp >= t && Item(key, e) in attempted + AllAttempts(events)
    ensures shown == if e.tombstone then None else Some(e.value)
  {
    hide Established;
    hide Held;
    hide ProperRun;
    hide Sourced;
    hide ReadLeaves;
    hide Run;
    hide Replicas;
    hide AllAttempts;
    EstablishedStaysHeld(p, c, events, i, key, t, attempted, clock);
    RunSourced(p, c, events, attempted, clock);
    e := HeldIsRead(p, Run(p, c, events), c', key, t, attempted + AllAttempts(events), Clock(events, clock), answers,
      repair, shown);
  }

  /** After the latest attempt on a key was acknowledged a read shows exactly it: its value, or nothing for a delete. */
  lemma LatestIsRead(p: Placement, c: Cluster, events: seq<Event>, i: nat, attempted: set<Item>, clock: int,
      item: Item, c': Cluster, answers: Node -> bool, repair: Node -> Fate, shown: Option<seq<Byte>>)
    requires ProperRun(p, events, clock) && Sourced(c, attempted, clock) && i < |events|
    requires Established(p, Run(p, c, events[..i]), events[i], item.key) == Some(item.entry.timestamp)
    requires forall x :: x in attempted + AllAttempts(events) && x.key == item.key ==>
      x == item || x.entry.timestamp < item.entry.timestamp
    requires var now := Run(p, c, events); 2 * |Answerers(now, p.Of(item.key), answers)| > |p.Of(item.key)|
    requires var now := Run(p, c, events);
             ReadLeaves(now, c', Answerers(now, p.Of(item.key), answers), item.key, repair, shown)
    ensures shown == if item.entry.tombstone then None else Some(item.entry.value)
  {
    hide ProperRun;
    hide Sourced;
    hide Established;
    hide ReadLeaves;
    hide Run;
    hide Replicas;
    hide AllAttempts;
    var e := EstablishedIsRead(p, c, events, i, attempted, clock, item.key, item.entry.timestamp, c', answers, repair,
      shown);
    assert Item(item.key, e) == item;
  }

  /** What acknowledged puts of a write come to. */
  lemma WriteOutcome(p: Placement, c: Cluster, key: Key, entry: Entry, fate: Node -> Fate)
    ensures var c' := Step(p, c, Event.Write(Item(key, entry), fate));
            c'.Keys == c.Keys && forall n :: n in c ==>
              c'[n] == if n in p.Of(key) && fate(n) != Lost then c[n][key := entry] else c[n]
    ensures (|p.Of(key)| > 0 && |Ackers(c, p.Of(key), fate)| >= Quorum(|p.Of(key)|)) <==>
      2 * |set n | n in p.Of(key) && n in c && fate(n) == Acked| > |p.Of(key)|
  {
    hide Replicas;
    QuorumIsMajority(|Ackers(c, p.Of(key), fate)|, |p.Of(key)|);
    if p.Of(key) == [] {
      assert Ackers(c, p.Of(key), fate) == {};
    }
  }

  // ---- Batches ----

  function ItemsAt(byNode: map<Node, seq<Item>>, n: Node): seq<Item>
  {
    if n in byNode then byNode[n] else []
  }

  ghost predicate Grouped(p: Placement, items: seq<Item>, byNode: map<Node, seq<Item>>)
  {
    forall n :: ItemsAt(byNode, n) == ItemsFor(p.ring, p.hash, items, n)
  }

  lemma GroupMore(p: Placement, items: seq<Item>, i: nat, before: map<Node, seq<Item>>, after: map<Node, seq<Item>>)
    requires i < |items| && Grouped(p, items[..i], before)
    requires forall n ::
      ItemsAt(after, n) == if n in p.Of(items[i].key) then ItemsAt(before, n) + [items[i]] else ItemsAt(before, n)
    ensures Grouped(p, items[..i + 1], after)
  {
    hide Replicas;
    assert items[..i + 1][..i] == items[..i];
    forall n
      ensures ItemsAt(after, n) == ItemsFor(p.ring, p.hash, items[..i + 1], n)
    {
      assert ItemsAt(before, n) == ItemsFor(p.ring, p.hash, items[..i], n);
    }
  }

  method AddItem(byNode: map<Node, seq<Item>>, item: Item, replicas: seq<Node>) returns (more: map<Node, seq<Item>>)
    requires forall i, j :: 0 <= i < j < |replicas| ==> replicas[i] != replicas[j]
    ensures forall n :: ItemsAt(more, n) == if n in replicas then ItemsAt(byNode, n) + [item] else ItemsAt(byNode, n)
  {
    more := byNode;
    for j := 0 to |replicas|
      invariant forall n ::
        ItemsAt(more, n) == if n in replicas[..j] then ItemsAt(byNode, n) + [item] else ItemsAt(byNode, n)
    {
      assert forall n :: n in replicas[..j + 1] <==> n in replicas[..j] || n == replicas[j];
      var node := replicas[j];
      more := more[node := (if node in more then more[node] else []) + [item]];
    }
    assert replicas[..|replicas|] == replicas;
  }

  /** A key of a batch was stored by a quorum of its replicas. */
  ghost predicate BatchReached(p: Placement, c: Cluster, key: Key, fates: Node -> BatchFate)
  {
    |p.Of(key)| > 0 && |BatchAckers(c, p.Of(key), fates)| >= Quorum(|p.Of(key)|)
  }

  lemma ReplicasDiffer(p: Placement, key: Key)
    ensures forall i, j :: 0 <= i < j < |p.Of(key)| ==> p.Of(key)[i] != p.Of(key)[j]
  {
    DistinctElements(NodesOf(Walk(p.ring.points, p.hash(key))));
  }

  /** Some key of the batch has no replicas. */
  predicate Unplaced(p: Placement, items: seq<Item>)
  {
    exists i :: 0 <= i < |items| && p.Of(items[i].key) == []
  }

  /** A key of a batch reached more than half of its replicas. */
  lemma BatchReachedIs(p: Placement, c: Cluster, key: Key, fates: Node -> BatchFate)
    ensures BatchReached(p, c, key, fates) <==>
      2 * |set n | n in p.Of(key) && n in c && fates(n) == BatchAcked| > |p.Of(key)|
  {
    hide Replicas;
    QuorumIsMajority(|BatchAckers(c, p.Of(key), fates)|, |p.Of(key)|);
    if p.Of(key) == [] {
      assert BatchAckers(c, p.Of(key), fates) == {};
    }
  }

  /** What a batch leaves where it was acknowledged. */
  lemma BatchOutcome(p: Placement, c: Cluster, items: seq<Item>, fates: Node -> BatchFate, n: Node, key: Key)
    requires n in c && fates(n) == BatchAcked
    ensures var c' := Step(p, c, Batch(items, fates));
            && c'.Keys == c.Keys
            && (forall i: nat :: n in p.Of(key) && IsLast(items, i, key) ==>
                  key in c'[n] && c'[n][key] == items[i].entry)
            && (n !in p.Of(key) || (forall i :: 0 <= i < |items| ==> items[i].key != key) ==>
                  (key in c'[n] <==> key in c[n]) && (key in c[n] ==> c'[n][key] == c[n][key]))
  {
    BatchStores(p.ring, p.hash, c[n], items, n, key);
    hide Replicas;
    hide ApplyItems;
    hide ItemsFor;
  }

  /** A ring has replicas for every key or for none. */
  lemma SomeReplicas(ring: Ring, h: nat)
    ensures Replicas(ring, h) == [] <==> ring.points == [] || ring.replicationFactor == 0
  {
    var walk := NodesOf(Walk(ring.points, h));
    DistinctElements(walk);
    assert walk != [] ==> walk[0] in Distinct(walk);
  }

  lemma {:induction false} NothingToSend(p: Placement, items: seq<Item>, n: Node)
    requires forall i :: 0 <= i < |items| ==> p.Of(items[i].key) == []
    ensures ItemsFor(p.ring, p.hash, items, n) == []
  {
    if items != [] {
      NothingToSend(p, items[..|items| - 1], n);
    }
  }

  lemma NoReplicasAtAll(p: Placement, items: seq<Item>, fates: Node -> BatchFate, c: Cluster)
    requires exists i :: 0 <= i < |items| && p.Of(items[i].key) == []
    ensures Step(p, c, Batch(items, fates)) == c
  {
    hide Replicas;
    var i :| 0 <= i < |items| && p.Of(items[i].key) == [];
    forall j | 0 <= j < |items|
      ensures p.Of(items[j].key) == []
    {
      SomeReplicas(p.ring, p.hash(items[i].key));
      SomeReplicas(p.ring, p.hash(items[j].key));
    }
    forall n | n in c
      ensures Step(p, c, Batch(items, fates))[n] == c[n]
    {
      NothingToSend(p, items, n);
    }
  }

  lemma AckedAre(p: Placement, c: Cluster, items: seq<Item>, i: nat, fates: Node -> BatchFate,
                 byNode: map<Node, seq<Item>>, acked: set<Node>)
    requires i < |items| && Grouped(p, items, byNode)
    requires acked == set n | n in byNode && n in c && fates(n) == BatchAcked
    ensures (set n | n in p.Of(items[i].key) && n in acked) == BatchAckers(c, p.Of(items[i].key), fates)
  {
    forall n | n in p.Of(items[i].key)
      ensures n in byNode
    {
      ItemsForElements(p.ring, p.hash, items, n);
      assert items[i] in ItemsFor(p.ring, p.hash, items, n);
      assert ItemsAt(byNode, n) != [];
    }
  }

  lemma QuorumNeedsReplicas(c: Cluster, replicas: seq<Node>, fates: Node -> BatchFate)
    ensures |BatchAckers(c, replicas, fates)| >= Quorum(|replicas|) ==> |replicas| > 0
  {
    if replicas == [] {
      assert BatchAckers(c, replicas, fates) == {};
    }
  }

  lemma CountOneMore(replicas: seq<Node>, acked: set<Node>, i: nat)
    requires i < |replicas| && forall a, b :: 0 <= a < b < |replicas| ==> replicas[a] != replicas[b]
    ensures |set n | n in replicas[..i + 1] && n in acked|
      == |set n | n in replicas[..i] && n in acked| + if replicas[i] in acked then 1 else 0
  {
    OneMore(replicas, i);
    var before, after := set n | n in replicas[..i] && n in acked, set n | n in replicas[..i + 1] && n in acked;
    if replicas[i] in acked {
      assert after == before + {replicas[i]};
    } else {
      assert after == before;
    }
  }

  method CountIn(replicas: seq<Node>, acked: set<Node>) returns (count: nat)
    requires forall i, j :: 0 <= i < j < |replicas| ==> replicas[i] != replicas[j]
    ensures count == |set n | n in replicas && n in acked|
  {
    count := 0;
    for i := 0 to |replicas|
      invariant count == |set n | n in replicas[..i] && n in acked|
    {
      CountOneMore(replicas, acked, i);
      if replicas[i] in acked {
        count := count + 1;
      }
    }
    assert replicas[..|replicas|] == replicas;
  }

  // ---- Scans ----

  function Answering(c: Cluster, answers: Node -> bool): set<Node>
  {
    set n | n in c && answers(n)
  }

  /** `e` is held under `k` by one of the nodes, and none of them holds a newer entry. */
  ghost predicate Newest(c: Cluster, nodes: set<Node>, k: Key, e: Entry)
  {
    && (exists n :: n in nodes && n in c && k in c[n] && c[n][k] == e)
    && forall n :: n in nodes && n in c && k in c[n] ==> c[n][k].timestamp <= e.timestamp
  }

  /** `best` holds, for every key under the prefix that some of the nodes have, a newest entry. */
  ghost predicate ScanSoFar(c: Cluster, nodes: set<Node>, prefix: Key, best: map<Key, Entry>)
  {
    && (forall k :: k in best ==> prefix <= k && Newest(c, nodes, k, best[k]))
    && forall n, k {:trigger c[n][k]} :: n in nodes && n in c && k in c[n] && prefix <= k ==> k in best
  }

  /** A scan shows the newest entries under the prefix that are not deletions, and leaves out the rest. */
  ghost predicate ScanShows(c: Cluster, nodes: set<Node>, prefix: Key, shown: map<Key, Entry>)
  {
    && (forall k :: k in shown ==> prefix <= k && !shown[k].tombstone && Newest(c, nodes, k, shown[k]))
    && forall n, k {:trigger c[n][k]} :: n in nodes && n in c && k in c[n] && prefix <= k && k !in shown ==>
         exists e :: Newest(c, nodes, k, e) && e.tombstone
  }

  /** The replicas of a key that are known but do not answer. */
  function Silent(c: Cluster, replicas: seq<Node>, answers: Node -> bool): set<Node>
  {
    set n | n in replicas && n in c && !answers(n)
  }

  /** Some node that answers holds `t` or something newer under the key. */
  ghost predicate Covered(c: Cluster, answers: Node -> bool, key: Key, t: int)
  {
    exists n :: n in Answering(c, answers) && Reaches(c[n], key, t)
  }

  /** Where fewer than a quorum of the key's replicas stay silent, whatever a quorum holds is among the answers. */
  lemma HeldIsCovered(p: Placement, c: Cluster, answers: Node -> bool, key: Key, t: int)
    requires Held(p, c, key, t) && |Silent(c, p.Of(key), answers)| < Quorum(|p.Of(key)|)
    ensures Covered(c, answers, key, t)
  {
    var holders := Holders(c, p.Of(key), key, t);
    if holders <= Silent(c, p.Of(key), answers) {
      SubsetSize(holders, Silent(c, p.Of(key), answers));
    } else {
      var n :| n in holders && n !in Silent(c, p.Of(key), answers);
      assert n in Answering(c, answers);
    }
  }

  /** Just the silent replicas hold an entry. */
  function HeldBySilent(c: Cluster, replicas: seq<Node>, answers: Node -> bool, key: Key, entry: Entry): Cluster
  {
    map n | n in c :: if n in Silent(c, replicas, answers) then map[key := entry] else map[]
  }

  lemma HeldUncovered(p: Placement, c: Cluster, answers: Node -> bool, key: Key, entry: Entry)
    requires |Silent(c, p.Of(key), answers)| >= Quorum(|p.Of(key)|)
    ensures var c' := HeldBySilent(c, p.Of(key), answers, key, entry);
            Held(p, c', key, entry.timestamp) && !Covered(c', answers, key, entry.timestamp)
  {
    var c' := HeldBySilent(c, p.Of(key), answers, key, entry);
    assert Holders(c', p.Of(key), key, entry.timestamp) == Silent(c, p.Of(key), answers);
  }

  /**
   * Fewer than a quorum of silent replicas is exactly what it takes for the answers to cover whatever a quorum
   * holds.
   */
  lemma CoveredExactly(p: Placement, c: Cluster, answers: Node -> bool, key: Key)
    ensures |Silent(c, p.Of(key), answers)| < Quorum(|p.Of(key)|) <==>
      forall d: Cluster, t :: d.Keys == c.Keys && Held(p, d, key, t) ==> Covered(d, answers, key, t)
  {
    var silent := Silent(c, p.Of(key), answers);
    if |silent| < Quorum(|p.Of(key)|) {
      forall d: Cluster, t | d.Keys == c.Keys && Held(p, d, key, t)
        ensures Covered(d, answers, key, t)
      {
        assert Silent(d, p.Of(key), answers) == silent;
        HeldIsCovered(p, d, answers, key, t);
      }
    } else {
      var entry := Entry([], 0, false);
      HeldUncovered(p, c, answers, key, entry);
      assert HeldBySilent(c, p.Of(key), answers, key, entry).Keys == c.Keys;
    }
  }

  /** What a scan decided on for a key: shown as it is, unless it is a deletion. */
  ghost predicate DecidedOn(c: Cluster, nodes: set<Node>, shown: map<Key, Entry>, key: Key, e: Entry)
  {
    Newest(c, nodes, key, e) && if key in shown then shown[key] == e else e.tombstone
  }

  /** A scan decides on an entry at least as new as anything a quorum holds, unless a quorum of replicas is silent. */
  lemma ScanSees(p: Placement, c: Cluster, answers: Node -> bool, prefix: Key, shown: map<Key, Entry>,
      key: Key, t: int) returns (e: Entry)
    requires ScanShows(c, Answering(c, answers), prefix, shown) && prefix <= key
    requires Held(p, c, key, t) && |Silent(c, p.Of(key), answers)| < Quorum(|p.Of(key)|)
    ensures DecidedOn(c, Answering(c, answers), shown, key, e) && e.timestamp >= t
  {
    HeldIsCovered(p, c, answers, key, t);
    var nodes := Answering(c, answers);
    var n :| n in nodes && Reaches(c[n], key, t);
    assert key in c[n] && c[n][key].timestamp >= t;
    if key in shown {
      e := shown[key];
    } else {
      e :| Newest(c, nodes, key, e) && e.tombstone;
    }
  }

  /** A write once acknowledged by a quorum is what every later scan decides on, or a later entry is. */
  lemma EstablishedIsScanned(p: Placement, c: Cluster, events: seq<Event>, i: nat, attempted: set<Item>, clock: int,
      key: Key, t: int, answers: Node -> bool, prefix: Key, shown: map<Key, Entry>) returns (e: Entry)
    requires ProperRun(p, events, clock) && Sourced(c, attempted, clock) && i < |events| && prefix <= key
    requires Established(p, Run(p, c, events[..i]), events[i], key) == Some(t)
    requires ScanShows(Run(p, c, events), Answering(Run(p, c, events), answers), prefix, shown)
    requires |Silent(Run(p, c, events), p.Of(key), answers)| < Quorum(|p.Of(key)|)
    ensures DecidedOn(Run(p, c, events), Answering(Run(p, c, events), answers), shown, key, e) && e.timestamp >= t
  {
    hide ProperRun;
    hide Sourced;
    hide Established;
    hide Run;
    EstablishedStaysHeld(p, c, events, i, key, t, attempted, clock);
    e := ScanSees(p, Run(p, c, events), answers, prefix, shown, key, t);
  }

  lemma ScanDone(c: Cluster, nodes: set<Node>, prefix: Key, best: map<Key, Entry>)
    requires ScanSoFar(c, nodes, prefix, best)
    ensures ScanShows(c, nodes, prefix, map k | k in best && !best[k].tombstone :: best[k])
  {
  }

  method MergeEntries(ghost c: Cluster, ghost nodes: set<Node>, ghost node: Node, prefix: Key,
                      best: map<Key, Entry>, entries: map<Key, Entry>) returns (merged: map<Key, Entry>)
    requires node in c && entries == map k | k in c[node] && prefix <= k :: c[node][k]
    requires ScanSoFar(c, nodes, prefix, best)
    ensures ScanSoFar(c, nodes + {node}, prefix, merged)
  {
    merged := best;
    var rest := entries.Keys;
    hide Newest;
    hide ScanSoFar;
    while rest != {}
      invariant rest <= entries.Keys
      invariant merged.Keys == best.Keys + (entries.Keys - rest)
      invariant forall k :: k in merged ==> merged[k] == Newer(best, entries, rest, k)
      decreases rest
    {
      var k :| k in rest;
      rest := rest - {k};
      if k !in merged || entries[k].timestamp > merged[k].timestamp {
        merged := merged[k := entries[k]];
      }
    }
    MergedScan(c, nodes, node, prefix, best, entries, merged);
  }

  lemma MergedScan(c: Cluster, nodes: set<Node>, node: Node, prefix: Key,
                   best: map<Key, Entry>, entries: map<Key, Entry>, merged: map<Key, Entry>)
    requires node in c && entries == map k | k in c[node] && prefix <= k :: c[node][k]
    requires ScanSoFar(c, nodes, prefix, best)
    requires merged.Keys == best.Keys + entries.Keys
    requires forall k :: k in merged ==> merged[k] == Newer(best, entries, {}, k)
    ensures ScanSoFar(c, nodes + {node}, prefix, merged)
  {
    forall k | k in merged
      ensures prefix <= k && Newest(c, nodes + {node}, k, merged[k])
    {
      NewestOfMore(c, nodes, node, k, if k in best then Some(best[k]) else None, merged[k]);
    }
  }

  function Newer(best: map<Key, Entry>, entries: map<Key, Entry>, rest: set<Key>, k: Key): Entry
    requires k in best || k in entries
  {
    if k !in best then entries[k]
    else if k in entries && k !in rest && entries[k].timestamp > best[k].timestamp then entries[k]
    else best[k]
  }

  lemma NewestOfMore(c: Cluster, nodes: set<Node>, node: Node, k: Key, known: Option<Entry>, e: Entry)
    requires node in c
    requires match known
             case Some(best) => Newest(c, nodes, k, best)
             case None => forall n :: n in nodes && n in c ==> k !in c[n]
    requires k in c[node] || known.Some?
    requires e == if known.None? || (k in c[node] && c[node][k].timestamp > known.value.timestamp)
                  then (if k in c[node] then c[node][k] else known.value) else known.value
    ensures Newest(c, nodes + {node}, k, e)
  {
    if known.Some? && e == known.value {
      var n :| n in nodes && n in c && k in c[n] && c[n][k] == e;
      assert n in nodes + {node};
    } else {
      assert node in nodes + {node};
    }
  }

  method SendBatch(peers: map<Node, Replica>, node: Node, items: seq<Item>, fate: BatchFate) returns (ok: bool)
    requires Separate(peers)
    modifies peers.Values
    ensures ok == (node in peers && fate == BatchAcked)
    ensures forall n :: n in peers ==>
      peers[n].store == if n == node then ApplyItems(old(peers[n].store), Arrived(items, fate)) else old(peers[n].store)
  {
    if node !in peers {
      return false;
    }
    ok := peers[node].HandlePutBatch(items, fate);
  }

  lemma DeliveredAll(p: Placement, c: Cluster, c': Cluster, items: seq<Item>, byNode: map<Node, seq<Item>>,
      fates: Node -> BatchFate)
    requires Grouped(p, items, byNode) && c'.Keys == c.Keys
    requires forall n :: n in c ==>
      c'[n] == if n in byNode then ApplyItems(c[n], Arrived(byNode[n], fates(n))) else c[n]
    ensures c' == Step(p, c, Batch(items, fates))
  {
    forall n | n in c
      ensures c'[n] == Step(p, c, Batch(items, fates))[n]
    {
      assert ItemsAt(byNode, n) == ItemsFor(p.ring, p.hash, items, n);
      if n !in byNode {
        assert Arrived([], fates(n)) == [];
      }
    }
  }

  class Coordinator {
    var ring: Ring
    var peers: map<Node, Replica>
    const hash: Key -> nat

    ghost predicate Valid()
      reads this
    {
      Separate(peers) && InOrder(ring.points)
    }

    ghost function Where(): Placement
      reads this
    {
      Placement(ring, hash)
    }

    ghost function State(): Cluster
      reads this, peers.Values
    {
      StateOf(peers)
    }

    constructor (ring: Ring, peers: map<Node, Replica>, hash: Key -> nat)
      requires Separate(peers) && InOrder(ring.points)
      ensures Valid() && this.ring == ring && this.peers == peers && this.hash == hash
    {
      this.ring := ring;
      this.peers := peers;
      this.hash := hash;
    }

    /** Rebuilds the ring and the peer set, keeping the clients of nodes already known. */
    method SetMembers(nodes: seq<Node>, factor: nat, dial: map<Node, Replica>)
      requires Valid()
      requires ToSet(nodes) <= dial.Keys && Separate(dial + peers)
      modifies this
      ensures Valid() && IsRingOver(ring, ToSet(nodes), factor, hash)
      ensures DistinctHashes(ToSet(nodes), hash) ==> IsRing(ring, ToSet(nodes), factor, hash)
      ensures peers.Keys == ToSet(nodes)
      ensures forall n :: n in peers ==> peers[n] == if n in old(peers) then old(peers)[n] else dial[n]
    {
      var known := peers;
      peers := map n | n in ToSet(nodes) :: if n in known then known[n] else dial[n];
      assert forall n :: n in peers ==> peers[n] == (dial + known)[n];
      ring := NewRing(nodes, factor, hash);
    }

    /** Sends a write to every replica of its key and succeeds once a quorum has acknowledged it. */
    method Write(key: Key, entry: Entry, fate: Node -> Fate, arrival: seq<Node>) returns (r: Result<(), ClusterError>)
      requires Valid() && AnswerOrder(arrival, Where().Of(key))
      modifies peers.Values
      ensures State() == Step(Where(), old(State()), Event.Write(Item(key, entry), fate))
      ensures r.Ok? <==> 2 * |set n | n in Where().Of(key) && n in peers && fate(n) == Acked| > |Where().Of(key)|
      ensures r.Err? ==> r.error == if Where().Of(key) == [] then NoReplicas else QuorumNotReached
    {
      WriteOutcome(Where(), State(), key, entry, fate);
      assert (set n | n in Where().Of(key) && n in peers && fate(n) == Acked)
        == set n | n in Where().Of(key) && n in State() && fate(n) == Acked;
      var replicas := ReplicasFor(ring, hash(key));
      if |replicas| == 0 {
        return Err(NoReplicas);
      }
      var quorum := Quorum(|replicas|);
      hide Quorum;
      hide Replicas;
      hide Ackers;
      var acked := SendAll(key, entry, fate, arrival);
      SameAckers(old(State()), arrival, replicas, fate);
      AllSent(old(State()), State(), arrival, replicas, key, entry, fate);
      if acked < quorum {
        return Err(QuorumNotReached);
      }
      return Ok(());
    }

    /** Sends a write to each replica, counting the acknowledgements. */
    method SendAll(key: Key, entry: Entry, fate: Node -> Fate, arrival: seq<Node>) returns (acked: nat)
      requires Valid() && forall i, j :: 0 <= i < j < |arrival| ==> arrival[i] != arrival[j]
      modifies peers.Values
      ensures acked == |Ackers(old(State()), arrival, fate)|
      ensures forall n :: n in peers ==>
        peers[n].store == if n in arrival && fate(n) != Lost then old(peers[n].store)[key := entry]
                          else old(peers[n].store)
    {
      acked := 0;
      assert arrival[..0] == [];
      assert Ackers(old(State()), [], fate) == {};
      hide Ackers;
      for i := 0 to |arrival|
        invariant forall n :: n in peers ==>
          peers[n].store == if n in arrival[..i] && fate(n) != Lost then old(peers[n].store)[key := entry]
                            else old(peers[n].store)
        invariant acked == |Ackers(old(State()), arrival[..i], fate)|
      {
        AckOneMore(old(State()), arrival, i, fate);
        OneMore(arrival, i);
        var ok := SendPut(peers, arrival[i], key, entry, fate(arrival[i]));
        if ok {
          acked := acked + 1;
        }
      }
      assert arrival[..|arrival|] == arrival;
    }

    /** Gathers the answers in the order they arrive, keeping count and the newest entry. */
    method Collect(key: Key, answers: Node -> bool, arrival: seq<Node>)
      returns (responded: nat, best: Option<Entry>, responses: seq<Response>)
      requires forall a, b :: 0 <= a < b < |arrival| ==> arrival[a] != arrival[b]
      ensures responded == |Responders(State(), arrival, answers)|
      ensures best == Best(State(), key, arrival, answers)
      ensures |responses| == |arrival|
      ensures forall j :: 0 <= j < |arrival| ==> responses[j] == AnswerOf(State(), key, arrival[j], answers)
    {
      responded, best, responses := 0, None, [];
      ghost var c := State();
      NoAnswers(c, key, answers);
      assert arrival[..0] == [];
      hide Best;
      hide Responders;
      for i := 0 to |arrival|
        invariant responded == |Responders(c, arrival[..i], answers)|
        invariant best == Best(c, key, arrival[..i], answers)
        invariant |responses| == i
        invariant forall j :: 0 <= j < i ==> responses[j] == AnswerOf(c, key, arrival[j], answers)
      {
        OneMoreAnswer(c, key, arrival, i, answers);
        var node := arrival[i];
        if node !in peers || !answers(node) {
          responses := responses + [Failed(node)];
          continue;
        }
        var entry := peers[node].HandleGet(key);
        responses := responses + [Answered(node, entry)];
        responded := responded + 1;
        if entry.Some? && (best.None? || entry.value.timestamp > best.value.timestamp) {
          best := entry;
        }
      }
      assert arrival[..|arrival|] == arrival;
    }

    /** Reads from every replica and returns the newest answer, repairing those that answered with less. */
    method Get(key: Key, answers: Node -> bool, arrival: seq<Node>, repair: Node -> Fate)
      returns (r: Result<Option<seq<Byte>>, ClusterError>)
      requires Valid() && AnswerOrder(arrival, Where().Of(key))
      modifies peers.Values
      ensures State() == Step(Where(), old(State()), Event.Read(key, answers, arrival, repair))
      ensures r == ReadResult(Where(), old(State()), key, answers, arrival)
      ensures ReadMeans(Where().Of(key), old(State()), State(), key, answers, repair, r)
    {
      SameNodes(arrival, Where().Of(key));
      ReadResultShows(Where(), State(), key, answers, arrival, repair);
      ReadIs(Where(), State(), key, answers, arrival, repair);
      hide ReadMeans;
      hide ReadResult;
      hide Step;
      hide Replicas;
      hide Quorum;
      var replicas := ReplicasFor(ring, hash(key));
      if |replicas| == 0 {
        return Err(NoReplicas);
      }
      var quorum := Quorum(|replicas|);
      hide Best;
      hide Responders;
      var responded, best, responses := Collect(key, answers, arrival);
      if responded < quorum {
        return Err(QuorumNotReached);
      }
      if best.None? {
        return Ok(None);
      }
      ReadRepair(key, best.value, responses, answers, arrival, repair);
      return Ok(if best.value.tombstone then None else Some(best.value.value));
    }

    /** One repairing put, whose outcome nobody waits for. */
    method PushRepair(node: Node, key: Key, best: Entry, fate: Fate)
      requires Valid() && node in peers
      modifies peers.Values
      ensures State() == if fate == Lost then old(State()) else old(State())[node := old(State())[node][key := best]]
    {
      ghost var before := State();
      var _ := SendPut(peers, node, key, best, fate);
      assert State() == if fate == Lost then before else before[node := before[node][key := best]];
    }

    /** Pushes the winning entry to every replica that answered with something older, or with nothing. */
    method ReadRepair(key: Key, best: Entry, responses: seq<Response>, answers: Node -> bool, arrival: seq<Node>,
                      repair: Node -> Fate)
      requires Valid() && |responses| == |arrival| && forall a, b :: 0 <= a < b < |arrival| ==> arrival[a] != arrival[b]
      requires forall j :: 0 <= j < |arrival| ==> responses[j] == AnswerOf(State(), key, arrival[j], answers)
      modifies peers.Values
      ensures State() == AfterRepair(old(State()), Responders(old(State()), arrival, answers), key, best, repair)
      ensures Repaired(old(State()), State(), Answerers(old(State()), arrival, answers), key, best, repair)
    {
      ghost var c := State();
      RepairedIs(c, arrival, answers, key, best, repair);
      hide Repaired;
      NoneRepaired(c, key, best, answers, repair);
      hide AfterRepair;
      hide Responders;
      for i := 0 to |responses|
        invariant State() == AfterRepair(c, Responders(c, arrival[..i], answers), key, best, repair)
      {
        RepairOneMore(c, arrival, i, answers, key, best, repair);
        assert responses[i] == AnswerOf(c, key, arrival[i], answers);
        var res := responses[i];
        if res.Failed? || (res.entry.Some? && res.entry.value.timestamp >= best.timestamp) {
          continue;
        }
        PushRepair(res.node, key, best, repair(res.node));
      }
      assert arrival[..|arrival|] == arrival;
    }

    /** Groups a batch by node; `None` when some key has no replicas. */
    method Group(items: seq<Item>) returns (r: Option<map<Node, seq<Item>>>)
      requires Valid()
      ensures r.None? <==> exists i :: 0 <= i < |items| && Where().Of(items[i].key) == []
      ensures r.Some? ==> Grouped(Where(), items, r.value)
    {
      var byNode: map<Node, seq<Item>> := map[];
      hide Replicas;
      assert items[..0] == [];
      assert Grouped(Where(), [], byNode);
      hide Grouped;
      for i := 0 to |items|
        invariant Grouped(Where(), items[..i], byNode)
        invariant forall j :: 0 <= j < i ==> Where().Of(items[j].key) != []
      {
        var item := items[i];
        var replicas := ReplicasFor(ring, hash(item.key));
        if |replicas| == 0 {
          return None;
        }
        ReplicasDiffer(Where(), item.key);
        assert replicas == Where().Of(item.key);
        ghost var before := byNode;
        byNode := AddItem(byNode, item, replicas);
        GroupMore(Where(), items, i, before, byNode);
      }
      assert items[..|items|] == items;
      return Some(byNode);
    }

    /** One request per involved node, then a quorum check per key. */
    method WriteBatch(items: seq<Item>, fates: Node -> BatchFate) returns (r: Result<(), ClusterError>)
      requires Valid()
      modifies peers.Values
      ensures State() == Step(Where(), old(State()), Batch(items, fates))
      ensures r.Ok? <==> forall i :: 0 <= i < |items| ==> BatchReached(Where(), old(State()), items[i].key, fates)
      ensures r.Err? ==> r.error == if Unplaced(Where(), items) then NoReplicas else QuorumNotReached
    {
      if |items| == 0 {
        return Ok(());
      }
      var grouped := Group(items);
      if grouped.None? {
        NoReplicasAtAll(Where(), items, fates, State());
        return Err(NoReplicas);
      }
      hide Step;
      hide Grouped;
      hide Replicas;
      var acked := Deliver(grouped.value, items, fates);
      var failed := CountFailed(items, acked, fates, grouped.value, old(State()));
      return if failed then Err(QuorumNotReached) else Ok(());
    }

    /** Checks the quorum of every key, as a single write would. */
    method CountFailed(items: seq<Item>, acked: set<Node>, ghost fates: Node -> BatchFate,
                       ghost byNode: map<Node, seq<Item>>, ghost c: Cluster) returns (failed: bool)
      requires Valid() && Grouped(Where(), items, byNode)
      requires acked == set n | n in byNode && n in c && fates(n) == BatchAcked
      ensures failed <==> exists i :: 0 <= i < |items| && !BatchReached(Where(), c, items[i].key, fates)
    {
      hide Replicas;
      hide Grouped;
      failed := false;
      for i := 0 to |items|
        invariant failed <==> exists j :: 0 <= j < i && !BatchReached(Where(), c, items[j].key, fates)
      {
        var replicas := ReplicasFor(ring, hash(items[i].key));
        ReplicasDiffer(Where(), items[i].key);
        assert replicas == Where().Of(items[i].key);
        var count := CountIn(replicas, acked);
        AckedAre(Where(), c, items, i, fates, byNode, acked);
        QuorumNeedsReplicas(c, replicas, fates);
        if count < Quorum(|replicas|) {
          failed := true;
        }
      }
    }

    method Deliver(byNode: map<Node, seq<Item>>, ghost items: seq<Item>, fates: Node -> BatchFate)
      returns (acked: set<Node>)
      requires Valid() && Grouped(Where(), items, byNode)
      modifies peers.Values
      ensures State() == Step(Where(), old(State()), Batch(items, fates))
      ensures acked == set n | n in byNode && n in peers && fates(n) == BatchAcked
    {
      var rest := byNode.Keys;
      acked := {};
      hide ApplyItems;
      hide Arrived;
      hide Grouped;
      hide Step;
      while rest != {}
        invariant rest <= byNode.Keys
        invariant forall n :: n in peers ==>
          peers[n].store == if n in byNode && n !in rest
                            then ApplyItems(old(peers[n].store), Arrived(byNode[n], fates(n)))
                            else old(peers[n].store)
        invariant acked == set n | n in byNode && n !in rest && n in peers && fates(n) == BatchAcked
        decreases rest
      {
        var node :| node in rest;
        rest := rest - {node};
        var ok := SendBatch(peers, node, byNode[node], fates(node));
        if ok {
          acked := acked + {node};
        }
      }
      DeliveredAll(Where(), old(State()), State(), items, byNode, fates);
    }

    /** Asks every known peer for a prefix and keeps the newest entry per key among the answers. */
    method Scan(prefix: Key, answers: Node -> bool) returns (r: Result<map<Key, Entry>, ClusterError>)
      requires Valid()
      ensures r.Ok? <==> exists n :: n in peers && answers(n)
      ensures r.Ok? ==> ScanShows(State(), Answering(State(), answers), prefix, r.value)
    {
      var rest, responded, best: map<Key, Entry> := peers.Keys, 0, map[];
      ghost var seen: set<Node> := {};
      assert ScanSoFar(State(), seen, prefix, best);
      hide ScanSoFar;
      while rest != {}
        invariant rest <= peers.Keys && seen == Answering(State(), answers) - rest
        invariant responded > 0 <==> seen != {}
        invariant ScanSoFar(State(), seen, prefix, best)
        decreases rest
      {
        var node :| node in rest;
        rest := rest - {node};
        if answers(node) {
          responded := responded + 1;
          var entries := peers[node].HandleScan(prefix);
          best := MergeEntries(State(), seen, node, prefix, best, entries);
          seen := seen + {node};
        }
      }
      assert seen == Answering(State(), answers);
      if responded == 0 {
        assert forall n :: n in peers && answers(n) ==> n in seen;
        return Err(NoPeerReachable);
      }
      assert exists n :: n in seen;
      ScanDone(State(), seen, prefix, best);
      return Ok(map k | k in best && !best[k].tombstone :: best[k]);
    }
  }

  lemma RepairedIs(c: Cluster, arrival: seq<Node>, answers: Node -> bool, key: Key, best: Entry, repair: Node -> Fate)
    ensures Repaired(c, AfterRepair(c, Responders(c, arrival, answers), key, best, repair),
      Answerers(c, arrival, answers), key, best, repair)
  {
  }

  lemma NoneRepaired(c: Cluster, key: Key, best: Entry, answers: Node -> bool, repair: Node -> Fate)
    ensures AfterRepair(c, Responders(c, [], answers), key, best, repair) == c
  {
  }

  /** Looking at one more answer: its replica is repaired if what it answered was older than the best. */
  lemma RepairOneMore(c: Cluster, arrival: seq<Node>, i: nat, answers: Node -> bool, key: Key, best: Entry,
      repair: Node -> Fate)
    requires i < |arrival| && forall a, b :: 0 <= a < b < |arrival| ==> arrival[a] != arrival[b]
    ensures var before, n := AfterRepair(c, Responders(c, arrival[..i], answers), key, best, repair), arrival[i];
            AfterRepair(c, Responders(c, arrival[..i + 1], answers), key, best, repair) ==
              if n in c && answers(n) && NeedsRepair(c[n], key, best) && repair(n) != Lost
              then before[n := before[n][key := best]]
              else before
  {
    OneMore(arrival, i);
    var few, more := Responders(c, arrival[..i], answers), Responders(c, arrival[..i + 1], answers);
    assert arrival[i] !in few;
    assert more == if arrival[i] in c && answers(arrival[i]) then few + {arrival[i]} else few;
  }

  lemma OneMore(arrival: seq<Node>, i: nat)
    requires i < |arrival|
    ensures forall n :: n in arrival[..i + 1] <==> n in arrival[..i] || n == arrival[i]
  {
    assert arrival[..i + 1] == arrival[..i] + [arrival[i]];
  }

  lemma SameAckers(c: Cluster, arrival: seq<Node>, replicas: seq<Node>, fate: Node -> Fate)
    requires multiset(arrival) == multiset(replicas)
    ensures Ackers(c, arrival, fate) == Ackers(c, replicas, fate)
  {
    SameNodes(arrival, replicas);
  }

  lemma AllSent(c: Cluster, c': Cluster, arrival: seq<Node>, replicas: seq<Node>, key: Key, entry: Entry,
      fate: Node -> Fate)
    requires multiset(arrival) == multiset(replicas) && c'.Keys == c.Keys
    requires forall n :: n in c ==>
      c'[n] == if n in arrival && fate(n) != Lost then c[n][key := entry] else c[n]
    ensures c' == AfterPuts(c, replicas, key, entry, fate)
  {
    SameNodes(arrival, replicas);
  }

  lemma AckOneMore(c: Cluster, arrival: seq<Node>, i: nat, fate: Node -> Fate)
    requires i < |arrival| && forall a, b :: 0 <= a < b < |arrival| ==> arrival[a] != arrival[b]
    ensures |Ackers(c, arrival[..i + 1], fate)|
      == |Ackers(c, arrival[..i], fate)| + if arrival[i] in c && fate(arrival[i]) == Acked then 1 else 0
  {
    assert arrival[..i + 1] == arrival[..i] + [arrival[i]];
    var before, after := Ackers(c, arrival[..i], fate), Ackers(c, arrival[..i + 1], fate);
    assert after == if arrival[i] in c && fate(arrival[i]) == Acked then before + {arrival[i]} else before;
  }

  lemma SameNodes(arrival: seq<Node>, replicas: seq<Node>)
    requires multiset(arrival) == multiset(replicas)
    ensures ToSet(arrival) == ToSet(replicas)
    ensures forall n :: n in arrival <==> n in replicas
  {
    forall n
      ensures n in arrival <==> n in replicas
    {
      assert n in arrival <==> n in multiset(arrival);
      assert n in replicas <==> n in multiset(replicas);
    }
  }
}
