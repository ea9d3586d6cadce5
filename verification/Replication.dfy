/**
 * What coordinated operations do to the replicas of a cluster: writes, batches and repairing reads as
 * functions of which calls arrive and which are answered (api/queel/cluster/coordinator.go,
 * api/queel/server/internal.go).
 */
module Replication {
  import opened Wrappers
  import opened Bytes
  import opened HashRing

  /** A replicated value. A delete is stored like any other value, with its tombstone flag set. */
  datatype Entry = Entry(value: seq<Byte>, timestamp: int, tombstone: bool)

  type Store = map<Key, Entry>
  type Cluster = map<Node, Store>

  datatype Item = Item(key: Key, entry: Entry)

  /** What becomes of a put sent to one replica: stored and acknowledged, never stored, or stored unacknowledged. */
  datatype Fate = Acked | Lost | AppliedUnacked

  /** A batch is stored item by item: it succeeds whole, or fails with some prefix stored. */
  datatype BatchFate = BatchAcked | BatchFailed(applied: nat)

  // ---- Single writes ----

  /** A replica overwrites unconditionally, whatever timestamp it held. */
  function AfterPuts(c: Cluster, nodes: seq<Node>, key: Key, entry: Entry, fate: Node -> Fate): Cluster
  {
    map n | n in c :: if n in nodes && fate(n) != Lost then c[n][key := entry] else c[n]
  }

  function Ackers(c: Cluster, nodes: seq<Node>, fate: Node -> Fate): set<Node>
  {
    set n | n in nodes && n in c && fate(n) == Acked
  }

  // ---- Batches ----

  function ApplyItems(s: Store, items: seq<Item>): Store
  {
    if items == [] then s
    else ApplyItems(s, items[..|items| - 1])[items[|items| - 1].key := items[|items| - 1].entry]
  }

  /** The items of a batch a node is responsible for, in order. */
  function ItemsFor(ring: Ring, hash: Key -> nat, items: seq<Item>, n: Node): seq<Item>
  {
    if items == [] then [] else
    var front, item := ItemsFor(ring, hash, items[..|items| - 1], n), items[|items| - 1];
    if n in Replicas(ring, hash(item.key)) then front + [item] else front
  }

  function Arrived(items: seq<Item>, fate: BatchFate): seq<Item>
  {
    match fate
    case BatchAcked => items
    case BatchFailed(applied) => items[..Min(applied, |items|)]
  }

  function AfterBatch(ring: Ring, hash: Key -> nat, c: Cluster, items: seq<Item>, fate: Node -> BatchFate): Cluster
  {
    map n | n in c :: ApplyItems(c[n], Arrived(ItemsFor(ring, hash, items, n), fate(n)))
  }

  function BatchAckers(c: Cluster, nodes: seq<Node>, fate: Node -> BatchFate): set<Node>
  {
    set n | n in nodes && n in c && fate(n) == BatchAcked
  }

  // ---- Reads ----

  /** The replicas that answered, in the order their answers arrived. */
  function Responders(c: Cluster, arrival: seq<Node>, answers: Node -> bool): set<Node>
  {
    set n | n in arrival && n in c && answers(n)
  }

  /** The newest entry among the answers, the first to arrive deciding between equal timestamps. */
  function Best(c: Cluster, key: Key, arrival: seq<Node>, answers: Node -> bool): Option<Entry>
  {
    if arrival == [] then None else
    var best, n := Best(c, key, arrival[..|arrival| - 1], answers), arrival[|arrival| - 1];
    if n !in c || !answers(n) || key !in c[n] then best
    else if best.None? || c[n][key].timestamp > best.value.timestamp then Some(c[n][key])
    else best
  }

  predicate NeedsRepair(s: Store, key: Key, best: Entry)
  {
    !(key in s && s[key].timestamp >= best.timestamp)
  }

  /** The winning entry is pushed to every replica that answered with something older, or nothing. */
  function AfterRepair(c: Cluster, nodes: set<Node>, key: Key, best: Entry, repair: Node -> Fate): Cluster
  {
    map n | n in c ::
      if n in nodes && NeedsRepair(c[n], key, best) && repair(n) != Lost then c[n][key := best] else c[n]
  }

  // ---- Facts about them ----

  lemma {:induction false} BestIsNewest(c: Cluster, key: Key, arrival: seq<Node>, answers: Node -> bool)
    ensures var best := Best(c, key, arrival, answers);
            && (best.Some? ==>
                  exists n :: n in Responders(c, arrival, answers) && key in c[n] && c[n][key] == best.value)
            && forall n :: n in Responders(c, arrival, answers) && key in c[n] ==>
                 best.Some? && c[n][key].timestamp <= best.value.timestamp
  {
    if arrival != [] {
      var front, last := arrival[..|arrival| - 1], arrival[|arrival| - 1];
      BestIsNewest(c, key, front, answers);
      assert arrival == front + [last];
      var best := Best(c, key, arrival, answers);
      if best.Some? {
        if best == Best(c, key, front, answers) {
          var n :| n in Responders(c, front, answers) && key in c[n] && c[n][key] == best.value;
          assert n in Responders(c, arrival, answers);
        } else {
          assert last in Responders(c, arrival, answers);
        }
      }
    }
  }

  /** Equal timestamps on one key mean the same write. */
  ghost predicate Coherent(c: Cluster, key: Key)
  {
    forall m, n :: m in c && n in c && key in c[m] && key in c[n] && c[m][key].timestamp == c[n][key].timestamp ==>
      c[m][key] == c[n][key]
  }

  /** The answer of a read does not depend on the order in which replicas answer. */
  lemma BestInAnyOrder(c: Cluster, key: Key, a: seq<Node>, b: seq<Node>, answers: Node -> bool)
    requires Coherent(c, key) && ToSet(a) == ToSet(b)
    ensures Best(c, key, a, answers) == Best(c, key, b, answers)
  {
    BestIsNewest(c, key, a, answers);
    BestIsNewest(c, key, b, answers);
    forall n
      ensures n in a <==> n in b
    {
      assert n in a <==> n in ToSet(a);
      assert n in b <==> n in ToSet(b);
    }
    assert Responders(c, a, answers) == Responders(c, b, answers);
  }

  /** Applying items leaves at each key what was there or one of the items. */
  lemma {:induction false} ApplyItemsSources(s: Store, items: seq<Item>, key: Key)
    requires key in ApplyItems(s, items)
    ensures (key in s && ApplyItems(s, items)[key] == s[key]) || Item(key, ApplyItems(s, items)[key]) in items
  {
    if items != [] {
      var front, last := items[..|items| - 1], items[|items| - 1];
      assert items == front + [last];
      if last.key != key {
        ApplyItemsSources(s, front, key);
      }
    }
  }

  lemma {:induction false} ApplyItemsKeeps(s: Store, items: seq<Item>, key: Key)
    requires key in s
    ensures key in ApplyItems(s, items)
  {
    if items != [] {
      ApplyItemsKeeps(s, items[..|items| - 1], key);
    }
  }

  /** Later items of a batch carry later timestamps. */
  ghost predicate RisingTimes(items: seq<Item>)
  {
    forall i, j :: 0 <= i < j < |items| ==> items[i].entry.timestamp < items[j].entry.timestamp
  }

  lemma {:induction false} ApplyItemsNewest(s: Store, items: seq<Item>, i: nat)
    requires RisingTimes(items) && i < |items|
    ensures items[i].key in ApplyItems(s, items)
    ensures ApplyItems(s, items)[items[i].key].timestamp >= items[i].entry.timestamp
  {
    if i < |items| - 1 && items[|items| - 1].key != items[i].key {
      ApplyItemsNewest(s, items[..|items| - 1], i);
    }
  }

  lemma {:induction false} ItemsForElements(ring: Ring, hash: Key -> nat, items: seq<Item>, n: Node)
    ensures forall x :: x in ItemsFor(ring, hash, items, n) <==> x in items && n in Replicas(ring, hash(x.key))
  {
    hide Replicas;
    if items != [] {
      var front, last := items[..|items| - 1], items[|items| - 1];
      ItemsForElements(ring, hash, front, n);
      assert items == front + [last];
    }
  }

  /** The last of the items under a key, if there is one. */
  ghost predicate IsLast(items: seq<Item>, i: nat, key: Key)
  {
    i < |items| && items[i].key == key && forall j :: i < j < |items| ==> items[j].key != key
  }

  /**
   * A node that stores its part of a batch holds the last item of each key it is responsible for, and else what
   * it had.
   */
  lemma {:induction false} BatchStores(ring: Ring, hash: Key -> nat, s: Store, items: seq<Item>, n: Node, key: Key)
    ensures var s' := ApplyItems(s, ItemsFor(ring, hash, items, n));
            && (forall i: nat :: n in Replicas(ring, hash(key)) && IsLast(items, i, key) ==>
                  key in s' && s'[key] == items[i].entry)
            && (n !in Replicas(ring, hash(key)) || (forall i :: 0 <= i < |items| ==> items[i].key != key) ==>
                  (key in s' <==> key in s) && (key in s ==> s'[key] == s[key]))
  {
    hide Replicas;
    if items != [] {
      var front, last := items[..|items| - 1], items[|items| - 1];
      BatchStores(ring, hash, s, front, n, key);
      var mine := ItemsFor(ring, hash, front, n);
      assert (mine + [last])[..|mine|] == mine;
      forall i: nat | IsLast(items, i, key)
        ensures i < |front| ==> IsLast(front, i, key)
        ensures i == |front| || last.key != key
      {
      }
    }
  }

  lemma {:induction false} ItemsForRising(ring: Ring, hash: Key -> nat, items: seq<Item>, n: Node)
    requires RisingTimes(items)
    ensures RisingTimes(ItemsFor(ring, hash, items, n))
  {
    hide Replicas;
    if items != [] {
      var front, last := items[..|items| - 1], items[|items| - 1];
      ItemsForRising(ring, hash, front, n);
      ItemsForElements(ring, hash, front, n);
      forall i | 0 <= i < |ItemsFor(ring, hash, front, n)|
        ensures ItemsFor(ring, hash, front, n)[i].entry.timestamp < last.entry.timestamp
      {
        var x := ItemsFor(ring, hash, front, n)[i];
        assert x in front;
        var j :| 0 <= j < |front| && front[j] == x;
        assert items[j] == x;
      }
    }
  }
}
