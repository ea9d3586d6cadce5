/**
 * The quorum store over whole histories on a fixed ring: non-overlapping operations, increasing
 * timestamps, any pattern of lost and unacknowledged calls (api/queel/cluster/coordinator.go).
 */
module QuorumHistory {
  import opened Wrappers
  import opened Bytes
  import opened HashRing
  import opened Replication

  datatype Event =
    | Write(item: Item, fate: Node -> Fate)
    | Batch(items: seq<Item>, fates: Node -> BatchFate)
    | Read(key: Key, answers: Node -> bool, arrival: seq<Node>, repair: Node -> Fate)

  /** The ring and the hash that places keys on it. */
  datatype Placement = Placement(ring: Ring, hash: Key -> nat)
  {
    function Of(key: Key): seq<Node>
    {
      Replicas(ring, hash(key))
    }
  }

  /** A read succeeds once a quorum of the key's replicas answer. */
  predicate ReadOk(p: Placement, c: Cluster, key: Key, answers: Node -> bool, arrival: seq<Node>)
  {
    |p.Of(key)| > 0 && |Responders(c, arrival, answers)| >= Quorum(|p.Of(key)|)
  }

  function Step(p: Placement, c: Cluster, e: Event): Cluster
  {
    match e
    case Write(item, fate) => AfterPuts(c, p.Of(item.key), item.key, item.entry, fate)
    case Batch(items, fates) => AfterBatch(p.ring, p.hash, c, items, fates)
    case Read(key, answers, arrival, repair) =>
      var best := Best(c, key, arrival, answers);
      if ReadOk(p, c, key, answers, arrival) && best.Some?
      then AfterRepair(c, Responders(c, arrival, answers), key, best.value, repair)
      else c
  }

  /** The writes an event attempts, in the order of their timestamps. */
  function Writes(e: Event): seq<Item>
  {
    match e
    case Write(item, _) => [item]
    case Batch(items, _) => items
    case Read(_, _, _, _) => []
  }

  /** Its answers come from exactly the replicas of its key, and its writes are later than `clock`, in order. */
  ghost predicate Proper(p: Placement, e: Event, clock: int)
  {
    && (e.Read? ==> ToSet(e.arrival) == ToSet(p.Of(e.key)))
    && RisingTimes(Writes(e))
    && forall i :: 0 <= i < |Writes(e)| ==> clock < Writes(e)[i].entry.timestamp
  }

  function ClockAfter(e: Event, clock: int): int
  {
    if Writes(e) == [] then clock else Writes(e)[|Writes(e)| - 1].entry.timestamp
  }

  // ---- What a key is known to have reached ----

  /** The timestamp of the last write to `key` in a batch. */
  function LastTime(items: seq<Item>, key: Key): Option<int>
  {
    if items == [] then None
    else if items[|items| - 1].key == key then Some(items[|items| - 1].entry.timestamp)
    else LastTime(items[..|items| - 1], key)
  }

  /** A successful read whose every repair was acknowledged. */
  ghost predicate FullyRepaired(p: Placement, c: Cluster, e: Event)
  {
    && e.Read? && ReadOk(p, c, e.key, e.answers, e.arrival)
    && forall n :: n in Responders(c, e.arrival, e.answers) ==> e.repair(n) == Acked
  }

  /**
   * The timestamp an event establishes for `key`: that of a write acknowledged by a quorum, or of the
   * entry returned by a read whose repairs all succeeded.
   */
  ghost function Established(p: Placement, c: Cluster, e: Event, key: Key): Option<int>
  {
    match e
    case Write(item, fate) =>
      if item.key == key && |p.Of(key)| > 0 && |Ackers(c, p.Of(key), fate)| >= Quorum(|p.Of(key)|)
      then Some(item.entry.timestamp) else None
    case Batch(items, fates) =>
      if |p.Of(key)| > 0 && |BatchAckers(c, p.Of(key), fates)| >= Quorum(|p.Of(key)|)
      then LastTime(items, key) else None
    case Read(k, answers, arrival, _) =>
      if k == key && FullyRepaired(p, c, e) && Best(c, key, arrival, answers).Some?
      then Some(Best(c, key, arrival, answers).value.timestamp) else None
  }

  predicate Reaches(s: Store, key: Key, t: int)
  {
    key in s && s[key].timestamp >= t
  }

  function Holders(c: Cluster, nodes: seq<Node>, key: Key, t: int): set<Node>
  {
    set n | n in nodes && n in c && Reaches(c[n], key, t)
  }

  /** A quorum of the key's replicas holds that timestamp or a later one. */
  ghost predicate Held(p: Placement, c: Cluster, key: Key, t: int)
  {
    |Holders(c, p.Of(key), key, t)| >= Quorum(|p.Of(key)|)
  }

  /** Every stored entry was written by some attempted write, no later than `clock`. */
  ghost predicate Sourced(c: Cluster, attempted: set<Item>, clock: int)
  {
    forall n, k {:trigger c[n][k]} :: n in c && k in c[n] ==>
      Item(k, c[n][k]) in attempted && c[n][k].timestamp <= clock
  }

  lemma SubsetSize<T>(a: set<T>, b: set<T>)
    requires a <= b
    ensures |a| <= |b|
  {
    assert b == a + (b - a);
  }

  /** A quorum is more than half. */
  lemma QuorumIsMajority(k: nat, n: nat)
    ensures k >= Quorum(n) <==> 2 * k > n
  {
  }

  lemma {:induction false} SubsetOfSize<T>(s: set<T>, k: nat) returns (part: set<T>)
    requires k <= |s|
    ensures part <= s && |part| == k
  {
    if k == 0 {
      part := {};
    } else {
      var x :| x in s;
      var rest := SubsetOfSize(s - {x}, k - 1);
      part := rest + {x};
    }
  }

  /** Any `k` of these nodes and any other `k` of them share one. */
  ghost predicate AnyTwoMeet(all: set<Node>, k: nat)
  {
    forall a, b :: a <= all && b <= all && |a| >= k && |b| >= k ==> a * b != {}
  }

  /** The quorum is the least size at which any two groups of replicas share one: no smaller number would do. */
  lemma QuorumIsLeast(all: set<Node>, k: nat)
    ensures AnyTwoMeet(all, k) <==> k >= Quorum(|all|)
  {
    if k >= Quorum(|all|) {
      forall a, b | a <= all && b <= all && |a| >= k && |b| >= k
        ensures a * b != {}
      {
        SubsetSize(a + b, all);
        assert |a + b| == |a| + |b| - |a * b|;
      }
    } else {
      var a := SubsetOfSize(all, k);
      assert |all - a| == |all| - |a|;
      var b := SubsetOfSize(all - a, k);
      assert a * b == {};
    }
  }

  /** Two quorums among the same replicas share one. */
  lemma QuorumsMeet(a: set<Node>, b: set<Node>, all: seq<Node>) returns (n: Node)
    requires a <= ToSet(all) && b <= ToSet(all)
    requires |a| >= Quorum(|all|) && |b| >= Quorum(|all|)
    ensures n in a && n in b
  {
    SetOfSeq(all);
    SubsetSize(a + b, ToSet(all));
    assert |a + b| == |a| + |b| - |a * b|;
    assert a * b != {};
    n :| n in a * b;
  }

  lemma {:induction false} SetOfSeq(s: seq<Node>)
    ensures |ToSet(s)| <= |s|
  {
    if s != [] {
      SetOfSeq(s[..|s| - 1]);
      assert ToSet(s) == ToSet(s[..|s| - 1]) + {s[|s| - 1]};
    }
  }

  // ---- Reads ----

  /** A successful read returns an attempted write, and nothing older than what a quorum holds. */
  lemma ReadSees(p: Placement, c: Cluster, key: Key, answers: Node -> bool, arrival: seq<Node>,
                 attempted: set<Item>, clock: int)
    requires Sourced(c, attempted, clock)
    requires ToSet(arrival) == ToSet(p.Of(key)) && ReadOk(p, c, key, answers, arrival)
    ensures var best := Best(c, key, arrival, answers);
            && (best.Some? ==> Item(key, best.value) in attempted)
            && forall t :: Held(p, c, key, t) ==> best.Some? && best.value.timestamp >= t
  {
    BestIsNewest(c, key, arrival, answers);
    forall n | n in Responders(c, arrival, answers)
      ensures n in ToSet(p.Of(key))
    {
      assert n in ToSet(arrival);
    }
    forall t | Held(p, c, key, t)
      ensures Best(c, key, arrival, answers).Some? && Best(c, key, arrival, answers).value.timestamp >= t
    {
      var n := QuorumsMeet(Holders(c, p.Of(key), key, t), Responders(c, arrival, answers), p.Of(key));
    }
  }

  // ---- Steps ----

  /** No replica ever moves to an older entry. */
  ghost predicate Climbs(c: Cluster, c': Cluster)
  {
    && c'.Keys == c.Keys
    && forall n, k {:trigger c[n][k]} :: n in c && k in c[n] ==> Reaches(c'[n], k, c[n][k].timestamp)
  }

  /** A put makes no replica fall behind exactly if it reaches none that holds something newer under the key. */
  lemma PutClimbsExactly(c: Cluster, nodes: seq<Node>, key: Key, entry: Entry, fate: Node -> Fate)
    ensures Climbs(c, AfterPuts(c, nodes, key, entry, fate)) <==>
      forall n :: n in c && n in nodes && fate(n) != Lost && key in c[n] ==> c[n][key].timestamp <= entry.timestamp
  {
    var c' := AfterPuts(c, nodes, key, entry, fate);
    forall n | n in c && n in nodes && fate(n) != Lost && key in c[n]
      ensures Reaches(c'[n], key, c[n][key].timestamp) <==> c[n][key].timestamp <= entry.timestamp
    {
    }
  }

  lemma HoldersStay(p: Placement, c: Cluster, c': Cluster, key: Key, t: int)
    requires Climbs(c, c') && Held(p, c, key, t)
    ensures Held(p, c', key, t)
  {
    forall n | n in Holders(c, p.Of(key), key, t)
      ensures n in Holders(c', p.Of(key), key, t)
    {
      assert key in c[n] && c[n][key].timestamp >= t;
    }
    SubsetSize(Holders(c, p.Of(key), key, t), Holders(c', p.Of(key), key, t));
  }

  lemma WriteClimbs(p: Placement, c: Cluster, e: Event, attempted: set<Item>, clock: int)
    requires e.Write? && Proper(p, e, clock) && Sourced(c, attempted, clock)
    ensures Climbs(c, Step(p, c, e))
    ensures Sourced(Step(p, c, e), attempted + {e.item}, ClockAfter(e, clock))
  {
    assert Writes(e)[0] == e.item;
  }

  lemma BatchClimbs(p: Placement, c: Cluster, e: Event, attempted: set<Item>, clock: int)
    requires e.Batch? && Proper(p, e, clock) && Sourced(c, attempted, clock)
    ensures Climbs(c, Step(p, c, e))
    ensures Sourced(Step(p, c, e), attempted + (set x | x in e.items), ClockAfter(e, clock))
  {
    var c' := Step(p, c, e);
    forall n, k | n in c' && k in c'[n]
      ensures Item(k, c'[n][k]) in attempted + (set x | x in e.items)
      ensures c'[n][k].timestamp <= ClockAfter(e, clock)
      ensures k in c[n] ==> c'[n][k].timestamp >= c[n][k].timestamp
    {
      BatchSource(p, c, e, n, k);
      if !(k in c[n] && c'[n][k] == c[n][k]) {
        var i :| 0 <= i < |e.items| && e.items[i] == Item(k, c'[n][k]);
        assert clock < Writes(e)[i].entry.timestamp;
      } else if e.items != [] {
        assert clock < Writes(e)[|e.items| - 1].entry.timestamp;
      }
    }
    forall n, k | n in c && k in c[n]
      ensures Reaches(c'[n], k, c[n][k].timestamp)
    {
      ApplyItemsKeeps(c[n], Arrived(ItemsFor(p.ring, p.hash, e.items, n), e.fates(n)), k);
      assert k in c'[n];
    }
  }

  lemma BatchSource(p: Placement, c: Cluster, e: Event, n: Node, k: Key)
    requires e.Batch? && n in c && k in Step(p, c, e)[n]
    ensures var entry := Step(p, c, e)[n][k]; (k in c[n] && entry == c[n][k]) || Item(k, entry) in e.items
  {
    var items := ItemsFor(p.ring, p.hash, e.items, n);
    var arrived := Arrived(items, e.fates(n));
    ApplyItemsSources(c[n], arrived, k);
    ItemsForElements(p.ring, p.hash, e.items, n);
    assert forall x :: x in arrived ==> x in items;
  }

  lemma ReadClimbs(p: Placement, c: Cluster, e: Event, attempted: set<Item>, clock: int)
    requires e.Read? && Sourced(c, attempted, clock)
    ensures Climbs(c, Step(p, c, e))
    ensures Sourced(Step(p, c, e), attempted, clock)
  {
    BestIsNewest(c, e.key, e.arrival, e.answers);
  }

  ghost function Attempts(e: Event): set<Item>
  {
    set x | x in Writes(e)
  }

  lemma StepClimbs(p: Placement, c: Cluster, e: Event, attempted: set<Item>, clock: int)
    requires Proper(p, e, clock) && Sourced(c, attempted, clock)
    ensures Climbs(c, Step(p, c, e))
    ensures Sourced(Step(p, c, e), attempted + Attempts(e), ClockAfter(e, clock))
  {
    match e
    case Write(item, _) =>
      WriteClimbs(p, c, e, attempted, clock);
      assert Attempts(e) == {item};
    case Batch(_, _) => BatchClimbs(p, c, e, attempted, clock);
    case Read(_, _, _, _) =>
      ReadClimbs(p, c, e, attempted, clock);
      assert attempted + Attempts(e) == attempted;
  }

  lemma {:induction false} LastTimeIs(items: seq<Item>, key: Key) returns (i: nat)
    requires LastTime(items, key).Some?
    ensures i < |items| && items[i].key == key && LastTime(items, key) == Some(items[i].entry.timestamp)
  {
    i := |items| - 1;
    if items[i].key != key {
      i := LastTimeIs(items[..i], key);
    }
  }

  /** A replica that stored a whole batch holds its last write to a key, or a later one. */
  lemma BatchReaches(p: Placement, c: Cluster, e: Event, n: Node, key: Key)
    requires e.Batch? && RisingTimes(e.items) && LastTime(e.items, key).Some?
    requires n in BatchAckers(c, p.Of(key), e.fates)
    ensures Reaches(Step(p, c, e)[n], key, LastTime(e.items, key).value)
  {
    var i := LastTimeIs(e.items, key);
    ItemsForElements(p.ring, p.hash, e.items, n);
    ItemsForRising(p.ring, p.hash, e.items, n);
    var items := ItemsFor(p.ring, p.hash, e.items, n);
    assert e.items[i] in items;
    var j :| 0 <= j < |items| && items[j] == e.items[i];
    ApplyItemsNewest(c[n], items, j);
  }

  /** What an event establishes is held by a quorum after it. */
  lemma StepEstablishes(p: Placement, c: Cluster, e: Event, key: Key, clock: int)
    requires Proper(p, e, clock) && Established(p, c, e, key).Some?
    ensures Held(p, Step(p, c, e), key, Established(p, c, e, key).value)
  {
    var c', t := Step(p, c, e), Established(p, c, e, key).value;
    var reached := match e
      case Write(_, fate) => Ackers(c, p.Of(key), fate)
      case Batch(_, fates) => BatchAckers(c, p.Of(key), fates)
      case Read(_, answers, arrival, _) => Responders(c, arrival, answers);
    forall n | n in reached
      ensures n in Holders(c', p.Of(key), key, t)
    {
      if e.Batch? {
        BatchReaches(p, c, e, n, key);
      } else if e.Read? {
        assert n in ToSet(e.arrival);
      }
    }
    SubsetSize(reached, Holders(c', p.Of(key), key, t));
  }

  // ---- Histories ----

  function Run(p: Placement, c: Cluster, events: seq<Event>): Cluster
  {
    if events == [] then c else Step(p, Run(p, c, events[..|events| - 1]), events[|events| - 1])
  }

  function Clock(events: seq<Event>, clock: int): int
  {
    if events == [] then clock else ClockAfter(events[|events| - 1], Clock(events[..|events| - 1], clock))
  }

  ghost function AllAttempts(events: seq<Event>): set<Item>
  {
    if events == [] then {} else AllAttempts(events[..|events| - 1]) + Attempts(events[|events| - 1])
  }

  /** Operations do not overlap and their timestamps increase from one to the next. */
  ghost predicate ProperRun(p: Placement, events: seq<Event>, clock: int)
  {
    forall i :: 0 <= i < |events| ==> Proper(p, events[i], Clock(events[..i], clock))
  }

  lemma ProperFront(p: Placement, events: seq<Event>, clock: int)
    requires ProperRun(p, events, clock) && events != []
    ensures ProperRun(p, events[..|events| - 1], clock)
    ensures Proper(p, events[|events| - 1], Clock(events[..|events| - 1], clock))
  {
    var front := events[..|events| - 1];
    forall i | 0 <= i < |front|
      ensures Proper(p, front[i], Clock(front[..i], clock))
    {
      assert front[..i] == events[..i];
    }
  }

  lemma {:induction false} RunSourced(p: Placement, c: Cluster, events: seq<Event>, attempted: set<Item>, clock: int)
    requires ProperRun(p, events, clock) && Sourced(c, attempted, clock)
    ensures Sourced(Run(p, c, events), attempted + AllAttempts(events), Clock(events, clock))
    ensures Run(p, c, events).Keys == c.Keys
  {
    if events == [] {
      assert attempted + {} == attempted;
    } else {
      var front, last := events[..|events| - 1], events[|events| - 1];
      ProperFront(p, events, clock);
      RunSourced(p, c, front, attempted, clock);
      StepClimbs(p, Run(p, c, front), last, attempted + AllAttempts(front), Clock(front, clock));
      assert attempted + AllAttempts(front) + Attempts(last) == attempted + AllAttempts(events);
    }
  }

  lemma HeldThroughStep(p: Placement, c: Cluster, e: Event, key: Key, t: int, attempted: set<Item>, clock: int)
    requires Proper(p, e, clock) && Sourced(c, attempted, clock) && Held(p, c, key, t)
    ensures Held(p, Step(p, c, e), key, t)
  {
    StepClimbs(p, c, e, attempted, clock);
    HoldersStay(p, c, Step(p, c, e), key, t);
  }

  /** What an event of a history established stays held to its end. */
  lemma {:induction false} EstablishedStaysHeld(p: Placement, c: Cluster, events: seq<Event>, i: nat, key: Key, t: int,
                                                attempted: set<Item>, clock: int)
    requires ProperRun(p, events, clock) && Sourced(c, attempted, clock) && i < |events|
    requires Established(p, Run(p, c, events[..i]), events[i], key) == Some(t)
    ensures Held(p, Run(p, c, events), key, t)
  {
    hide Established;
    hide Held;
    hide Proper;
    hide Sourced;
    hide Step;
    hide Replicas;
    hide AllAttempts;
    hide Clock;
    var front, last := events[..|events| - 1], events[|events| - 1];
    ProperFront(p, events, clock);
    hide ProperRun;
    assert Run(p, c, events) == Step(p, Run(p, c, front), last);
    hide Run;
    if i == |events| - 1 {
      StepEstablishes(p, Run(p, c, front), last, key, Clock(front, clock));
    } else {
      assert front[..i] == events[..i];
      EstablishedStaysHeld(p, c, front, i, key, t, attempted, clock);
      RunSourced(p, c, front, attempted, clock);
      HeldThroughStep(p, Run(p, c, front), last, key, t, attempted + AllAttempts(front), Clock(front, clock));
    }
  }

  /** What a quorum holds stays held through any history. */
  lemma {:induction false} HeldThroughRun(p: Placement, c: Cluster, events: seq<Event>, key: Key, t: int,
                                          attempted: set<Item>, clock: int)
    requires ProperRun(p, events, clock) && Sourced(c, attempted, clock) && Held(p, c, key, t)
    ensures Held(p, Run(p, c, events), key, t)
  {
    hide Held;
    hide Proper;
    hide Sourced;
    hide Step;
    if events != [] {
      var front, last := events[..|events| - 1], events[|events| - 1];
      ProperFront(p, events, clock);
      HeldThroughRun(p, c, front, key, t, attempted, clock);
      RunSourced(p, c, front, attempted, clock);
      HeldThroughStep(p, Run(p, c, front), last, key, t, attempted + AllAttempts(front), Clock(front, clock));
    }
  }

  /**
   * Whatever happened before and after it, a write acknowledged by a quorum, or a read whose repairs all
   * succeeded, is never forgotten: every later successful read of the key returns an attempted write
   * with that timestamp or a later one.
   */
  lemma EstablishedIsSeen(p: Placement, c: Cluster, events: seq<Event>, i: nat, attempted: set<Item>, clock: int,
                          key: Key, answers: Node -> bool, arrival: seq<Node>)
    requires ProperRun(p, events, clock) && Sourced(c, attempted, clock) && i < |events|
    requires Established(p, Run(p, c, events[..i]), events[i], key).Some?
    requires ToSet(arrival) == ToSet(p.Of(key)) && ReadOk(p, Run(p, c, events), key, answers, arrival)
    ensures var best := Best(Run(p, c, events), key, arrival, answers);
            && best.Some? && Item(key, best.value) in attempted + AllAttempts(events)
            && best.value.timestamp >= Established(p, Run(p, c, events[..i]), events[i], key).value
  {
    EstablishedStaysHeld(p, c, events, i, key, Established(p, Run(p, c, events[..i]), events[i], key).value,
      attempted, clock);
    RunSourced(p, c, events, attempted, clock);
    ReadSees(p, Run(p, c, events), key, answers, arrival, attempted + AllAttempts(events), Clock(events, clock));
  }

  /** When nothing newer was attempted on the key, the read returns exactly that write. */
  lemma LatestIsReturned(p: Placement, c: Cluster, events: seq<Event>, i: nat, attempted: set<Item>, clock: int,
                         item: Item, answers: Node -> bool, arrival: seq<Node>)
    requires ProperRun(p, events, clock) && Sourced(c, attempted, clock) && i < |events|
    requires Established(p, Run(p, c, events[..i]), events[i], item.key) == Some(item.entry.timestamp)
    requires forall x :: x in attempted + AllAttempts(events) && x.key == item.key ==>
      x == item || x.entry.timestamp < item.entry.timestamp
    requires ToSet(arrival) == ToSet(p.Of(item.key)) && ReadOk(p, Run(p, c, events), item.key, answers, arrival)
    ensures Best(Run(p, c, events), item.key, arrival, answers) == Some(item.entry)
  {
    EstablishedIsSeen(p, c, events, i, attempted, clock, item.key, answers, arrival);
  }
}
