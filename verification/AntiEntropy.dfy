/**
 * Anti-entropy: two replicas summarise their stores as Merkle trees, find the buckets in which they
 * diverge and push each differing key's newer entry to the other side (api/queel/cluster/antientropy.go).
 */
module AntiEntropy {
  import opened Wrappers
  import opened Bytes
  import opened Sorting
  import opened Replication
  import opened SortedRuns
  import opened Coordination
  import opened Merkle

  type Entries = seq<KV<Entry>>

  /** The hash functions in use: a key's bucket hash, a bucket's leaf hash over its sorted entries, a pair's hash. */
  datatype Hashing<!H> = Hashing(key: Key -> nat, leaf: Entries -> H, pair: (H, H) -> H)

  datatype ReconcileError = NoTree(reason: TreeError) | PeerUnreachable

  function BucketFor<H>(h: Hashing<H>, key: Key, buckets: nat): (b: nat)
    requires buckets > 0
    ensures b < buckets
  {
    h.key(key) % buckets
  }

  /** What a store holds in one bucket. */
  function InBucket<H>(h: Hashing<H>, buckets: nat, s: Store, b: nat): Store
    requires buckets > 0
  {
    map k | k in s && BucketFor(h, k, buckets) == b :: s[k]
  }

  // ---- Summarising a store ----

  ghost function LeafOf<H>(h: Hashing<H>, buckets: nat, s: Store, b: nat): H
    requires buckets > 0
  {
    h.leaf(Listing(InBucket(h, buckets, s, b)))
  }

  ghost function LeavesOf<H>(h: Hashing<H>, buckets: nat, s: Store): (leaves: seq<H>)
    requires buckets > 0
    ensures |leaves| == buckets
  {
    seq(buckets, b requires 0 <= b < buckets => LeafOf(h, buckets, s, b))
  }

  /** The hash of a bucket depends on what is in it, never on the order its entries were met. */
  method LeafHash<H>(h: Hashing<H>, entries: Entries) returns (hash: H)
    requires DistinctKeys(entries)
    ensures hash == h.leaf(Listing(ToMap(entries)))
  {
    if |entries| == 0 {
      ListingUnique([], Listing(ToMap(entries)), map[]);
      return h.leaf([]);
    }
    KeyOrderIsWeak<Entry>();
    var sorted := SortSlice(entries, (a: KV<Entry>, b: KV<Entry>) => Less(a.key, b.key));
    SortedLists(entries, sorted);
    ListingUnique(sorted, Listing(ToMap(entries)), ToMap(entries));
    return h.leaf(sorted);
  }

  function EntriesAt(byBucket: map<nat, Entries>, b: nat): Entries
  {
    if b in byBucket then byBucket[b] else []
  }

  /** Each bucket's list has exactly the keys hashed into it, once each. */
  ghost predicate Partitioned<H>(h: Hashing<H>, buckets: nat, s: Store, byBucket: map<nat, Entries>)
    requires buckets > 0
  {
    forall b: nat :: DistinctKeys(EntriesAt(byBucket, b)) && ToMap(EntriesAt(byBucket, b)) == InBucket(h, buckets, s, b)
  }

  /** A list whose keys differ, and one more key. */
  lemma NewBinding(kvs: Entries, kv: KV<Entry>)
    requires DistinctKeys(kvs) && kv.key !in ToMap(kvs)
    ensures DistinctKeys(kvs + [kv]) && ToMap(kvs + [kv]) == ToMap(kvs)[kv.key := kv.value]
  {
    assert (kvs + [kv])[..|kvs|] == kvs;
    forall i | 0 <= i < |kvs|
      ensures kvs[i].key != kv.key
    {
      DistinctBinding(kvs, i);
    }
  }

  lemma PartitionMore<H>(h: Hashing<H>, buckets: nat, s: Store, byBucket: map<nat, Entries>, kv: KV<Entry>)
    requires buckets > 0 && Partitioned(h, buckets, s, byBucket) && kv.key !in s
    ensures var b := BucketFor(h, kv.key, buckets);
            Partitioned(h, buckets, s[kv.key := kv.value], byBucket[b := EntriesAt(byBucket, b) + [kv]])
  {
    var b, s' := BucketFor(h, kv.key, buckets), s[kv.key := kv.value];
    var more := byBucket[b := EntriesAt(byBucket, b) + [kv]];
    assert kv.key !in InBucket(h, buckets, s, b);
    NewBinding(EntriesAt(byBucket, b), kv);
    assert InBucket(h, buckets, s', b) == InBucket(h, buckets, s, b)[kv.key := kv.value];
    hide DistinctKeys;
    hide ToMap;
    forall c: nat
      ensures DistinctKeys(EntriesAt(more, c)) && ToMap(EntriesAt(more, c)) == InBucket(h, buckets, s', c)
    {
      assert ToMap(EntriesAt(byBucket, c)) == InBucket(h, buckets, s, c);
      if c != b {
        assert InBucket(h, buckets, s', c) == InBucket(h, buckets, s, c);
      }
    }
  }

  lemma PrefixMap(kvs: Entries, i: nat)
    requires Ascending(kvs) && i < |kvs|
    ensures kvs[i].key !in ToMap(kvs[..i]) && ToMap(kvs[..i + 1]) == ToMap(kvs[..i])[kvs[i].key := kvs[i].value]
  {
    assert kvs[..i + 1][..i] == kvs[..i];
    if kvs[i].key in ToMap(kvs[..i]) {
      var j := KeyAt(kvs[..i], kvs[i].key);
      LessTrichotomy(kvs[j].key, kvs[i].key);
      assert false;
    }
  }

  /** Scans a store listed in key order into buckets, hashes each, and builds the tree over the hashes. */
  method BuildTree<H>(h: Hashing<H>, buckets: nat, kvs: Entries)
    returns (r: Result<(Tree<H>, map<nat, Entries>), TreeError>)
    requires buckets > 0 && Ascending(kvs)
    ensures r.Ok? <==> PowerOfTwo(buckets)
    ensures r.Ok? ==> WellBuilt(r.value.0, h.pair) && Leaves(r.value.0) == LeavesOf(h, buckets, ToMap(kvs))
    ensures r.Ok? ==> Partitioned(h, buckets, ToMap(kvs), r.value.1)
  {
    var byBucket: map<nat, Entries> := map[];
    for i := 0 to |kvs|
      invariant Partitioned(h, buckets, ToMap(kvs[..i]), byBucket)
    {
      var b := BucketFor(h, kvs[i].key, buckets);
      PrefixMap(kvs, i);
      PartitionMore(h, buckets, ToMap(kvs[..i]), byBucket, kvs[i]);
      byBucket := byBucket[b := EntriesAt(byBucket, b) + [kvs[i]]];
    }
    assert kvs[..|kvs|] == kvs;
    var leaves := [];
    for b := 0 to buckets
      invariant leaves == LeavesOf(h, buckets, ToMap(kvs))[..b]
    {
      var leaf := LeafHash(h, EntriesAt(byBucket, b));
      leaves := leaves + [leaf];
    }
    var built := Build(leaves, h.pair);
    match built
    case Err(e) => return Err(e);
    case Ok(tree) => return Ok((tree, byBucket));
  }

  // ---- What reconciling does to two stores ----

  /** `b` holds something newer than `a` at a key, or something where `a` holds nothing. */
  predicate Due(a: Store, b: Store, k: Key)
  {
    k in b && (k !in a || a[k].timestamp < b[k].timestamp)
  }

  /** The keys that arrive: those due among the ones compared whose transfer is not lost. */
  function Arriving(a: Store, b: Store, compared: set<Key>, fate: Key -> Fate): set<Key>
  {
    set k | k in compared && Due(a, b, k) && fate(k) != Lost
  }

  function Overlay(a: Store, b: Store, taken: set<Key>): Store
    requires taken <= b.Keys
  {
    map k | k in a.Keys + taken :: if k in taken then b[k] else a[k]
  }

  function Received(a: Store, b: Store, compared: set<Key>, fate: Key -> Fate): Store
  {
    Overlay(a, b, Arriving(a, b, compared, fate))
  }

  /** The transfers reported as repairs, in either direction. */
  function Repairs(a: Store, b: Store, compared: set<Key>, fate: Key -> Fate): set<Key>
  {
    set k | k in compared && (Due(a, b, k) || Due(b, a, k)) && fate(k) == Acked
  }

  function KeysIn<H>(h: Hashing<H>, buckets: nat, a: Store, b: Store, chosen: seq<nat>): set<Key>
    requires buckets > 0
  {
    set k | k in a.Keys + b.Keys && BucketFor(h, k, buckets) in chosen
  }

  /** The hashes tell these two stores apart: unequal buckets have unequal leaves, unequal children unequal parents. */
  ghost predicate Distinguishes<H(!new)>(h: Hashing<H>, buckets: nat, a: Store, b: Store)
    requires buckets > 0
  {
    && (forall bucket: nat :: bucket < buckets && LeafOf(h, buckets, a, bucket) == LeafOf(h, buckets, b, bucket) ==>
          InBucket(h, buckets, a, bucket) == InBucket(h, buckets, b, bucket))
    && forall t: Tree<H>, u: Tree<H> ::
         Comparable(t, u, h.pair) && Leaves(t) == LeavesOf(h, buckets, a) && Leaves(u) == LeavesOf(h, buckets, b) ==>
           NoCollision(t, u, h.pair)
  }

  /** Injective hashes tell any two stores apart. */
  lemma InjectiveDistinguishes<H(!new)>(h: Hashing<H>, buckets: nat, a: Store, b: Store)
    requires buckets > 0 && InjectivePair(h.pair)
    requires forall x, y :: h.leaf(x) == h.leaf(y) ==> x == y
    ensures Distinguishes(h, buckets, a, b)
  {
    forall t: Tree<H>, u: Tree<H> | Comparable(t, u, h.pair)
      ensures NoCollision(t, u, h.pair)
    {
      InjectiveHasNoCollision(t, u, h.pair);
    }
    forall bucket: nat | bucket < buckets && LeafOf(h, buckets, a, bucket) == LeafOf(h, buckets, b, bucket)
      ensures InBucket(h, buckets, a, bucket) == InBucket(h, buckets, b, bucket)
    {
      assert Listing(InBucket(h, buckets, a, bucket)) == Listing(InBucket(h, buckets, b, bucket));
    }
  }

  /** The newest entry of every key either side holds, the first side's where they tie. */
  function Newest(a: Store, b: Store): Store
  {
    map k | k in a.Keys + b.Keys :: if Due(a, b, k) then b[k] else a[k]
  }

  /** The newest of two stores has every key either has, with an entry of one of them that neither has newer. */
  lemma NewestOfBoth(a: Store, b: Store, k: Key)
    ensures k in Newest(a, b) <==> k in a || k in b
    ensures k in Newest(a, b) ==>
      && ((k in a && Newest(a, b)[k] == a[k]) || (k in b && Newest(a, b)[k] == b[k]))
      && (k in a ==> a[k].timestamp <= Newest(a, b)[k].timestamp)
      && (k in b ==> b[k].timestamp <= Newest(a, b)[k].timestamp)
  {
  }

  /** Keys at which the stores differ under one and the same timestamp: nothing decides between them. */
  function Ties(a: Store, b: Store): set<Key>
  {
    set k | k in a && k in b && a[k].timestamp == b[k].timestamp && a[k] != b[k]
  }

  function Differing(a: Store, b: Store): set<Key>
  {
    set k | k in a.Keys + b.Keys && !(k in a && k in b && a[k] == b[k])
  }

  /** A key in a bucket that was not reported is the same on both sides. */
  lemma SameElsewhere<H(!new)>(h: Hashing<H>, buckets: nat, a: Store, b: Store, k: Key)
    requires buckets > 0 && Distinguishes(h, buckets, a, b)
    requires !Differs(LeavesOf(h, buckets, a), LeavesOf(h, buckets, b), BucketFor(h, k, buckets))
    ensures k !in Differing(a, b)
  {
    var bucket := BucketFor(h, k, buckets);
    assert LeavesOf(h, buckets, a)[bucket] == LeafOf(h, buckets, a, bucket);
    assert LeavesOf(h, buckets, b)[bucket] == LeafOf(h, buckets, b, bucket);
    var x, y := InBucket(h, buckets, a, bucket), InBucket(h, buckets, b, bucket);
    assert k in a <==> k in x;
    assert k in b <==> k in y;
  }

  /** With every transfer delivered, a side ends with the newest entry of every key. */
  lemma ReceivesNewest(a: Store, b: Store, compared: set<Key>, fate: Key -> Fate)
    requires Differing(a, b) <= compared && forall k :: k in compared ==> fate(k) == Acked
    ensures Received(a, b, compared, fate) == Newest(a, b)
  {
    var arriving := Arriving(a, b, compared, fate);
    forall k | k in Newest(a, b)
      ensures k in arriving <==> Due(a, b, k)
    {
      assert Due(a, b, k) ==> k in Differing(a, b);
    }
  }

  /** The two sides agree on the newest entries exactly if nothing ties. */
  lemma AgreeUnlessTied(a: Store, b: Store)
    ensures Newest(a, b) == Newest(b, a) <==> Ties(a, b) == {}
  {
    var x, y := Newest(a, b), Newest(b, a);
    assert x.Keys == y.Keys;
    forall k | k in a.Keys + b.Keys
      ensures x[k] == y[k] <==> k !in Ties(a, b)
    {
    }
    forall k | k in Ties(a, b)
      ensures x != y
    {
      assert k in a.Keys + b.Keys;
    }
  }

  lemma AllRepaired(a: Store, b: Store, compared: set<Key>, fate: Key -> Fate)
    requires Differing(a, b) <= compared && forall k :: k in compared ==> fate(k) == Acked
    ensures Repairs(a, b, compared, fate) == Differing(a, b) - Ties(a, b)
  {
    forall k
      ensures Due(a, b, k) || Due(b, a, k) <==> k in Differing(a, b) - Ties(a, b)
    {
    }
  }

  /** With every transfer delivered, both sides end with the newest entry of every key, but for ties. */
  lemma Converged(a: Store, b: Store, compared: set<Key>, fate: Key -> Fate)
    requires Differing(a, b) <= compared && forall k :: k in compared ==> fate(k) == Acked
    ensures Received(a, b, compared, fate) == Newest(a, b)
    ensures Received(b, a, compared, fate) == Newest(b, a)
    ensures Received(a, b, compared, fate) == Received(b, a, compared, fate) <==> Ties(a, b) == {}
    ensures Repairs(a, b, compared, fate) == Differing(a, b) - Ties(a, b)
  {
    assert Differing(b, a) == Differing(a, b);
    ReceivesNewest(a, b, compared, fate);
    ReceivesNewest(b, a, compared, fate);
    AgreeUnlessTied(a, b);
    AllRepaired(a, b, compared, fate);
  }

  /** A second round finds nothing left to repair, whatever is compared and delivered, and even where entries tie. */
  lemma SecondRoundRepairsNothing(a: Store, b: Store, compared: set<Key>, fate: Key -> Fate)
    ensures Repairs(Newest(a, b), Newest(b, a), compared, fate) == {}
    ensures Received(Newest(a, b), Newest(b, a), compared, fate) == Newest(a, b)
  {
    var x, y := Newest(a, b), Newest(b, a);
    forall k
      ensures !Due(x, y, k) && !Due(y, x, k)
    {
      assert k in x <==> k in a.Keys + b.Keys;
    }
  }

  /** Nothing a store held is gone or replaced by something older. */
  ghost predicate NeverOlder(before: Store, after: Store)
  {
    forall k :: k in before ==> k in after && (after[k] == before[k] || after[k].timestamp > before[k].timestamp)
  }

  // ---- The exchange ----

  /** The scan of a local engine: every binding, in key order. */
  method ScanAll(r: Replica) returns (kvs: Entries)
    ensures Lists(kvs, r.store)
  {
    var all := r.HandleScan([]);
    assert all == r.store;
    var todo, found := all.Keys, [];
    while todo != {}
      invariant todo <= all.Keys && DistinctKeys(found)
      invariant ToMap(found) == map k | k in all.Keys - todo :: all[k]
    {
      var k :| k in todo;
      ghost var before := found;
      forall i | 0 <= i < |found|
        ensures found[i].key != k
      {
        DistinctBinding(found, i);
      }
      found := found + [KV(k, all[k])];
      assert found[..|before|] == before;
      todo := todo - {k};
    }
    KeyOrderIsWeak<Entry>();
    kvs := SortSlice(found, (a: KV<Entry>, b: KV<Entry>) => Less(a.key, b.key));
    SortedLists(found, kvs);
    assert ToMap(found) == all;
  }

  /** A put that may be lost, or stored without its success being known. */
  method Transfer(to: Replica, key: Key, entry: Entry, fate: Fate) returns (ok: bool)
    modifies to
    ensures to.store == if fate == Lost then old(to.store) else old(to.store)[key := entry]
    ensures ok == (fate == Acked)
  {
    if fate != Lost {
      to.HandlePut(key, entry);
    }
    return fate == Acked;
  }

  /** Comparing one more key: what each side receives, and what is counted. */
  lemma OneMoreKey(a: Store, b: Store, seen: set<Key>, key: Key, fate: Key -> Fate)
    requires key !in seen
    ensures Received(a, b, seen + {key}, fate)
      == if Due(a, b, key) && fate(key) != Lost then Received(a, b, seen, fate)[key := b[key]]
        else Received(a, b, seen, fate)
  {
    var before, after := Arriving(a, b, seen, fate), Arriving(a, b, seen + {key}, fate);
    if Due(a, b, key) && fate(key) != Lost {
      assert after == before + {key};
    } else {
      assert after == before;
    }
  }

  lemma OneMoreRepair(a: Store, b: Store, seen: set<Key>, key: Key, fate: Key -> Fate)
    requires key !in seen
    ensures |Repairs(a, b, seen + {key}, fate)|
      == |Repairs(a, b, seen, fate)| + if (Due(a, b, key) || Due(b, a, key)) && fate(key) == Acked then 1 else 0
  {
    var before, after := Repairs(a, b, seen, fate), Repairs(a, b, seen + {key}, fate);
    if (Due(a, b, key) || Due(b, a, key)) && fate(key) == Acked {
      assert after == before + {key};
    } else {
      assert after == before;
    }
  }

  /** Both sides and the count after comparing some keys. */
  ghost predicate Exchanged(x: Store, y: Store, a: Store, b: Store, seen: set<Key>, fate: Key -> Fate, repaired: nat)
  {
    x == Received(a, b, seen, fate) && y == Received(b, a, seen, fate) && repaired == |Repairs(a, b, seen, fate)|
  }

  /** The newer entry of one key goes to the side that lacks it. */
  method ReconcileKey(engine: Replica, peer: Replica, key: Key, localByKey: Store, peerByKey: Store, fate: Key -> Fate,
      ghost a: Store, ghost b: Store, ghost seen: set<Key>, repaired: nat)
    returns (repaired': nat)
    requires engine != peer && key !in seen
    requires Exchanged(engine.store, peer.store, a, b, seen, fate, repaired)
    requires (key in localByKey <==> key in a) && (key in peerByKey <==> key in b)
    requires (key in a ==> localByKey[key] == a[key]) && (key in b ==> peerByKey[key] == b[key])
    modifies engine, peer
    ensures Exchanged(engine.store, peer.store, a, b, seen + {key}, fate, repaired')
  {
    OneMoreKey(a, b, seen, key, fate);
    OneMoreKey(b, a, seen, key, fate);
    OneMoreRepair(a, b, seen, key, fate);
    hide Received;
    hide Repairs;
    var ok := false;
    if key in localByKey && key !in peerByKey {
      ok := Transfer(peer, key, localByKey[key], fate(key));
    } else if key in peerByKey && key !in localByKey {
      ok := Transfer(engine, key, peerByKey[key], fate(key));
    } else if key in localByKey && key in peerByKey && localByKey[key].timestamp < peerByKey[key].timestamp {
      ok := Transfer(engine, key, peerByKey[key], fate(key));
    } else if key in localByKey && key in peerByKey && peerByKey[key].timestamp < localByKey[key].timestamp {
      ok := Transfer(peer, key, localByKey[key], fate(key));
    }
    repaired' := if ok then repaired + 1 else repaired;
  }

  /** Exchanges within one bucket leave another bucket of the peer as it was. */
  lemma OtherBucket<H>(h: Hashing<H>, buckets: nat, a: Store, b: Store, seen: set<Key>, fate: Key -> Fate, bucket: nat)
    requires buckets > 0
    requires forall k :: k in seen ==> BucketFor(h, k, buckets) != bucket
    ensures InBucket(h, buckets, Received(b, a, seen, fate), bucket) == InBucket(h, buckets, b, bucket)
  {
  }

  lemma OneMoreBucket<H>(h: Hashing<H>, buckets: nat, a: Store, b: Store, chosen: seq<nat>, i: nat)
    requires buckets > 0 && i < |chosen| && forall x, y :: 0 <= x < y < |chosen| ==> chosen[x] < chosen[y]
    ensures KeysIn(h, buckets, a, b, chosen[..i + 1])
      == KeysIn(h, buckets, a, b, chosen[..i])
        + (InBucket(h, buckets, a, chosen[i]).Keys + InBucket(h, buckets, b, chosen[i]).Keys)
    ensures forall k :: k in KeysIn(h, buckets, a, b, chosen[..i]) ==> BucketFor(h, k, buckets) != chosen[i]
  {
    assert chosen[..i + 1] == chosen[..i] + [chosen[i]];
  }

  method ReconcileBucket<H>(h: Hashing<H>, buckets: nat, engine: Replica, peer: Replica, bucket: nat, localByKey: Store,
      fate: Key -> Fate, ghost a: Store, ghost b: Store, ghost seen: set<Key>, repaired: nat)
    returns (repaired': nat)
    requires buckets > 0 && engine != peer
    requires Exchanged(engine.store, peer.store, a, b, seen, fate, repaired)
    requires localByKey == InBucket(h, buckets, a, bucket)
    requires forall k :: k in seen ==> BucketFor(h, k, buckets) != bucket
    modifies engine, peer
    ensures Exchanged(engine.store, peer.store, a, b,
      seen + (InBucket(h, buckets, a, bucket).Keys + InBucket(h, buckets, b, bucket).Keys), fate, repaired')
  {
    OtherBucket(h, buckets, a, b, seen, fate, bucket);
    assert peer.store == Received(b, a, seen, fate);
    hide Exchanged;
    hide Received;
    hide Repairs;
    var peerByKey := InBucket(h, buckets, peer.store, bucket);
    var allKeys := peerByKey.Keys + localByKey.Keys;
    repaired' := ReconcileKeys(engine, peer, allKeys, localByKey, peerByKey, fate, a, b, seen, repaired);
    assert allKeys == InBucket(h, buckets, a, bucket).Keys + InBucket(h, buckets, b, bucket).Keys;
  }

  /** The keys of one bucket, in whatever order. */
  method ReconcileKeys(engine: Replica, peer: Replica, allKeys: set<Key>, localByKey: Store, peerByKey: Store,
      fate: Key -> Fate,
      ghost a: Store, ghost b: Store, ghost seen: set<Key>, repaired: nat)
    returns (repaired': nat)
    requires engine != peer && seen !! allKeys
    requires Exchanged(engine.store, peer.store, a, b, seen, fate, repaired)
    requires forall k :: k in allKeys ==>
      && (k in localByKey <==> k in a) && (k in peerByKey <==> k in b)
      && (k in a ==> localByKey[k] == a[k]) && (k in b ==> peerByKey[k] == b[k])
    modifies engine, peer
    ensures Exchanged(engine.store, peer.store, a, b, seen + allKeys, fate, repaired')
  {
    hide Exchanged;
    var todo := allKeys;
    ghost var done := seen;
    repaired' := repaired;
    while todo != {}
      invariant todo <= allKeys && done == seen + (allKeys - todo)
      invariant Exchanged(engine.store, peer.store, a, b, done, fate, repaired')
    {
      var key :| key in todo;
      repaired' := ReconcileKey(engine, peer, key, localByKey, peerByKey, fate, a, b, done, repaired');
      todo := todo - {key};
      done := done + {key};
    }
    assert done == seen + allKeys;
  }

  lemma NothingCompared(a: Store, b: Store, fate: Key -> Fate)
    ensures Received(a, b, {}, fate) == a && Repairs(a, b, {}, fate) == {}
  {
  }

  /** Builds both trees and finds the buckets to reconcile; `local` has this side's entries by bucket. */
  method FindDivergent<H(==,!new)>(h: Hashing<H>, buckets: nat, engine: Replica, peer: Replica, treeAnswers: bool)
    returns (r: Result<(seq<nat>, map<nat, Entries>), ReconcileError>)
    requires buckets > 0
    ensures r.Ok? <==> PowerOfTwo(buckets) && treeAnswers
    ensures !PowerOfTwo(buckets) ==> r == Err(NoTree(NotPowerOfTwo))
    ensures PowerOfTwo(buckets) && !treeAnswers ==> r == Err(PeerUnreachable)
    ensures r.Ok? ==> forall i, j :: 0 <= i < j < |r.value.0| ==> r.value.0[i] < r.value.0[j]
    ensures r.Ok? ==> Partitioned(h, buckets, engine.store, r.value.1)
    ensures r.Ok? ==> forall leaf: nat :: leaf in r.value.0 ==>
      Differs(LeavesOf(h, buckets, engine.store), LeavesOf(h, buckets, peer.store), leaf)
    ensures r.Ok? && Distinguishes(h, buckets, engine.store, peer.store) ==>
      forall leaf: nat :: Differs(LeavesOf(h, buckets, engine.store), LeavesOf(h, buckets, peer.store), leaf) ==>
        leaf in r.value.0
  {
    hide LeavesOf;
    hide Partitioned;
    var kvs := ScanAll(engine);
    var local := BuildTree(h, buckets, kvs);
    if local.Err? {
      return Err(NoTree(NotPowerOfTwo));
    }
    if !treeAnswers {
      return Err(PeerUnreachable);
    }
    var peerKvs := ScanAll(peer);
    var remote := BuildTree(h, buckets, peerKvs);
    var diff, calls := Diff(local.value.0, remote.value.0, h.pair);
    if Root(local.value.0) == Root(remote.value.0) {
      return Ok(([], local.value.1));
    }
    return Ok((diff.value, local.value.1));
  }

  /** What a round leaves behind, from the transfers that arrived. */
  lemma RoundOutcome(a: Store, b: Store, compared: set<Key>, fate: Key -> Fate)
    ensures NeverOlder(a, Received(a, b, compared, fate)) && NeverOlder(b, Received(b, a, compared, fate))
    ensures a == b ==> Received(a, b, compared, fate) == a && Received(b, a, compared, fate) == b
    ensures a == b ==> Repairs(a, b, compared, fate) == {}
  {
  }

  /**
   * One round against one peer. Whatever fails, each side only ever takes the other's newer entries.
   * With hashes that tell the stores apart and every call delivered, both end with the newest entry of
   * every key, tombstones included, and agree exactly if no two entries tie on their timestamp.
   */
  method Reconcile<H(==,!new)>(h: Hashing<H>, buckets: nat, engine: Replica, peer: Replica, treeAnswers: bool,
      bucketAnswers: nat -> bool, fate: Key -> Fate)
    returns (repaired: nat, error: Option<ReconcileError>, ghost compared: set<Key>)
    requires buckets > 0 && engine != peer
    modifies engine, peer
    ensures engine.store == Received(old(engine.store), old(peer.store), compared, fate)
    ensures peer.store == Received(old(peer.store), old(engine.store), compared, fate)
    ensures repaired == |Repairs(old(engine.store), old(peer.store), compared, fate)|
    ensures NeverOlder(old(engine.store), engine.store) && NeverOlder(old(peer.store), peer.store)
    ensures !PowerOfTwo(buckets) ==> error == Some(NoTree(NotPowerOfTwo)) && compared == {}
    ensures PowerOfTwo(buckets) && !treeAnswers ==> error == Some(PeerUnreachable) && compared == {}
    ensures PowerOfTwo(buckets) && treeAnswers && (forall b :: bucketAnswers(b)) ==> error.None?
    ensures old(engine.store) == old(peer.store) ==>
      repaired == 0 && engine.store == old(engine.store) && peer.store == old(peer.store)
    ensures (error.None? && Distinguishes(h, buckets, old(engine.store), old(peer.store))
             && (forall k :: fate(k) == Acked)) ==>
      && engine.store == Newest(old(engine.store), old(peer.store))
      && peer.store == Newest(old(peer.store), old(engine.store))
      && repaired == |Differing(old(engine.store), old(peer.store)) - Ties(old(engine.store), old(peer.store))|
      && (engine.store == peer.store <==> Ties(old(engine.store), old(peer.store)) == {})
  {
    ghost var a, b := engine.store, peer.store;
    repaired, error, compared := 0, None, {};
    NothingCompared(a, b, fate);
    NothingCompared(b, a, fate);
    RoundOutcome(a, b, {}, fate);
    var found := FindDivergent(h, buckets, engine, peer, treeAnswers);
    hide Received;
    hide Repairs;
    hide NeverOlder;
    hide Partitioned;
    hide Distinguishes;
    hide Newest;
    hide KeysIn;
    match found
    case Err(e) =>
      error := Some(e);
    case Ok((divergent, byBucket)) =>
      repaired, error, compared := ReconcileBuckets(h, buckets, engine, peer, divergent, byBucket, bucketAnswers, fate);
      RoundOutcome(a, b, compared, fate);
      if error.None? && Distinguishes(h, buckets, a, b) && forall k :: fate(k) == Acked {
        AllCompared(h, buckets, a, b, divergent);
        Converged(a, b, compared, fate);
      }
  }

  lemma AllCompared<H(!new)>(h: Hashing<H>, buckets: nat, a: Store, b: Store, divergent: seq<nat>)
    requires buckets > 0 && Distinguishes(h, buckets, a, b)
    requires forall leaf: nat :: Differs(LeavesOf(h, buckets, a), LeavesOf(h, buckets, b), leaf) ==> leaf in divergent
    ensures Differing(a, b) <= KeysIn(h, buckets, a, b, divergent)
  {
    forall k | !Differs(LeavesOf(h, buckets, a), LeavesOf(h, buckets, b), BucketFor(h, k, buckets))
      ensures k !in Differing(a, b)
    {
      SameElsewhere(h, buckets, a, b, k);
    }
  }

  /** Bucket after bucket, stopping at the first the peer does not answer for. */
  method ReconcileBuckets<H>(h: Hashing<H>, buckets: nat, engine: Replica, peer: Replica, divergent: seq<nat>,
      byBucket: map<nat, Entries>, bucketAnswers: nat -> bool, fate: Key -> Fate)
    returns (repaired: nat, error: Option<ReconcileError>, ghost compared: set<Key>)
    requires buckets > 0 && engine != peer
    requires forall i, j :: 0 <= i < j < |divergent| ==> divergent[i] < divergent[j]
    requires Partitioned(h, buckets, engine.store, byBucket)
    modifies engine, peer
    ensures engine.store == Received(old(engine.store), old(peer.store), compared, fate)
    ensures peer.store == Received(old(peer.store), old(engine.store), compared, fate)
    ensures repaired == |Repairs(old(engine.store), old(peer.store), compared, fate)|
    ensures error.None? ==> compared == KeysIn(h, buckets, old(engine.store), old(peer.store), divergent)
    ensures (forall b :: bucketAnswers(b)) ==> error.None?
  {
    ghost var a, b := engine.store, peer.store;
    NothingCompared(a, b, fate);
    NothingCompared(b, a, fate);
    hide Received;
    hide Repairs;
    repaired, error, compared := 0, None, {};
    for i := 0 to |divergent|
      invariant compared == KeysIn(h, buckets, a, b, divergent[..i])
      invariant engine.store == Received(a, b, compared, fate) && peer.store == Received(b, a, compared, fate)
      invariant repaired == |Repairs(a, b, compared, fate)|
    {
      if !bucketAnswers(divergent[i]) {
        return repaired, Some(PeerUnreachable), compared;
      }
      OneMoreBucket(h, buckets, a, b, divergent, i);
      repaired := ReconcileBucket(h, buckets, engine, peer, divergent[i],
        ToMap(EntriesAt(byBucket, divergent[i])), fate,
        a, b, compared, repaired);
      compared := KeysIn(h, buckets, a, b, divergent[..i + 1]);
    }
    assert divergent[..|divergent|] == divergent;
  }
}
